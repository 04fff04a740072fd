/**
 * Sequences of store-changing chat commands, and what they can and cannot do to
 * the secret store. These are the guarantees the `twofactor_secure` option exists
 * for (the comment at lib/lita/handlers/confirmation.rb:9-11): whoever controls an
 * unprivileged chat account cannot rotate or strip an existing second factor.
 */
module Session {
  import opened Wrappers
  import opened Gateway

  /** One store-changing command, with what the handler takes from its collaborators. */
  datatype Op =
    | EnrollOp(caller: UserId, drawn: Secret)
    | RemoveSelfOp(caller: UserId)
    | RemoveOp(caller: UserId, target: Option<User>)

  /** The store after one command. */
  function Step(secrets: map<UserId, Secret>, secure: bool, inGroup: (UserId, GroupName) -> bool, op: Op): (r: map<UserId, Secret>)
    ensures r.Keys <= secrets.Keys + (if op.EnrollOp? then {op.caller} else {})
    ensures secure && !Privileged(inGroup, op.caller) ==> Keeps(secrets, r)
    ensures !op.EnrollOp? ==> Keeps(r, secrets)
  {
    match op
    case EnrollOp(u, drawn) => Enroll(secrets, secure, u, drawn).secrets
    case RemoveSelfOp(u) => RemoveSelf(secrets, secure, inGroup, u).secrets
    case RemoveOp(u, target) => Remove(secrets, inGroup, u, target).secrets
  }

  /** The users who issue an enroll command somewhere in `ops`. */
  function Enrollers(ops: seq<Op>): set<UserId>
  {
    if ops == [] then {}
    else (if ops[0].EnrollOp? then {ops[0].caller} else {}) + Enrollers(ops[1..])
  }

  /**
   * The store after running `ops` in order. A user only ever gains a secret by
   * enrolling themselves: no command puts a secret under somebody else's id.
   */
  function Run(secrets: map<UserId, Secret>, secure: bool, inGroup: (UserId, GroupName) -> bool, ops: seq<Op>): (r: map<UserId, Secret>)
    ensures r.Keys <= secrets.Keys + Enrollers(ops)
    decreases |ops|
  {
    if ops == [] then secrets
    else Run(Step(secrets, secure, inGroup, ops[0]), secure, inGroup, ops[1..])
  }

  /**
   * In secure mode, commands issued only by unprivileged users never remove or
   * change a secret that is already stored; they can only add new enrollments.
   */
  lemma {:induction false} SecureModeKeepsSecrets(secrets: map<UserId, Secret>, inGroup: (UserId, GroupName) -> bool, ops: seq<Op>)
    requires forall i :: 0 <= i < |ops| ==> !Privileged(inGroup, ops[i].caller)
    ensures Keeps(secrets, Run(secrets, true, inGroup, ops))
    decreases |ops|
  {
    if ops != [] {
      var next := Step(secrets, true, inGroup, ops[0]);
      assert Keeps(secrets, next) by {
        assert !Privileged(inGroup, ops[0].caller);
      }
      SecureModeKeepsSecrets(next, inGroup, ops[1..]);
    }
  }

  /**
   * Without secure mode, or for a privileged user, the account holder can replace
   * their own secret by removing it and enrolling again.
   */
  lemma RotationInInsecureModeOrWithPrivilege(secrets: map<UserId, Secret>, secure: bool,
                                             inGroup: (UserId, GroupName) -> bool, user: UserId, drawn: Secret)
    requires !secure || Privileged(inGroup, user)
    ensures var r := Run(secrets, secure, inGroup, [RemoveSelfOp(user), EnrollOp(user, drawn)]);
            user in r && r[user] == drawn
  {
    var ops := [RemoveSelfOp(user), EnrollOp(user, drawn)];
    var afterRemove := Step(secrets, secure, inGroup, ops[0]);
    assert user !in afterRemove;
    var afterEnroll := Step(afterRemove, secure, inGroup, ops[1]);
    assert ops[1..][1..] == [];
    assert Run(secrets, secure, inGroup, ops) == Run(afterRemove, secure, inGroup, ops[1..]) == afterEnroll;
  }

  /**
   * Whoever enrolled before an attack keeps their second factor: after any commands
   * by unprivileged users in secure mode, a one-time-password confirmation by an
   * enrolled user has exactly the result it had before.
   */
  lemma SecureModeKeepsConfirmations(secrets: map<UserId, Secret>, inGroup: (UserId, GroupName) -> bool, ops: seq<Op>,
                                     pending: map<Code, Pending>, code: Code, otp: string, user: UserId,
                                     verify: (Secret, string) -> bool)
    requires forall i :: 0 <= i < |ops| ==> !Privileged(inGroup, ops[i].caller)
    requires user in secrets
    ensures TotpConfirm(Run(secrets, true, inGroup, ops), pending, code, otp, user, verify)
            == TotpConfirm(secrets, pending, code, otp, user, verify)
  {
    SecureModeKeepsSecrets(secrets, inGroup, ops);
  }

  /**
   * A one-time-password confirmation only succeeds for a user who had a secret to
   * begin with or enrolled themselves since: no command sequence lends a second
   * factor to somebody who never enrolled.
   */
  lemma NoSecondFactorWithoutEnrolling(secrets: map<UserId, Secret>, secure: bool, inGroup: (UserId, GroupName) -> bool,
                                       ops: seq<Op>, pending: map<Code, Pending>, code: Code, otp: string, user: UserId,
                                       verify: (Secret, string) -> bool)
    requires user !in secrets && user !in Enrollers(ops)
    ensures TotpConfirm(Run(secrets, secure, inGroup, ops), pending, code, otp, user, verify).calledAs.None?
  {
  }

  /**
   * Removing one's own secret and then a named user's, as one message of two lines
   * does: a privileged sender deletes both entries (only the own one when the name
   * resolves to nobody); an unprivileged sender deletes nothing in secure mode and
   * only the own entry otherwise.
   */
  lemma RemoveSelfThenRemove(secrets: map<UserId, Secret>, secure: bool, inGroup: (UserId, GroupName) -> bool,
                             sender: UserId, target: Option<User>)
    ensures var r := Run(secrets, secure, inGroup, [RemoveSelfOp(sender), RemoveOp(sender, target)]);
            && (Privileged(inGroup, sender) && target.Some? ==> r == secrets - {sender, target.value.id})
            && (Privileged(inGroup, sender) && target.None? ==> r == secrets - {sender})
            && (!Privileged(inGroup, sender) && secure ==> r == secrets)
            && (!Privileged(inGroup, sender) && !secure ==> r == secrets - {sender})
  {
    var ops := [RemoveSelfOp(sender), RemoveOp(sender, target)];
    var afterSelf := Step(secrets, secure, inGroup, ops[0]);
    var afterBoth := Step(afterSelf, secure, inGroup, ops[1]);
    assert ops[1..][1..] == [];
    assert Run(secrets, secure, inGroup, ops) == Run(afterSelf, secure, inGroup, ops[1..]) == afterBoth;
    if Privileged(inGroup, sender) && target.Some? {
      assert afterSelf == secrets - {sender};
      assert afterBoth == secrets - {sender, target.value.id};
    }
  }
}
