/**
 * The decision logic of the confirmation handler (lib/lita/handlers/confirmation.rb),
 * stated on values: what each chat route replies and what it does to the per-user
 * TOTP secret store. The mutable store itself lives in module Handlers; the routes
 * that change it are proved there against the step functions below.
 */
module Gateway {
  import opened Wrappers

  type UserId = string
  type Secret = string
  type Code = string
  type GroupName = string

  /** The handler's two configuration options and their defaults. */
  datatype Config = Config(twofactorDefault: string, twofactorSecure: bool)

  const DefaultConfig: Config := Config("block", true)

  /** A chat user as the user directory returns it. */
  datatype User = User(id: UserId, name: string)

  /**
   * What `command.call(user)` returns. The handler only tells two symbols apart;
   * any other symbol, and any value that is not a symbol, falls through.
   */
  datatype Outcome = Symbol(name: string) | Other

  /**
   * A pending (unconfirmed) command as the registry's `find` returns it: whether it
   * demands a second factor, the groups named in its group constraint, and what
   * calling it with a given confirming user returns.
   */
  datatype Pending = Pending(twofactor: bool, groups: seq<GroupName>, call: UserId -> Outcome)

  /** The replies the handler sends, one constructor per message key. */
  datatype Reply =
    | InvalidCode(code: Code)
    | TotpNotProvided
    | TotpNotEnrolled
    | TotpIncorrectOtp
    | Enrolled(totp: Secret)
    | MustRemoveToReenroll
    | RemoveRequiresAdmin
    | Removed(user: string)
    | RemoveNoSuchUser
    | OtherUserRequired(code: Code)
    | UserInGroupRequired(code: Code, groups: seq<GroupName>)

  /**
   * What a confirmation route did: the user the pending command was called with,
   * if it was called at all, and the replies the handler itself sent.
   */
  datatype Result = Result(calledAs: Option<UserId>, replies: seq<Reply>)

  /** What a store-changing route did: the store afterwards and its one reply. */
  datatype Effect = Effect(secrets: map<UserId, Secret>, reply: Reply)

  /** The groups whose members may remove second factors. */
  const AdminGroups: set<GroupName> := {"admin", "confirmation_admin"}

  /** `privileged_user?`: membership in one of the administrative groups. */
  function Privileged(inGroup: (UserId, GroupName) -> bool, user: UserId): (r: bool)
    ensures r <==> exists g :: g in AdminGroups && inGroup(user, g)
  {
    assert "admin" in AdminGroups && "confirmation_admin" in AdminGroups;
    inGroup(user, "admin") || inGroup(user, "confirmation_admin")
  }

  /** True when `after` agrees with `before` on every user except `user`. */
  ghost predicate OthersUnchanged(before: map<UserId, Secret>, after: map<UserId, Secret>, user: UserId)
  {
    && (forall v :: v != user ==> (v in before <==> v in after))
    && (forall v :: v != user && v in before ==> after[v] == before[v])
  }

  /** True when `after` keeps every entry of `before` with the same secret. */
  ghost predicate Keeps(before: map<UserId, Secret>, after: map<UserId, Secret>)
  {
    forall v :: v in before ==> v in after && after[v] == before[v]
  }

  /**
   * `call_command`: call the pending command with the confirming user and turn the
   * two constraint symbols into replies. Whatever else the call returns adds no
   * reply here (the deferred command sends its own).
   */
  function CallCommand(command: Pending, code: Code, confirmer: UserId): (r: Result)
    ensures r.calledAs == Some(confirmer)
    ensures |r.replies| <= 1
    ensures command.call(confirmer) == Symbol("other_user_required") <==> r.replies == [OtherUserRequired(code)]
    ensures command.call(confirmer) == Symbol("user_in_group_required") <==>
              r.replies == [UserInGroupRequired(code, command.groups)]
    ensures forall reply :: reply in r.replies ==> reply.OtherUserRequired? || reply.UserInGroupRequired?
    ensures (command.call(confirmer) != Symbol("other_user_required") &&
             command.call(confirmer) != Symbol("user_in_group_required")) ==> r.replies == []
  {
    var replies :=
      match command.call(confirmer)
      case Symbol("other_user_required") => [OtherUserRequired(code)]
      case Symbol("user_in_group_required") => [UserInGroupRequired(code, command.groups)]
      case _ => [];
    Result(Some(confirmer), replies)
  }

  /**
   * `confirm <code>`: a plain confirmation. Only a known command that does not demand
   * a second factor is called; the secret store is not consulted.
   */
  function Confirm(pending: map<Code, Pending>, code: Code, confirmer: UserId): (r: Result)
    ensures r.calledAs.Some? <==> code in pending && !pending[code].twofactor
    ensures r.calledAs.Some? ==> r == CallCommand(pending[code], code, confirmer)
    ensures code !in pending ==> r.replies == [InvalidCode(code)]
    ensures code in pending && pending[code].twofactor ==> r.replies == [TotpNotProvided]
  {
    if code !in pending then
      Result(None, [InvalidCode(code)])
    else if pending[code].twofactor then
      Result(None, [TotpNotProvided])
    else
      CallCommand(pending[code], code, confirmer)
  }

  /**
   * `confirm <code> <otp>`: a confirmation with a one-time password, checked against
   * the CONFIRMING user's own secret. A correct password is not needed for a command
   * that does not demand a second factor, but the confirmer must still be enrolled.
   */
  function TotpConfirm(secrets: map<UserId, Secret>, pending: map<Code, Pending>, code: Code, otp: string,
                       confirmer: UserId, verify: (Secret, string) -> bool): (r: Result)
    ensures r.calledAs.Some? <==>
              && code in pending
              && confirmer in secrets
              && (verify(secrets[confirmer], otp) || !pending[code].twofactor)
    ensures r.calledAs.Some? ==> r == CallCommand(pending[code], code, confirmer)
    ensures code !in pending ==> r.replies == [InvalidCode(code)]
    ensures code in pending && confirmer !in secrets ==> r.replies == [TotpNotEnrolled]
    ensures code in pending && confirmer in secrets && pending[code].twofactor && !verify(secrets[confirmer], otp) ==>
              r.replies == [TotpIncorrectOtp]
  {
    if code !in pending then
      Result(None, [InvalidCode(code)])
    else if confirmer !in secrets then
      Result(None, [TotpNotEnrolled])
    else if verify(secrets[confirmer], otp) || !pending[code].twofactor then
      CallCommand(pending[code], code, confirmer)
    else
      Result(None, [TotpIncorrectOtp])
  }

  /**
   * `enroll`: store the freshly drawn secret for the caller and echo it, unless secure
   * mode is on and the caller already has one. Either way the caller ends up enrolled.
   */
  function Enroll(secrets: map<UserId, Secret>, secure: bool, user: UserId, drawn: Secret): (e: Effect)
    ensures e.reply.Enrolled? <==> user !in secrets || !secure
    ensures e.reply.Enrolled? ==> e.reply.totp == drawn && user in e.secrets && e.secrets[user] == drawn
    ensures !e.reply.Enrolled? ==> e.reply == MustRemoveToReenroll && e.secrets == secrets
    ensures e.secrets.Keys == secrets.Keys + {user}
    ensures OthersUnchanged(secrets, e.secrets, user)
    ensures secure ==> Keeps(secrets, e.secrets)
  {
    if !(user in secrets && secure) then
      Effect(secrets[user := drawn], Enrolled(drawn))
    else
      Effect(secrets, MustRemoveToReenroll)
  }

  /**
   * `remove_self`: delete the caller's own secret, which in secure mode only a
   * privileged user may do. Deleting an absent secret still reports success.
   */
  function RemoveSelf(secrets: map<UserId, Secret>, secure: bool, inGroup: (UserId, GroupName) -> bool,
                      user: UserId): (e: Effect)
    ensures e.reply == Removed("You") <==> !secure || Privileged(inGroup, user)
    ensures e.reply == Removed("You") ==> e.secrets.Keys == secrets.Keys - {user}
    ensures e.reply != Removed("You") ==> e.reply == RemoveRequiresAdmin && e.secrets == secrets
    ensures Keeps(e.secrets, secrets)
    ensures OthersUnchanged(secrets, e.secrets, user)
  {
    if secure && !Privileged(inGroup, user) then
      Effect(secrets, RemoveRequiresAdmin)
    else
      Effect(secrets - {user}, Removed("You"))
  }

  /**
   * `remove <mention>`: a privileged caller deletes the secret of the user the mention
   * resolves to (`target`, None when it resolves to nobody). Secure mode plays no part.
   */
  function Remove(secrets: map<UserId, Secret>, inGroup: (UserId, GroupName) -> bool, caller: UserId,
                  target: Option<User>): (e: Effect)
    ensures !Privileged(inGroup, caller) ==> e == Effect(secrets, RemoveRequiresAdmin)
    ensures Privileged(inGroup, caller) && target.None? ==> e == Effect(secrets, RemoveNoSuchUser)
    ensures Privileged(inGroup, caller) && target.Some? ==>
              && e.reply == Removed(target.value.name)
              && e.secrets.Keys == secrets.Keys - {target.value.id}
              && OthersUnchanged(secrets, e.secrets, target.value.id)
    ensures Keeps(e.secrets, secrets)
  {
    if !Privileged(inGroup, caller) then
      Effect(secrets, RemoveRequiresAdmin)
    else if target.Some? then
      Effect(secrets - {target.value.id}, Removed(target.value.name))
    else
      Effect(secrets, RemoveNoSuchUser)
  }
}
