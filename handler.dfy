/**
 * The chat handler itself (class Lita::Handlers::Confirmation). Its one piece of
 * state is the secret store: a hash per user id whose "totp" field holds that
 * user's secret, kept here as one map from user id to secret. The routes that
 * write the store update `secrets` in place; the two confirmation routes have no
 * `modifies` clause, so they cannot change it.
 */
module Handlers {
  import opened Wrappers
  import opened Gateway

  class Confirmation {
    /** The "totp" field of every user's hash in the store. */
    var secrets: map<UserId, Secret>
    const config: Config

    /** A handler over an existing store; the store outlives each handler. */
    constructor (config: Config, store: map<UserId, Secret>)
      ensures this.config == config && secrets == store
    {
      this.config := config;
      secrets := store;
    }

    /** A handler with the options left at their declared defaults. */
    constructor WithDefaults(store: map<UserId, Secret>)
      ensures config.twofactorDefault == "block" && config.twofactorSecure
      ensures secrets == store
    {
      config := DefaultConfig;
      secrets := store;
    }

    /** `confirm`: `pending` is the registry's lookup by code. */
    method Confirm(pending: map<Code, Pending>, code: Code, confirmer: UserId) returns (r: Result)
      ensures r == Gateway.Confirm(pending, code, confirmer)
      ensures r.calledAs.Some? <==> code in pending && !pending[code].twofactor
    {
      if code !in pending {
        r := Result(None, [InvalidCode(code)]);
        return;
      }
      if pending[code].twofactor {
        r := Result(None, [TotpNotProvided]);
      } else {
        r := CallCommand(pending[code], code, confirmer);
      }
    }

    /** `totp_confirm`: reads the confirming user's secret and checks `otp` against it. */
    method TotpConfirm(pending: map<Code, Pending>, code: Code, otp: string, confirmer: UserId,
                       verify: (Secret, string) -> bool) returns (r: Result)
      ensures r == Gateway.TotpConfirm(secrets, pending, code, otp, confirmer, verify)
      ensures r.calledAs.Some? ==> confirmer in secrets
    {
      if code !in pending {
        r := Result(None, [InvalidCode(code)]);
        return;
      }
      if confirmer !in secrets {
        r := Result(None, [TotpNotEnrolled]);
        return;
      }
      var totpSecret := secrets[confirmer];
      if verify(totpSecret, otp) || !pending[code].twofactor {
        r := CallCommand(pending[code], code, confirmer);
      } else {
        r := Result(None, [TotpIncorrectOtp]);
      }
    }

    /** `enroll`: `drawn` is the random secret drawn before the store is consulted. */
    method Enroll(user: UserId, drawn: Secret) returns (reply: Reply)
      modifies this`secrets
      ensures Effect(secrets, reply) == Gateway.Enroll(old(secrets), config.twofactorSecure, user, drawn)
      ensures config.twofactorSecure && user in old(secrets) ==> secrets == old(secrets)
      ensures user in secrets
    {
      if !(user in secrets && config.twofactorSecure) {
        secrets := secrets[user := drawn];
        reply := Enrolled(drawn);
      } else {
        reply := MustRemoveToReenroll;
      }
    }

    /** `remove_self`: the caller deletes their own secret. */
    method RemoveSelf(user: UserId, inGroup: (UserId, GroupName) -> bool) returns (reply: Reply)
      modifies this`secrets
      ensures Effect(secrets, reply) == Gateway.RemoveSelf(old(secrets), config.twofactorSecure, inGroup, user)
      ensures reply == Removed("You") ==> user !in secrets
      ensures reply != Removed("You") ==> secrets == old(secrets)
    {
      if config.twofactorSecure && !Privileged(inGroup, user) {
        reply := RemoveRequiresAdmin;
      } else {
        secrets := secrets - {user};
        reply := Removed("You");
      }
    }

    /** `remove <mention>`: `findByMentionName` is the user directory's lookup. */
    method Remove(caller: UserId, mention: string, findByMentionName: string -> Option<User>,
                  inGroup: (UserId, GroupName) -> bool) returns (reply: Reply)
      modifies this`secrets
      ensures Effect(secrets, reply) == Gateway.Remove(old(secrets), inGroup, caller, findByMentionName(mention))
      ensures !Privileged(inGroup, caller) ==> secrets == old(secrets)
    {
      var target := findByMentionName(mention);
      if !Privileged(inGroup, caller) {
        reply := RemoveRequiresAdmin;
      } else if target.Some? {
        secrets := secrets - {target.value.id};
        reply := Removed(target.value.name);
      } else {
        reply := RemoveNoSuchUser;
      }
    }
  }
}
