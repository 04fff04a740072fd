# lita-confirmation: the chat handler, in Dafny

This project models `Lita::Handlers::Confirmation`, the chat front end of the
lita-confirmation gateway. A chat command that needs confirmation is held as a
pending command under a six-hex-digit code. A user confirms it by typing
`confirm <code>`, or `confirm <code> <otp>` when the command demands a second
factor. Whether the confirming user may be the one who issued the command is
decided by the pending command itself, which answers `other_user_required` when
it is not. Users enrol a TOTP secret with `confirm 2fa enroll`, remove their own
with `confirm 2fa remove`, and administrators remove somebody else's with
`confirm 2fa remove <user>`.

The project has five files.

- `gateway.dfy` (module `Gateway`) holds the decision logic as pure functions on
  values. It covers the two confirmation routes, `call_command` and
  `privileged_user?`, and one step function per store-changing route. Each step
  function gives the new secret store and the reply.
- `handler.dfy` (module `Handlers`) holds the handler as a class. Its field
  `secrets` is the store: the `"totp"` field of each user's hash, kept as one map
  from user id to secret. `Enroll`, `RemoveSelf` and `Remove` update the field in
  place and are proved against the step functions. `Confirm` and `TotpConfirm`
  have no `modifies` clause, so they cannot change the store.
- `session.dfy` (module `Session`) runs sequences of store-changing commands. It
  proves the guarantee that the `twofactor_secure` option exists for: in secure
  mode, unprivileged users cannot rotate or strip an existing second factor.
- `routes.dfy` (module `Routes`) models the five route regular expressions as a
  recogniser from a message body to the handler calls it fires. The regular
  expressions are written in a small pattern language with a greedy matcher. The
  matcher is proved to agree with the relational, backtracking meaning of the
  patterns for patterns in which no repetition can be cut short or extended
  (all five routes are such patterns). In Ruby, `^` and `$` are line anchors and `\s` matches a line feed.
  Lita dispatches a message to every route whose pattern matches it, in the order
  the routes are declared. As a result, a message of one line fires at most one
  route, but a message of several lines can fire several.
- `wrappers.dfy` holds `Option`.

The collaborators the handler calls become parameters:

- group membership (`robot.auth.user_in_group?`) is `inGroup`;
- the pending-command registry's `find` is a map from code to `Pending`;
- the pending command's `call` is a function carried in `Pending`;
- the mention lookup (`Lita::User.find_by_mention_name`) is `findByMentionName`;
- TOTP verification is `verify`;
- the random secret drawn by `enroll` is `drawn`.

The one-time password is checked against the secret of the user who CONFIRMS
(`response.user` at line 56), not that of the user who requested the command.

## Model

| member | source | states |
|---|---|---|
| Gateway.Privileged | lib/lita/handlers/confirmation.rb:107-109 | a user is privileged exactly when they belong to one of the groups `admin` and `confirmation_admin` |
| Gateway.CallCommand | lib/lita/handlers/confirmation.rb:111-120 | the pending command is called with the confirming user; the `other_user_required` and `user_in_group_required` outcomes each produce exactly their reply, the latter listing the command's groups; any other outcome adds no reply |
| Gateway.Confirm | lib/lita/handlers/confirmation.rb:31-45 | the command is called if and only if the code is known and the command does not demand a second factor; an unknown code replies `invalid_code`; a second-factor command replies `totp_not_provided` |
| Gateway.TotpConfirm | lib/lita/handlers/confirmation.rb:47-69 | the command is called if and only if the code is known, the confirming user has a stored secret, and either the password verifies against that secret or the command does not demand a second factor; the three refusals give `invalid_code`, `totp_not_enrolled` and `totp_incorrect_otp` |
| Gateway.Enroll | lib/lita/handlers/confirmation.rb:71-79 | the drawn secret is stored and echoed exactly when the user has none or secure mode is off; otherwise the store is unchanged and the reply is `must_remove_to_reenroll`; the user is enrolled afterwards; no other user's entry changes; in secure mode no existing entry changes |
| Gateway.RemoveSelf | lib/lita/handlers/confirmation.rb:81-88 | the reply is `removed` for "You" exactly when secure mode is off or the caller is privileged, and then only the caller's entry is deleted; otherwise the store is unchanged and the reply is `remove_requires_admin`; nothing is ever added |
| Gateway.Remove | lib/lita/handlers/confirmation.rb:90-103 | an unprivileged caller leaves the store unchanged and gets `remove_requires_admin`; a privileged caller with an unresolved mention leaves it unchanged and gets `remove_no_such_user`; otherwise exactly the target's entry is deleted and the reply names the target |
| Handlers.Confirmation.constructor | lib/lita/handlers/confirmation.rb:7-12 | a handler holds the configuration it is given and the store it starts from |
| Handlers.Confirmation.WithDefaults | lib/lita/handlers/confirmation.rb:7-12 | a handler with the declared defaults has `twofactor_default` set to `block` and secure mode on |
| Handlers.Confirmation.Confirm | lib/lita/handlers/confirmation.rb:31-45 | the method returns the decision of `Gateway.Confirm`, calling the command only for a known code without a second factor, and leaves the store alone |
| Handlers.Confirmation.TotpConfirm | lib/lita/handlers/confirmation.rb:47-69 | the method returns the decision of `Gateway.TotpConfirm` on the current store, calls the command only for an enrolled confirmer, and leaves the store alone |
| Handlers.Confirmation.Enroll | lib/lita/handlers/confirmation.rb:71-79 | the new store and reply are those of `Gateway.Enroll` on the old store and the configured secure flag; in secure mode an enrolled user's store is unchanged; the user is enrolled afterwards |
| Handlers.Confirmation.RemoveSelf | lib/lita/handlers/confirmation.rb:81-88 | the new store and reply are those of `Gateway.RemoveSelf`; after a `removed` reply the caller has no secret, and after any other reply the store is unchanged |
| Handlers.Confirmation.Remove | lib/lita/handlers/confirmation.rb:90-103 | the new store and reply are those of `Gateway.Remove` with the mention resolved by the directory; an unprivileged caller leaves the store unchanged |
| Session.Step | lib/lita/handlers/confirmation.rb:71-103 | one store-changing command adds an entry only for an enrolling caller; in secure mode an unprivileged caller's command keeps every entry; the two removals never add or change an entry |
| Session.Run | lib/lita/handlers/confirmation.rb:71-103 | after any sequence of enroll and remove commands, every user with a secret had one before or enrolled themselves |
| Session.SecureModeKeepsSecrets | lib/lita/handlers/confirmation.rb:9-12 | in secure mode, commands issued only by unprivileged users keep every stored secret, unchanged |
| Session.RotationInInsecureModeOrWithPrivilege | lib/lita/handlers/confirmation.rb:9-12 | with secure mode off, or for a privileged user, removing and then enrolling replaces the user's secret with the newly drawn one |
| Session.SecureModeKeepsConfirmations | lib/lita/handlers/confirmation.rb:9-12 | in secure mode, after commands by unprivileged users, a password confirmation by an enrolled user has exactly the result it had before |
| Session.RemoveSelfThenRemove | lib/lita/handlers/confirmation.rb:81-103 | a sender's own removal followed by the removal of a named user deletes both entries for a privileged sender (only the own one when the name resolves to nobody), nothing for an unprivileged sender in secure mode, and only the own entry for an unprivileged sender otherwise |
| Session.NoSecondFactorWithoutEnrolling | lib/lita/handlers/confirmation.rb:56-60 | a user who never had a secret and never enrolled cannot get a command called by password confirmation, whatever commands ran |
| Routes.IsSpace | lib/lita/handlers/confirmation.rb:14-29 | `\s` is the six ASCII whitespace characters; none of them is changed by case folding or belongs to a code or password class |
| Routes.LitAtCaseless | lib/lita/handlers/confirmation.rb:14-29 | with the `i` flag a lower-case word matches exactly the texts that spell it with each letter in either case |
| Routes.HexCaseless | lib/lita/handlers/confirmation.rb:14-18 | with the `i` flag `[a-f0-9]` takes the digits and the letters `a` to `f` in either case |
| Routes.AnchorsOnOneLine | lib/lita/handlers/confirmation.rb:14-29 | on a message without a line feed, `^` holds only at its start and `$` only at its end |
| Routes.RunEnd | lib/lita/handlers/confirmation.rb:14-29 | the longest run of whitespace, or of non-whitespace, from a position: every character in it is of that kind, and the next one is not |
| Routes.Match | lib/lita/handlers/confirmation.rb:14-29 | a successful match returns one capture per group of the pattern |
| Routes.MatchSound | lib/lita/handlers/confirmation.rb:14-29 | whatever the greedy matcher returns is a derivation of the pattern, with those captures |
| Routes.MatchComplete | lib/lita/handlers/confirmation.rb:14-29 | for a pattern in which no repetition can be cut short or extended, the greedy matcher returns every derivation |
| Routes.DerivationUnique | lib/lita/handlers/confirmation.rb:14-29 | such a pattern has at most one set of captures at a position |
| Routes.RoutesDeterministic | lib/lita/handlers/confirmation.rb:14-29 | each of the five route patterns is of that kind |
| Routes.FindFrom | lib/lita/handlers/confirmation.rb:14-29 | scanning the line starts: any captures returned are those of a match at some line start |
| Routes.FindFromIsLeftmost | lib/lita/handlers/confirmation.rb:14-29 | for such a pattern, the scan returns given captures if and only if they are those of the leftmost line start where the pattern matches |
| Routes.RouteAtoms | lib/lita/handlers/confirmation.rb:14-29 | the five patterns are the five regular expressions atom by atom: `confirm`, `\s+`, then six hex digits and `$`; six hex digits, `\s+`, six digits and `$`; or `2fa`, `\s+` and `enroll$`, `remove$` or `remove\s+(\S+)$` |
| Routes.FoundCaptures | lib/lita/handlers/confirmation.rb:14-29 | the captures of any match of a route are as many as its groups, and are a six-hex-digit code, a six-digit password or a non-empty name without whitespace as the groups prescribe |
| Routes.Fire | lib/lita/handlers/confirmation.rb:14-29 | a route fires at most once, exactly when its pattern matches at some line start, and makes a well-formed call of its own handler method |
| Routes.FireFrom | lib/lita/handlers/confirmation.rb:14-29 | the routes from the `n`-th on fire well-formed calls, in declaration order |
| Routes.Recognise | lib/lita/handlers/confirmation.rb:14-29 | every call a message fires is well formed, and the calls come in route declaration order, each route at most once |
| Routes.RecogniseRoutes | lib/lita/handlers/confirmation.rb:14-29 | the calls a message fires are those of the five routes concatenated in declaration order |
| Routes.SingleLineFind | lib/lita/handlers/confirmation.rb:14-29 | on a message of one line, the scan is a match anchored at its start |
| Routes.SingleLineFire | lib/lita/handlers/confirmation.rb:14-29 | a route fires on a one-line message exactly when its pattern matches from the start |
| Routes.Exclusive | lib/lita/handlers/confirmation.rb:14-29 | no two different route patterns both match a one-line message from its start |
| Routes.FireExclusive | lib/lita/handlers/confirmation.rb:14-29 | no two different routes both fire on a one-line message |
| Routes.AtMostOneRoute | lib/lita/handlers/confirmation.rb:14-29 | a one-line message makes at most one handler call |
| Routes.RenderedMatch | lib/lita/handlers/confirmation.rb:14-29 | the message typed for a well-formed call matches that call's route, and its captures give back the call |
| Routes.RenderRecognised | lib/lita/handlers/confirmation.rb:14-29 | typing the message for a well-formed call makes exactly that call and no other |
| Routes.NameLineSilent | lib/lita/handlers/confirmation.rb:14-29 | in the message `confirm 2fa remove`, a line feed, then a user name, no `confirm`-prefixed route's scan finds a match after position 0: the name, on the last line, starts none |
| Routes.RemovalThenNameFiresBoth | lib/lita/handlers/confirmation.rb:25-29 | the message `confirm 2fa remove`, a line feed, then a user name fires exactly two calls: the sender's own removal, then the removal of the named user (their effect on the store is `Session.RemoveSelfThenRemove`) |

## Left out

- The TOTP algorithm and base32 secret generation (ROTP, lines 62 and 72) are a cryptographic library. Verification is the parameter `verify`; the current time it depends on is folded into it. The drawn secret is the parameter `drawn`.
- Redis is the map field `secrets`. Redis I/O, its failures and concurrent access by several handlers are not modelled.
- `Extensions::Confirmation::UnconfirmedCommand` is not part of this model. Its `find` is taken as a map lookup and its `call` outcome as a function of the confirming user. Code generation, expiry, consumption of codes and the constraint checks made inside `call` are left to it.
- Of Lita's routing, only the dispatch of a body to every matching route in declaration order is modelled (`Routes.Recognise`). Not modelled: the `command: true` filter that admits only messages addressed to the robot, the stripping of the robot's name from those messages, the routes of other handlers, route registration and the help texts (`help:` at lines 14-29). `Routes.Recognise` starts from the body after the robot's name is stripped.
- Reply texts come from `t(...)` localisation and are one `Reply` constructor per message key. `Gateway.CallCommand` keeps the list of groups instead of the text `groups.join(", ")`.
- `twofactor_default` (line 7) is kept in `Gateway.Config` but only declared in this handler. It is read by the extension, which is not part of this model.
- The configuration's type checks (lines 7 and 12) are Lita's and are not modelled.
- Routes.LitAtCaseless, Routes.HexCaseless: under the `i` flag Ruby applies Unicode case folding, while the model (`Routes.Fold`) folds ASCII letters only. It does not capture non-ASCII characters that fold to the letters of the routes: for example U+FB01 `ﬁ` folds to `fi`, so Ruby can let `conﬁrm` match `confirm`, and the model does not.
- Routes.IsSpace: it has only the six ASCII whitespace characters that Ruby's `\s` matches. Non-ASCII text is otherwise treated as ordinary characters.
