# Netlify functions demo: accounts, offline XP, recent usernames, cookies

This project models the core of a small set of Netlify functions:

- **Account and session handler** (`auth.js`). Three tables live in the `auth-demo` blob store: `users.json` (account id to name, salt, hash, creation time), `sessions.json` (session id to account, name, creation and expiry times), and the player documents `players/<id>.json`. The class `Auth.AuthDemo` models them, and its methods model the four actions:
  - `register` validates and sanitises the name, refuses a taken id, stores the account and creates its player document;
  - `login` checks the password hash and opens a seven-day session;
  - `session` signs out an unknown session, deletes an expired one and slides the expiry of a live one;
  - `logout` removes the session the cookie names.

  The string helpers `sanitizeName`, `toId`, `validName`, `validPassword` and `getSessionCookie` are pure functions.
- **Profile sync** (`profile.js`). The `sync` action admits a request when its cookie names a stored session; it does not check expiry. It then applies offline XP to the player document.
  - Elapsed whole seconds times `perSec` are added to the XP.
  - A level-up loop takes `perLevel` off the XP per level, for at most 100000 rounds.
  - The class `Profile.PlayerDoc` holds the parsed document. Its method `Accrue` keeps the source's `while` loop and is proved against the function `Accrued`, which all the arithmetic lemmas are about.
- **Recent usernames** (`usernames.js`). The class `Usernames.Directory` holds the `all.json` list.
  - POST trims and checks the name, strips characters outside `[A-Za-z0-9_\-. ]`, drops entries with the same name in any letter case, and appends the new entry with the current time.
  - GET returns the list sorted newest first, at most twenty entries.
- **Cookie helpers** (`_cookies.js`): `parseCookies`, `makeCookie` and `clearCookie`, modelled as pure string functions.

JavaScript behaviour the handlers depend on is written out:
- `trim` with the JavaScript white-space set;
- ASCII `toLowerCase`;
- `indexOf`, `split`, `join`, `filter(Boolean)` and `Object.fromEntries`;
- the `x || d` fallback on numbers, where `0` is falsy;
- property lookup on a plain object, which also finds members inherited from `Object.prototype`.

Three things are parameters rather than computed:
- the clock (`now`);
- the random salt and session id;
- the key derivation function (scrypt), `encodeURIComponent`/`decodeURIComponent` (`enc`/`dec`) and the date formatting of `Expires` (`utc`).

The model follows the code where the two might be expected to differ:
- there is no notion of a superseded session;
- `sync` accepts an expired session that is still stored;
- a piece of a `Cookie` header without `=` is read as the code reads it.

## Model

| member | source | states |
|---|---|---|
| JsValues.OrElse | netlify/functions/profile.js:38-39 | `Number(x)` with fallback `d`: a missing value or 0 gives the default, any other number is kept |
| JsValues.GetProperty | netlify/functions/auth.js:45 | `obj[key]` on a parsed object: an own entry, else an inherited `Object.prototype` member, else `undefined`, each case exactly |
| JsText.Trim | netlify/functions/auth.js:121 | the result is the input with exactly its leading and trailing JavaScript white space removed, and starts and ends with a non-space |
| JsText.TrimIdempotent | netlify/functions/usernames.js:31 | trimming twice is trimming once |
| JsText.TrimIgnoresOuterSpace | netlify/functions/auth.js:121 | white space added around a string does not change its trim |
| JsText.ToLowerCase | netlify/functions/auth.js:123 | same length, each character lower-cased on its own |
| JsText.TrimToLowerCaseCommute | netlify/functions/auth.js:123 | lower-casing and trimming commute |
| JsText.StripNonNameChars | netlify/functions/auth.js:121 | keeps only characters of `[A-Za-z0-9_\-. ]`, keeps every such character, and leaves a string made only of them unchanged |
| JsText.StripNonNameCharsOne | netlify/functions/auth.js:121 | one character is kept exactly when it is in the class; with the next row, the result is the in-order filter of the input |
| JsText.StripNonNameCharsAppend | netlify/functions/usernames.js:36 | the global replace works character by character, so it distributes over concatenation |
| JsText.IndexOf | netlify/functions/_cookies.js:6 | -1 exactly when the character is absent, otherwise the position of its first occurrence |
| JsText.Split | netlify/functions/_cookies.js:5 | at least one part, and no part contains the separator |
| JsText.JoinSplit | netlify/functions/_cookies.js:5 | joining the parts of a split with the separator gives back the string |
| JsText.SplitJoin | netlify/functions/_cookies.js:5 | splitting a join of separator-free parts gives back the parts |
| JsText.DropEmpty | netlify/functions/_cookies.js:5 | `filter(Boolean)` on strings: no empty part is left |
| JsText.DropEmptyKeeps | netlify/functions/_cookies.js:5 | every non-empty part is kept |
| JsText.DropEmptyAppend | netlify/functions/_cookies.js:5 | the filter distributes over concatenation, so order is kept |
| JsText.FromEntries | netlify/functions/_cookies.js:4 | a key is present exactly when some pair has it, and its value comes from the last such pair |
| JsText.FromEntriesLast | netlify/functions/_cookies.js:4-8 | the pair that no later pair overrides gives the value |
| Cookies.CookieHeader | netlify/functions/_cookies.js:3 | the header comes from `cookie`, else `Cookie`, else is empty, and an empty `cookie` falls through |
| Cookies.Pieces | netlify/functions/_cookies.js:5 | every piece is non-empty, trimmed and free of `;` |
| Cookies.PiecesSingle | netlify/functions/_cookies.js:5 | a header without `;` is one piece, its trimmed text, kept exactly when that is non-empty |
| Cookies.PiecesCons | netlify/functions/_cookies.js:5 | a header is cut at each `;`, and its first piece is the trimmed text before the first `;` |
| Cookies.ParseCookies | netlify/functions/_cookies.js:2-10 | a name is in the map exactly when some piece has it, with the value of the last such piece |
| Cookies.LaterPieceWins | netlify/functions/_cookies.js:4-8 | of several pieces with one name, the last decides the value |
| Cookies.Entry | netlify/functions/_cookies.js:6-7 | a piece becomes the decoded text before its first `=` and the decoded text after it; what that gives with and without `=` is stated by the next two rows |
| Cookies.EntryWithEquals | netlify/functions/_cookies.js:6-7 | a piece is cut at its first `=` into name and value |
| Cookies.EntryWithoutEquals | netlify/functions/_cookies.js:6-7 | a piece without `=` reads as the piece minus its last character, with the whole piece as value |
| Cookies.Segments | netlify/functions/_cookies.js:13-21 | the pair, `Path=`, `Max-Age=` and `SameSite=` always come first, in that order; at most three more segments follow, and none is empty |
| Cookies.HttpOnlySegment | netlify/functions/_cookies.js:18-21 | `HttpOnly` is a segment exactly when the option is on |
| Cookies.SecureSegment | netlify/functions/_cookies.js:19-21 | `Secure` is a segment exactly when the option is on |
| Cookies.DomainSegment | netlify/functions/_cookies.js:20-21 | the last segment is `Domain=` exactly when a domain is given |
| Cookies.MakeCookie | netlify/functions/_cookies.js:12-22 | the non-empty segments joined by `"; "`; its exact text is stated by Cookies.MakeCookieShape |
| Cookies.MakeCookieShape | netlify/functions/_cookies.js:12-22 | the header is the pair and the three attributes joined by `"; "`, followed by each flag that is on |
| Cookies.MakeCookieDefaults | netlify/functions/_cookies.js:12-22 | without options the header is `n=v; Path=/; Max-Age=2592000; SameSite=Lax; HttpOnly; Secure` |
| Cookies.DefaultAttrs | netlify/functions/_cookies.js:12 | the default attributes are Path `/`, Max-Age 2592000, SameSite `Lax`, HttpOnly and Secure on, and no domain |
| Cookies.MakeCookieReadBack | netlify/functions/_cookies.js:2-22 | a `makeCookie` value sent back as a `Cookie` header reads as its own name and value first, whatever the attributes |
| Cookies.ClearCookie | netlify/functions/_cookies.js:24-27 | the encoded name, an empty value, then `Max-Age=0`, `Path=/` and `SameSite=Lax`; stated by the next two rows |
| Cookies.ClearCookieSplits | netlify/functions/_cookies.js:25-27 | `clearCookie(n)` is exactly `enc(n)=; Max-Age=0; Path=/; SameSite=Lax` |
| Cookies.ClearCookieReadBack | netlify/functions/_cookies.js:25-27 | `clearCookie` read back gives the name an empty value |
| Auth.SanitizeName | netlify/functions/auth.js:120-122 | the sanitised name holds only `[A-Za-z0-9_\-. ]` and is no longer than the input |
| Auth.ToId | netlify/functions/auth.js:123 | an id starts and ends with a non-space and is no longer than the name |
| Auth.ValidName | netlify/functions/auth.js:124 | a non-empty name of 3 to 30 characters |
| Auth.ValidPassword | netlify/functions/auth.js:125 | a non-empty password of 6 to 100 characters |
| Auth.ValidNameLength | netlify/functions/auth.js:124 | `validName` holds exactly for lengths 3 to 30 |
| Auth.ValidPasswordLength | netlify/functions/auth.js:125 | `validPassword` holds exactly for lengths 6 to 100 |
| Auth.ToIdIdempotent | netlify/functions/auth.js:123 | an id is its own id |
| Auth.ToIdIgnoresCaseAndOuterSpace | netlify/functions/auth.js:123 | names differing only in letter case or outer white space have the same id |
| Auth.BlankIdAccepted | netlify/functions/auth.js:120-124 | a name of spaces between two stripped characters passes `validName`, and its id is empty |
| Auth.HashBlankHashAccepted | netlify/functions/auth.js:120-124 | `"#   #"` is sanitised to three spaces, is valid, and has the empty id |
| Auth.LowerCaseWord | netlify/functions/auth.js:120-123 | a lower-case word is its own sanitised name and id |
| Auth.SplitCookieHeader | netlify/functions/auth.js:128 | the `/; */` split has as many parts as the `;` split, no part holds `;`, the first part is the text before the first `;`, and every later part is the matching `;` part with its leading spaces dropped |
| Auth.DropLeadingBlanks | netlify/functions/auth.js:128 | the separator pattern swallows exactly the spaces after a `;` |
| Auth.SessionEntry | netlify/functions/auth.js:129-133 | a piece without `=` maps to itself with an empty value, undecoded; a piece with `=` is stated by the next row |
| Auth.SessionEntryWithEquals | netlify/functions/auth.js:129-133 | a piece with `=` is cut at its first `=`, and both halves are trimmed, then decoded |
| Auth.GetSessionCookie | netlify/functions/auth.js:127-136 | the value of the last `demo_session` pair when that value is non-empty, otherwise none |
| Auth.SessionCookieRead | netlify/functions/auth.js:127-136 | a header of just `demo_session=<e>` gives the decoded value, or none when that is empty |
| Auth.MakeSessionCookie | netlify/functions/auth.js:138-143 | `demo_session=` with the encoded id, `Path=/; HttpOnly; SameSite=Lax`, `; Secure` exactly for `https`, then the expiry; what a browser sends back is stated by Auth.SessionCookieRoundTrip |
| Auth.DeleteCookie | netlify/functions/auth.js:145-149 | `demo_session=` with an empty value, the same attributes, and an expiry in 1970; stated by Auth.DeleteCookieRoundTrip |
| Auth.SessionCookieRoundTrip | netlify/functions/auth.js:138-143 | the cookie that `login` and `session` set comes back as the same session id |
| Auth.DeleteCookieRoundTrip | netlify/functions/auth.js:145-149 | the cookie that clears the session comes back as no session |
| Auth.Status | netlify/functions/auth.js:45-77 | 409 exactly for a taken name, 404 exactly for an unknown user, 401 exactly for a wrong password |
| Auth.NewPlayer | netlify/functions/auth.js:52-63 | the first player document: level 1, XP 0, 100 XP per level, 1 XP per second, all clocks at `now` |
| Auth.EndSession | netlify/functions/auth.js:108-112 | the named session is gone; every other session is kept unchanged; with no cookie nothing changes |
| Auth.EndSessionIdempotent | netlify/functions/auth.js:107-115 | logging out twice is logging out once |
| Auth.TakenAsWrittenIff | netlify/functions/auth.js:45 | the check as written says "taken" for stored ids and for every inherited member name |
| Auth.ConstructorTakenAsWritten | netlify/functions/auth.js:40-45 | `constructor` is a valid name with id `constructor`, not stored, yet taken as written |
| Auth.LoginLookupAsWritten | netlify/functions/auth.js:73-75 | the lookup as written finds exactly the stored accounts; it throws exactly for an unstored id that names an inherited member, and answers "not found" exactly for every other unstored id |
| Auth.ConstructorLoginThrowsAsWritten | netlify/functions/auth.js:69-75 | `constructor` is a valid name with id `constructor`; on an empty store the lookup as written throws instead of answering 404 |
| Auth.SessionAcceptedAsWrittenIff | netlify/functions/auth.js:90-93 | the check as written accepts live stored sessions and every inherited member name |
| Auth.ConstructorSessionAcceptedAsWritten | netlify/functions/auth.js:90-104 | the cookie `demo_session=constructor` is accepted as written with no sessions stored |
| Auth.AuthDemo.constructor | netlify/functions/auth.js:31-37 | an empty store has no accounts, sessions or players |
| Auth.AuthDemo.Register | netlify/functions/auth.js:39-66 | 400 for a bad name or password, 409 exactly for a stored id, each with nothing written; on success exactly one account keyed by the id and its first player document are added, and the password checks against the stored hash |
| Auth.AuthDemo.Login | netlify/functions/auth.js:68-87 | 400, 404 and 401 in the code's order, each with nothing written; success adds exactly one session for the account, expiring seven days from now, and sets its cookie |
| Auth.AuthDemo.CheckSession | netlify/functions/auth.js:89-105 | no or unknown cookie: signed out and nothing changes; expired: exactly that session is deleted and the cookie cleared; live: only that session's expiry moves to seven days from now, and the cookie is renewed |
| Auth.AuthDemo.Resume | netlify/functions/auth.js:91-104 | the same three outcomes, for the session id already read from the cookie; signed in exactly for a stored unexpired session |
| Auth.AuthDemo.Logout | netlify/functions/auth.js:107-115 | always answers with the clearing cookie; the sessions become `EndSession` of the cookie's id; accounts and players are untouched |
| Auth.AuthDemo.Forget | netlify/functions/auth.js:109-112 | the session the id names is deleted if stored; nothing else changes |
| Profile.PerLevel | netlify/functions/profile.js:38 | a missing or zero `perLevel` gives 100, and the result is never 0 |
| Profile.PerSec | netlify/functions/profile.js:39 | a missing or zero `perSec` gives 1, and the result is never 0 |
| Profile.LastAt | netlify/functions/profile.js:42 | a non-zero `lastXpAt`, else a non-zero `createdAt`, else `now` |
| Profile.ElapsedSec | netlify/functions/profile.js:42-43 | the whole seconds since the last accrual, 0 when the clock went back, and positive exactly when at least 1000 ms have passed |
| Profile.StepsFrom | netlify/functions/profile.js:48-53 | the loop never runs more than 100000 rounds |
| Profile.Bump | netlify/functions/profile.js:50 | a level-up adds one to the stored level, a missing or zero level counting as 1 |
| Profile.Drain | netlify/functions/profile.js:48-53 | running the loop to its end takes as many rounds as `StepsFrom` counts |
| Profile.StepsFromClosedForm | netlify/functions/profile.js:49-53 | with a positive `perLevel` the loop runs `min(100000, xp div perLevel)` rounds; otherwise 0 rounds or the whole cap |
| Profile.DrainClosedForm | netlify/functions/profile.js:49-52 | after `n` rounds the XP has lost `n * perLevel` and the level has gone up `n` times |
| Profile.StepsDivMod | netlify/functions/profile.js:49-53 | below the cap the rounds are `xp div perLevel` and the XP left is `xp mod perLevel` |
| Profile.StepsShortOfCap | netlify/functions/profile.js:49-53 | when the loop stops before the cap, less than one level's XP is left, and never a negative amount from non-negative XP |
| Profile.CapLeavesLevelsUnspent | netlify/functions/profile.js:49 | XP worth more than 100000 levels stops at the cap with a whole level or more unspent |
| Profile.LevelAfterClosedForm | netlify/functions/profile.js:50 | `n` level-ups from a non-negative level add exactly `n` |
| Profile.LevelAfterMonotone | netlify/functions/profile.js:50 | the effective level never goes down |
| Profile.Accrued | netlify/functions/profile.js:44-54 | unchanged when no whole second has passed; otherwise `lastXpAt` and `updatedAt` become `now` and XP is set; the account, name, creation time and rates never change |
| Profile.NoTimeNoChange | netlify/functions/profile.js:43-44 | less than a second since the last accrual, or a clock that went back, leaves the document unchanged |
| Profile.AccrualMovesClock | netlify/functions/profile.js:44-54 | when time has passed, `lastXpAt` and `updatedAt` become `now`, `now` is later than the previous accrual, and only XP, level and the two clocks change |
| Profile.AccrualKeepsLevel | netlify/functions/profile.js:44-53 | a sync never lowers the effective level |
| Profile.AccrualDivMod | netlify/functions/profile.js:45-53 | below the cap the level rises by `(xp + d * perSec) div perLevel` and the XP becomes `(xp + d * perSec) mod perLevel` |
| Profile.AccrualShortOfCap | netlify/functions/profile.js:48-53 | when the loop stops before the cap, less than one level's XP remains |
| Profile.AccrualIdempotent | netlify/functions/profile.js:42-46 | a second sync at the same moment changes nothing |
| Profile.TwoHundredFiftySeconds | netlify/functions/profile.js:37-56 | a new player synced 250 s after creation reaches level 3 with 50 XP |
| Profile.PlayerDoc.constructor | netlify/functions/profile.js:34 | the parsed document holds the stored fields |
| Profile.PlayerDoc.LevelUps | netlify/functions/profile.js:48-53 | the loop leaves XP and level as `Drain` of the values it started from, and changes no other field |
| Profile.PlayerDoc.Accrue | netlify/functions/profile.js:37-56 | the loop leaves the document equal to `Accrued` of the old one, and reports a write exactly when a whole second has passed |
| Profile.SessionOf | netlify/functions/profile.js:28-29 | the session is found exactly when the cookie's id is a stored key |
| Profile.SyncOutcome | netlify/functions/profile.js:28-66 | 401 exactly when the cookie names no stored session; the set of player documents never changes |
| Profile.SyncGate | netlify/functions/profile.js:28-56 | 401 exactly when the cookie names no stored session, expired or not; 404 exactly when the account has no player document; only that document can change, to its accrued form, and only when time has passed |
| Profile.GateUidAsWritten | netlify/functions/profile.js:28-32 | the gate as written passes for stored ids and for every inherited member name |
| Profile.ConstructorReachesUndefinedAsWritten | netlify/functions/profile.js:22-33 | the cookie `demo_session=constructor` reaches the document of account `undefined` as written; the model answers 401; `undefined` is a valid name |
| Profile.Sync | netlify/functions/profile.js:22-66 | the reply and the new player documents are those of `SyncOutcome`; accounts and sessions are untouched |
| Profile.SyncSession | netlify/functions/profile.js:28-66 | the same, for the session id already read from the cookie |
| Usernames.Insert | netlify/functions/usernames.js:23 | inserting keeps every entry and adds one |
| Usernames.SortNewestFirst | netlify/functions/usernames.js:23 | the sort is a permutation of the list |
| Usernames.SortIsNewestFirst | netlify/functions/usernames.js:23 | the sorted list is ordered by `ts` descending, with a missing `ts` counted as 0 |
| Usernames.SortIsStable | netlify/functions/usernames.js:23 | entries with the same stamp keep their relative order |
| Usernames.DropSameName | netlify/functions/usernames.js:41-42 | an entry is kept exactly when it is falsy or its lower-cased name differs |
| Usernames.DropSameNameAppend | netlify/functions/usernames.js:42 | the filter works entry by entry, so kept entries stay in order |
| Usernames.Stored | netlify/functions/usernames.js:31-36 | the stored name holds only `[A-Za-z0-9_\-. ]` and is no longer than the checked name |
| Usernames.Posted | netlify/functions/usernames.js:31-43 | POST is refused exactly when the trimmed name is shorter than 2 or longer than 30 characters |
| Usernames.PostedEntryIsLastAndUnique | netlify/functions/usernames.js:41-43 | after POST the new entry is last, holds the stripped name and the time, and no other entry has its name in any case |
| Usernames.PostedKeepsOthers | netlify/functions/usernames.js:42-43 | every entry with another name is kept, in its original order, before the new one |
| Usernames.PostedKeepsUniqueNames | netlify/functions/usernames.js:41-43 | a list whose names are unique up to case stays so after POST |
| Usernames.ShortNameStored | netlify/functions/usernames.js:31-36 | the check comes before the strip, so `a#` passes and is stored as the one-letter `a` |
| Usernames.Directory.constructor | netlify/functions/usernames.js:21 | a missing list is empty |
| Usernames.Directory.Get | netlify/functions/usernames.js:19-26 | as many entries as the smaller of 20 and the list length, a prefix of the sorted list, newest first, a sub-multiset of the list; nothing is written |
| Usernames.Directory.Post | netlify/functions/usernames.js:28-46 | a refused name leaves the list as it was; otherwise the list becomes `Posted` of the old one |

## Left out

- HTTP framing, CORS headers, method and action dispatch, `OPTIONS`, 405 and "Unknown action" answers: transport plumbing.
- The blob store's `get` and `set`: the tables are fields of `Auth.AuthDemo` and `Usernames.Directory`; reads and writes happen in one step with no concurrent writer, so read-modify-write races are not modelled.
- `JSON.parse`, `JSON.stringify` and `safeJson`: stored documents are assumed to be well-formed records. The 500 "Invalid player data" answer of `sync` depends on parsing alone and is not modelled.
- `scryptSync`, `randomBytes` and `timingSafeEqual` are foreign crypto calls. The hash is the function parameter `kdf`, the salt and session id are parameters, and the comparison is equality. A session id that is already stored is overwritten, as the code would do.
- `encodeURIComponent`, `decodeURIComponent` (parameters `enc` and `dec`) and `toUTCString` (parameter `utc`) are left abstract. A `decodeURIComponent` that throws on malformed input is not modelled.
- `toLowerCase` is modelled on ASCII letters only, and lengths count characters rather than UTF-16 code units. Account names are stripped to ASCII before they are checked or lower-cased (auth.js:40-42, 69-71), so they are exact. The username list is not: a posted name with characters outside ASCII is trimmed and length-checked before stripping (usernames.js:31-32), and stored entries' names are lower-cased when compared (usernames.js:41-42). A password or a posted username with characters outside the Basic Multilingual Plane is counted one per character where the code counts two UTF-16 units (auth.js:125, usernames.js:32), so a value near a bound can pass in the model and fail in the code.
- Numbers are integers. `IntToString` writes every digit, where JavaScript's `${n}` switches to exponent notation from 1e21 on, so a `Max-Age` of that size differs in form. Non-integer values, `NaN` read from a stored string, and number coercion of non-numeric JSON values are not modelled; a missing or non-numeric field is `None`.
- Non-string request fields (a numeric `username`, for which `trim` throws) are not modelled: the request fields are strings, and a missing one is the empty string.
- `_sessions.js` is not part of this model. It is a thin wrapper over the store that none of the modelled handlers calls.
- Usernames.Directory.Get: `list.sort` sorts the freshly parsed array in place; the model sorts a value with a stable insertion sort, so in-place update and aliasing are not captured. Nothing outside the handler sees that array.
- Auth.AuthDemo.Login, Auth.AuthDemo.CheckSession, Profile.Sync: the answers as written for a cookie naming an `Object.prototype` member are stated only through the as-written members of the Findings below; the main model answers as for an unknown account or session (404 for `login`, where the code throws and answers 500).

## Findings

| source | as written | input that shows it | evidently intended | confidence | as-written member | corrected member |
|---|---|---|---|---|---|---|
| netlify/functions/auth.js:45 | `users[id]` on a plain object also finds members inherited from `Object.prototype`, so the id counts as taken | `register` with username `constructor` (or `__proto__`) and a valid password, on an empty store, answers 409 "Username already exists" | only stored accounts are taken, so the account is created | high; not executed | Auth.ConstructorTakenAsWritten | Auth.AuthDemo.Register |
| netlify/functions/auth.js:73-75 | `users[id]` finds an inherited member for an unstored id such as `constructor`; it is truthy, so the 404 check passes, and `Buffer.from(u.salt, "hex")` is called with `undefined` and throws | `login` with username `constructor` (or `__proto__`) and any valid password, on an empty store, fails with a 500 error instead of an answer | 404 "User not found" for an id that is not stored | high; not executed | Auth.ConstructorLoginThrowsAsWritten | Auth.AuthDemo.Login |
| netlify/functions/auth.js:91-104 | `sessions[sid]` is truthy for an inherited member; its `expiresAt` is `undefined`, and `undefined <= now` is false, so the session counts as live | a `session` request with `Cookie: demo_session=constructor` and no stored sessions answers `ok: true` and sets a cookie | only a stored, unexpired session signs in | high; not executed | Auth.ConstructorSessionAcceptedAsWritten | Auth.AuthDemo.Resume |
| netlify/functions/profile.js:28-32 | the gate `sessions[sid]` passes for an inherited member, whose `uid` is `undefined`, so the document `players/undefined.json` is read | a `sync` request with `Cookie: demo_session=constructor` once someone has registered the valid name `undefined` accrues and returns that account's player data | 401 "Unauthorized" for a session id that is not stored | high; not executed | Profile.ConstructorReachesUndefinedAsWritten | Profile.SyncGate |
