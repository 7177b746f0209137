/** The account and session handler of the demo: the `users` and
    `sessions` tables and the player documents of the `auth-demo` store,
    the name helpers, the session cookie reader and writer, and the four
    actions `register`, `login`, `session` and `logout`.

    Randomness (the salt and the session id), the password hash (scrypt),
    the clock, `encodeURIComponent`/`decodeURIComponent` and the date
    formatting of `Expires=` are parameters. */
module Auth {
  import opened JsValues
  import opened JsText
  import Cookies

  // ---------------------------------------------------------------------
  // Records of the `auth-demo` store
  // ---------------------------------------------------------------------

  /** An entry of `users.json`, keyed by the account id. */
  datatype User = User(name: string, salt: string, hash: string, createdAt: int)

  /** An entry of `sessions.json`, keyed by the session id. */
  datatype Session = Session(sid: string, uid: string, name: string, createdAt: int, expiresAt: int)

  /** A document `players/<uid>.json`. The numeric fields are read back from
      JSON, so each may be missing (`None`). */
  datatype Player = Player(
    uid: string,
    name: string,
    level: Option<int>,
    xp: Option<int>,
    perLevel: Option<int>,
    perSec: Option<int>,
    createdAt: Option<int>,
    lastXpAt: Option<int>,
    updatedAt: Option<int>)

  /** Seven days, in milliseconds. */
  const SessionMaxAgeMs := 1000 * 60 * 60 * 24 * 7

  const SessionCookieName := "demo_session"

  // ---------------------------------------------------------------------
  // Name helpers
  // ---------------------------------------------------------------------

  /** `sanitizeName`: trim, then drop every character outside
      `[A-Za-z0-9_\-. ]`. */
  function SanitizeName(s: string): (name: string)
    ensures |name| <= |s|
    ensures forall i :: 0 <= i < |name| ==> IsNameChar(name[i])
  {
    StripNonNameChars(Trim(s))
  }

  /** `toId`: lower-case, then trim. */
  function ToId(name: string): (id: string)
    ensures |id| <= |name|
    ensures Trimmed(id)
  {
    Trim(ToLowerCase(name))
  }

  /** `validName`: a non-empty name of 3 to 30 characters. */
  predicate ValidName(name: string) {
    name != "" && 3 <= |name| <= 30
  }

  /** `validPassword`: a non-empty password of 6 to 100 characters. */
  predicate ValidPassword(pw: string) {
    pw != "" && 6 <= |pw| <= 100
  }

  lemma ValidNameLength(name: string)
    ensures ValidName(name) <==> 3 <= |name| <= 30
  {
  }

  lemma ValidPasswordLength(pw: string)
    ensures ValidPassword(pw) <==> 6 <= |pw| <= 100
  {
  }

  /** An id is its own id. */
  lemma {:induction false} ToIdIdempotent(name: string)
    ensures ToId(ToId(name)) == ToId(name)
  {
    var l := ToLowerCase(name);
    TrimToLowerCaseCommute(l);
    ToLowerCaseIdempotent(name);
    TrimIdempotent(l);
  }

  /** Names that differ only in letter case or in outer white space give
      the same id. */
  lemma {:induction false} ToIdIgnoresCaseAndOuterSpace(a: string, b: string, w1: string, w2: string)
    requires ToLowerCase(a) == ToLowerCase(b)
    requires AllSpace(w1) && AllSpace(w2)
    ensures ToId(w1 + a + w2) == ToId(b)
  {
    ToLowerCaseAppend(w1 + a, w2);
    ToLowerCaseAppend(w1, a);
    ToLowerCaseKeepsSpace(w1);
    ToLowerCaseKeepsSpace(w2);
    TrimIgnoresOuterSpace(w1, ToLowerCase(a), w2);
  }

  /** Stripping happens after trimming, so the white space inside a name
      can end up at its edges: `"#   #"`, or any run of 3 to 30 spaces
      between two characters outside the class, is a valid name made only
      of spaces, and its id is the empty string. */
  lemma {:induction false} BlankIdAccepted(c: char, w: string, d: char)
    requires !IsNameChar(c) && !IsNameChar(d) && !IsJsSpace(c) && !IsJsSpace(d)
    requires AllSpace(w) && (forall i :: 0 <= i < |w| ==> w[i] == ' ') && 3 <= |w| <= 30
    ensures SanitizeName([c] + w + [d]) == w
    ensures ValidName(SanitizeName([c] + w + [d]))
    ensures ToId(SanitizeName([c] + w + [d])) == ""
  {
    var s := [c] + w + [d];
    EdgesKeepTrim(c, w, d);
    StripEdges(c, w, d);
    assert SanitizeName(s) == StripNonNameChars(Trim(s));
    BlankId(w);
  }

  lemma {:induction false} EdgesKeepTrim(c: char, w: string, d: char)
    requires !IsJsSpace(c) && !IsJsSpace(d)
    ensures Trim([c] + w + [d]) == [c] + w + [d]
  {
    var s := [c] + w + [d];
    assert s[0] == c && s[|s| - 1] == d;
    TrimOf([], s, []);
    assert [] + s + [] == s;
  }

  lemma {:induction false} StripEdges(c: char, w: string, d: char)
    requires !IsNameChar(c) && !IsNameChar(d)
    requires forall i :: 0 <= i < |w| ==> w[i] == ' '
    ensures StripNonNameChars([c] + w + [d]) == w
  {
    StripNonNameCharsAppend([c] + w, [d]);
    StripNonNameCharsAppend([c], w);
    assert StripNonNameChars([c]) == [] by { assert [c][1..] == []; }
    assert StripNonNameChars([d]) == [] by { assert [d][1..] == []; }
    assert StripNonNameChars(w) == w;
  }

  lemma {:induction false} BlankId(w: string)
    requires AllSpace(w)
    ensures ToId(w) == ""
  {
    ToLowerCaseKeepsSpace(w);
    TrimOf(w, [], []);
    assert w + [] + [] == w;
  }

  /** `"#   #"` in particular. */
  lemma {:induction false} HashBlankHashAccepted()
    ensures SanitizeName("#   #") == "   " && ValidName("   ") && ToId("   ") == ""
  {
    assert "#   #" == ['#'] + "   " + ['#'];
    BlankIdAccepted('#', "   ", '#');
  }

  // ---------------------------------------------------------------------
  // getSessionCookie
  // ---------------------------------------------------------------------

  /** The first position at or after `i` that does not hold U+0020. */
  function SkipBlanks(s: string, i: nat): (k: nat)
    requires i <= |s|
    ensures i <= k <= |s|
    ensures forall j :: i <= j < k ==> s[j] == ' '
    ensures k == |s| || s[k] != ' '
    decreases |s| - i
  {
    if i < |s| && s[i] == ' ' then SkipBlanks(s, i + 1) else i
  }

  /** The spaces the separator pattern swallows after a `;` (U+0020 only):
      what is left is a suffix of the piece that does not start with one. */
  function DropLeadingBlanks(s: string): (r: string)
    ensures |r| <= |s| && r == s[|s| - |r|..]
    ensures r == [] || r[0] != ' '
    ensures forall i :: 0 <= i < |s| - |r| ==> s[i] == ' '
  {
    s[SkipBlanks(s, 0)..]
  }

  /** A suffix holds no character the whole string lacks. */
  lemma {:induction false} SuffixChars(s: string, k: nat, c: char)
    requires k <= |s| && c !in s
    ensures c !in s[k..]
  {
  }

  function DropLeadingBlanksEach(parts: seq<string>): (r: seq<string>)
    ensures |r| == |parts|
    ensures forall i :: 0 <= i < |parts| ==> r[i] == DropLeadingBlanks(parts[i])
  {
    if parts == [] then [] else [DropLeadingBlanks(parts[0])] + DropLeadingBlanksEach(parts[1..])
  }

  /** `header.split` on the pattern "a `;` and any number of spaces": cut
      at every `;`, and the spaces right after each `;` go with the
      separator. */
  function SplitCookieHeader(header: string): (parts: seq<string>)
    ensures |parts| == |Split(header, ';')| >= 1
    ensures parts[0] == Split(header, ';')[0]
    ensures forall i :: 0 <= i < |parts| ==> ';' !in parts[i]
    ensures forall i :: 1 <= i < |parts| ==> parts[i] == DropLeadingBlanks(Split(header, ';')[i])
  {
    var ps := Split(header, ';');
    var r := [ps[0]] + DropLeadingBlanksEach(ps[1..]);
    forall i | 1 <= i < |r| ensures ';' !in r[i] {
      var p := ps[i];
      assert r[i] == DropLeadingBlanks(p);
      SuffixChars(p, |p| - |r[i]|, ';');
    }
    r
  }

  /** One piece of the header as `getSessionCookie` reads it: without an
      `=`, the whole piece is the name and the value is empty (and neither
      is decoded); otherwise both halves are trimmed, then decoded. */
  function SessionEntry(dec: string -> string, kv: string): (e: (string, string))
    ensures '=' !in kv ==> e == (kv, "")
  {
    var idx := IndexOf(kv, '=');
    if idx == -1 then (kv, "") else (dec(Trim(kv[..idx])), dec(Trim(kv[idx + 1..])))
  }

  /** A piece with an `=` is cut at its first `=`, and both halves are
      trimmed, then decoded. */
  lemma {:induction false} SessionEntryWithEquals(dec: string -> string, kv: string, i: nat)
    requires i < |kv| && kv[i] == '=' && '=' !in kv[..i]
    ensures SessionEntry(dec, kv) == (dec(Trim(kv[..i])), dec(Trim(kv[i + 1..])))
  {
    IndexOfIs(kv, '=', i);
  }

  function SessionEntries(dec: string -> string, pieces: seq<string>): (r: seq<(string, string)>)
    ensures |r| == |pieces|
    ensures forall i :: 0 <= i < |pieces| ==> r[i] == SessionEntry(dec, pieces[i])
  {
    if pieces == [] then [] else [SessionEntry(dec, pieces[0])] + SessionEntries(dec, pieces[1..])
  }

  /** The `[name, value]` pairs of a `Cookie` header, in order. */
  function SessionPairs(dec: string -> string, header: string): seq<(string, string)>
  {
    SessionEntries(dec, DropEmpty(SplitCookieHeader(header)))
  }

  /** `getSessionCookie(header).sid`: the value of the last `demo_session`
      pair, or `None` when there is none or its value is empty. */
  function GetSessionCookie(dec: string -> string, header: string): (sid: Option<string>)
    ensures var ps := SessionPairs(dec, header);
      var i := LastWith(ps, SessionCookieName);
      (sid.Some? <==> i < |ps| && ps[i].1 != "")
      && (sid.Some? ==> sid.value == ps[i].1)
    ensures sid.Some? ==> sid.value != ""
  {
    var m := FromEntries(SessionPairs(dec, header));
    if SessionCookieName in m && m[SessionCookieName] != "" then Some(m[SessionCookieName]) else None
  }

  /** A header holding one encoded `name=value` pair reads as that pair,
      decoded. */
  lemma {:induction false} SinglePairRead(dec: string -> string, n: string, e: string)
    requires Cookies.UriSafe(n) && n != "" && Cookies.UriSafe(e)
    ensures SessionPairs(dec, n + "=" + e) == [(dec(n), dec(e))]
  {
    var h := n + "=" + e;
    Cookies.UriSafeFacts(n);
    Cookies.UriSafeFacts(e);
    Cookies.PairSplits(n, e);
    SinglePiece(h);
    assert SessionEntries(dec, [h]) == [SessionEntry(dec, h)];
    SinglePairEntry(dec, n, e);
  }

  /** A non-empty header without `;` is one piece. */
  lemma {:induction false} SinglePiece(h: string)
    requires h != "" && ';' !in h
    ensures DropEmpty(SplitCookieHeader(h)) == [h]
  {
    assert IndexOf(h, ';') == -1;
    assert Split(h, ';') == [h];
    assert SplitCookieHeader(h) == [h];
    assert DropEmpty([h]) == [h] by { assert [h][1..] == []; }
  }

  lemma {:induction false} SinglePairEntry(dec: string -> string, n: string, e: string)
    requires n != [] ==> !IsJsSpace(n[0]) && !IsJsSpace(n[|n| - 1])
    requires e != [] ==> !IsJsSpace(e[0]) && !IsJsSpace(e[|e| - 1])
    requires '=' !in n
    ensures SessionEntry(dec, n + "=" + e) == (dec(n), dec(e))
  {
    var h := n + "=" + e;
    assert h[..|n|] == n && h[|n|] == '=' && h[|n| + 1..] == e;
    IndexOfIs(h, '=', |n|);
    TrimOf([], n, []);
    assert [] + n + [] == n;
    TrimOf([], e, []);
    assert [] + e + [] == e;
  }

  lemma {:induction false} SessionCookieNameIsUriSafe()
    ensures Cookies.UriSafe(SessionCookieName)
  {
    forall i | 0 <= i < |SessionCookieName| ensures Cookies.IsUriChar(SessionCookieName[i]) {
    }
  }

  /** A `Cookie` header holding just `demo_session=<e>` gives the decoded
      session id, or `None` when it decodes to nothing. */
  lemma {:induction false} SessionCookieRead(dec: string -> string, e: string)
    requires Cookies.UriSafe(e)
    requires dec(SessionCookieName) == SessionCookieName
    ensures GetSessionCookie(dec, SessionCookieName + "=" + e) == if dec(e) == "" then None else Some(dec(e))
  {
    SessionCookieNameIsUriSafe();
    SinglePairRead(dec, SessionCookieName, e);
    var ps := SessionPairs(dec, SessionCookieName + "=" + e);
    assert ps[0].0 == SessionCookieName;
    assert LastWith(ps, SessionCookieName) == 0;
  }

  // ---------------------------------------------------------------------
  // makeSessionCookie and deleteCookie
  // ---------------------------------------------------------------------

  /** `; Secure` when `x-forwarded-proto`, lower-cased, is `https`. */
  function SecureAttr(proto: string): string {
    if ToLowerCase(proto) == "https" then "; Secure" else ""
  }

  /** `makeSessionCookie(sid, expiresAt, req)`; `utc` stands for
      `new Date(ms).toUTCString()`. */
  function MakeSessionCookie(enc: string -> string, sid: string, expiresAt: int, proto: string,
                             utc: int -> string): string
  {
    SessionCookieName + "=" + enc(sid) + "; Path=/; HttpOnly; SameSite=Lax" + SecureAttr(proto)
    + "; Expires=" + utc(expiresAt)
  }

  /** `deleteCookie(req)`: an empty session cookie that expired in 1970. */
  function DeleteCookie(proto: string): string
  {
    SessionCookieName + "=" + "; Path=/; HttpOnly; SameSite=Lax" + SecureAttr(proto)
    + "; Expires=Thu, 01 Jan 1970 00:00:00 GMT"
  }

  /** The `name=value` part of a `Set-Cookie` value, which is what a
      browser keeps and sends back (section 5.2 of RFC 6265): everything
      before the first `;`. */
  function StoredPair(setCookie: string): (p: string)
    ensures ';' !in p
  {
    if ';' in setCookie then setCookie[..IndexOf(setCookie, ';')] else setCookie
  }

  lemma {:induction false} StoredPairOf(p: string, rest: string)
    requires ';' !in p
    ensures StoredPair(p + [';'] + rest) == p
  {
    var s := p + [';'] + rest;
    assert s[|p|] == ';' && s[..|p|] == p;
    IndexOfIs(s, ';', |p|);
  }

  lemma {:induction false} SessionCookieSplits(enc: string -> string, sid: string, expiresAt: int, proto: string,
                                               utc: int -> string)
    returns (tail: string)
    ensures MakeSessionCookie(enc, sid, expiresAt, proto, utc) == SessionCookieName + "=" + enc(sid) + [';'] + tail
  {
    var attrs := "; Path=/; HttpOnly; SameSite=Lax";
    assert attrs == [';'] + attrs[1..];
    tail := attrs[1..] + SecureAttr(proto) + "; Expires=" + utc(expiresAt);
  }

  lemma {:induction false} DeleteCookieSplits(proto: string) returns (tail: string)
    ensures DeleteCookie(proto) == SessionCookieName + "=" + "" + [';'] + tail
  {
    var attrs := "; Path=/; HttpOnly; SameSite=Lax";
    assert attrs == [';'] + attrs[1..];
    tail := attrs[1..] + SecureAttr(proto) + "; Expires=Thu, 01 Jan 1970 00:00:00 GMT";
  }

  /** The cookie `login` and `session` set comes back as the same session
      id, whatever its expiry and the protocol. */
  lemma {:induction false} SessionCookieRoundTrip(enc: string -> string, dec: string -> string, sid: string,
                                                  expiresAt: int, proto: string, utc: int -> string)
    requires Cookies.UriSafe(enc(sid)) && dec(enc(sid)) == sid && sid != ""
    requires dec(SessionCookieName) == SessionCookieName
    ensures GetSessionCookie(dec, StoredPair(MakeSessionCookie(enc, sid, expiresAt, proto, utc))) == Some(sid)
  {
    var tail := SessionCookieSplits(enc, sid, expiresAt, proto, utc);
    SessionCookieNameIsUriSafe();
    Cookies.EncodedPair(dec, SessionCookieName, enc(sid));
    StoredPairOf(SessionCookieName + "=" + enc(sid), tail);
    SessionCookieRead(dec, enc(sid));
  }

  /** The cookie `session` and `logout` set to sign out reads back as no
      session at all. */
  lemma {:induction false} DeleteCookieRoundTrip(dec: string -> string, proto: string)
    requires dec("") == "" && dec(SessionCookieName) == SessionCookieName
    ensures GetSessionCookie(dec, StoredPair(DeleteCookie(proto))) == None
  {
    var tail := DeleteCookieSplits(proto);
    SessionCookieNameIsUriSafe();
    Cookies.EncodedPair(dec, SessionCookieName, "");
    StoredPairOf(SessionCookieName + "=" + "", tail);
    SessionCookieRead(dec, "");
  }

  // ---------------------------------------------------------------------
  // The four actions
  // ---------------------------------------------------------------------

  /** Why an action was refused. */
  datatype Failure = InvalidName | InvalidPassword | UsernameTaken
                   | InvalidCredentials | UserNotFound | WrongPassword

  /** The HTTP status of a refusal. */
  function Status(f: Failure): (code: int)
    ensures code == 409 <==> f == UsernameTaken
    ensures code == 404 <==> f == UserNotFound
    ensures code == 401 <==> f == WrongPassword
  {
    match f
    case InvalidName => 400
    case InvalidPassword => 400
    case UsernameTaken => 409
    case InvalidCredentials => 400
    case UserNotFound => 404
    case WrongPassword => 401
  }

  datatype RegisterReply = Registered | RegisterFailed(why: Failure)
  datatype LoginReply = LoggedIn(name: string, setCookie: string) | LoginFailed(why: Failure)
  /** Both answers of `session` have status 200; signing out may come with
      a cookie that clears the session. */
  datatype SessionReply = SignedIn(name: string, setCookie: string) | SignedOut(clearCookie: Option<string>)

  /** The player document `register` creates: level 1, no XP, 100 XP per
      level, 1 XP per second, every timestamp `now`. */
  function NewPlayer(id: string, name: string, now: int): (p: Player)
    ensures p.uid == id && p.name == name
    ensures p.level == Some(1) && p.xp == Some(0) && p.perLevel == Some(100) && p.perSec == Some(1)
    ensures p.createdAt == Some(now) && p.lastXpAt == Some(now) && p.updatedAt == Some(now)
  {
    Player(id, name, Some(1), Some(0), Some(100), Some(1), Some(now), Some(now), Some(now))
  }

  /** `login`'s password check: the hash of the candidate with the stored
      salt equals the stored hash. */
  predicate PasswordMatches(u: User, password: string, kdf: (string, string) -> string) {
    kdf(password, u.salt) == u.hash
  }

  /** The sessions table after `logout`: the session the cookie names is
      gone, whether or not it was there, and every other session is as it
      was. */
  function EndSession(sessions: map<string, Session>, sid: Option<string>): (r: map<string, Session>)
    ensures sid.Some? ==> sid.value !in r
    ensures sid.None? ==> r == sessions
    ensures forall k :: (sid.None? || k != sid.value) ==> (k in r <==> k in sessions)
    ensures forall k :: k in r ==> k in sessions && r[k] == sessions[k]
  {
    if sid.Some? && sid.value in sessions then sessions - {sid.value} else sessions
  }

  /** Logging out twice is logging out once. */
  lemma {:induction false} EndSessionIdempotent(sessions: map<string, Session>, sid: Option<string>)
    ensures EndSession(EndSession(sessions, sid), sid) == EndSession(sessions, sid)
  {
  }

  // ---------------------------------------------------------------------
  // Lookups as written: `users[id]` and `sessions[sid]` on plain objects
  // ---------------------------------------------------------------------

  /** `if (users[id])` as written: the lookup also finds what every plain
      object inherits from `Object.prototype`. */
  predicate TakenAsWritten(users: map<string, User>, id: string) {
    !GetProperty(users, id).Undefined?
  }

  /** The check as written answers "taken" exactly for stored accounts and
      for the inherited member names. */
  lemma {:induction false} TakenAsWrittenIff(users: map<string, User>, id: string)
    ensures TakenAsWritten(users, id) <==> id in users || id in PrototypeMembers
  {
    var p := GetProperty(users, id);
    assert p.Own? || p.Inherited? || p.Undefined?;
  }

  /** On an empty store `register` refuses the valid name `constructor`
      with 409: its id is `constructor`, which every object inherits. */
  lemma {:induction false} ConstructorTakenAsWritten()
    ensures var name := SanitizeName("constructor");
      var none: map<string, User> := map[];
      && ValidName(name) && ToId(name) == "constructor"
      && ToId(name) !in none && TakenAsWritten(none, ToId(name))
  {
    var s := "constructor";
    assert forall i :: 0 <= i < |s| ==> 'a' <= s[i] <= 'z';
    LowerCaseWord(s);
    TakenAsWrittenIff(map[], s);
  }

  /** A word of lower-case letters is its own sanitized name and id. */
  lemma {:induction false} LowerCaseWord(s: string)
    requires s != [] && forall i :: 0 <= i < |s| ==> 'a' <= s[i] <= 'z'
    ensures SanitizeName(s) == s && ToId(s) == s
  {
    LowerCaseKept(s);
    WordTrimmed(s);
    assert StripNonNameChars(s) == s;
  }

  lemma {:induction false} LowerCaseKept(s: string)
    requires forall i :: 0 <= i < |s| ==> 'a' <= s[i] <= 'z'
    ensures ToLowerCase(s) == s
  {
    forall i | 0 <= i < |s| ensures ToLowerCase(s)[i] == s[i] {
      assert !('A' <= s[i] <= 'Z');
    }
  }

  lemma {:induction false} WordTrimmed(s: string)
    requires s != [] && !IsJsSpace(s[0]) && !IsJsSpace(s[|s| - 1])
    ensures Trim(s) == s
  {
    TrimOf([], s, []);
    assert [] + s + [] == s;
  }

  /** What `login` meets after `const u = users[id]; if (!u) ...` as
      written: a stored account, the 404 answer, or an inherited member
      whose `salt` is `undefined`, so that `Buffer.from(u.salt, "hex")`
      throws and the request fails with 500. */
  datatype LoginLookup = Account(u: User) | NotFound | Throws

  function LoginLookupAsWritten(users: map<string, User>, id: string): (r: LoginLookup)
    ensures r.Account? <==> id in users
    ensures r.Account? ==> r.u == users[id]
    ensures r.Throws? <==> id !in users && id in PrototypeMembers
    ensures r.NotFound? <==> id !in users && id !in PrototypeMembers
  {
    match GetProperty(users, id)
    case Own(u) => Account(u)
    case Inherited(_) => Throws
    case Undefined => NotFound
  }

  /** On an empty store `login` with the valid name `constructor` throws as
      written, where the modelled handler answers 404. */
  lemma {:induction false} ConstructorLoginThrowsAsWritten()
    ensures var name := SanitizeName("constructor");
      var none: map<string, User> := map[];
      && ValidName(name) && ToId(name) !in none
      && LoginLookupAsWritten(none, ToId(name)) == Throws
  {
    var s := "constructor";
    assert forall i :: 0 <= i < |s| ==> 'a' <= s[i] <= 'z';
    LowerCaseWord(s);
  }

  /** `session` as written: a present session id whose lookup yields a
      value that has not expired is accepted. An inherited member has no
      `expiresAt`, and `undefined <= now` is false, so it is accepted. */
  predicate SessionAcceptedAsWritten(sessions: map<string, Session>, sid: Option<string>, now: int) {
    sid.Some? &&
    match GetProperty(sessions, sid.value)
    case Own(s) => !(s.expiresAt <= now)
    case Inherited(_) => true
    case Undefined => false
  }

  /** The check as written accepts the live stored sessions and, beyond
      them, every inherited member name. */
  lemma {:induction false} SessionAcceptedAsWrittenIff(sessions: map<string, Session>, sid: Option<string>, now: int)
    ensures SessionAcceptedAsWritten(sessions, sid, now) <==>
      sid.Some? && ((sid.value in sessions && sessions[sid.value].expiresAt > now)
                    || (sid.value !in sessions && sid.value in PrototypeMembers))
  {
    if sid.Some? {
      var p := GetProperty(sessions, sid.value);
      assert p.Own? || p.Inherited? || p.Undefined?;
    }
  }

  /** A cookie `demo_session=constructor` passes the session check on an
      empty store. */
  lemma {:induction false} ConstructorSessionAcceptedAsWritten(now: int)
    ensures var none: map<string, Session> := map[];
      "constructor" !in none && SessionAcceptedAsWritten(none, Some("constructor"), now)
  {
    SessionAcceptedAsWrittenIff(map[], Some("constructor"), now);
  }

  /** The `auth-demo` blob store: `users.json`, `sessions.json`, and the
      player documents keyed by account id. */
  class AuthDemo {
    var users: map<string, User>
    var sessions: map<string, Session>
    var players: map<string, Player>

    constructor ()
      ensures users == map[] && sessions == map[] && players == map[]
    {
      users := map[];
      sessions := map[];
      players := map[];
    }

    /** `register`: `kdf` is scrypt and `salt` the fresh random salt. */
    method Register(username: string, password: string, now: int, salt: string,
                    kdf: (string, string) -> string)
      returns (r: RegisterReply)
      modifies this
      ensures !ValidName(SanitizeName(username)) ==> r == RegisterFailed(InvalidName)
      ensures ValidName(SanitizeName(username)) && !ValidPassword(password) ==> r == RegisterFailed(InvalidPassword)
      ensures ValidName(SanitizeName(username)) && ValidPassword(password)
              && ToId(SanitizeName(username)) in old(users)
              ==> r == RegisterFailed(UsernameTaken)
      ensures r.Registered? <==> ValidName(SanitizeName(username)) && ValidPassword(password)
                                 && ToId(SanitizeName(username)) !in old(users)
      ensures r.RegisterFailed? ==> unchanged(this)
      ensures r.Registered? ==>
        var name := SanitizeName(username);
        var id := ToId(name);
        && users == old(users)[id := User(name, salt, kdf(password, salt), now)]
        && players == old(players)[id := NewPlayer(id, name, now)]
        && sessions == old(sessions)
        && PasswordMatches(users[id], password, kdf)
    {
      var name := SanitizeName(username);
      if !ValidName(name) {
        return RegisterFailed(InvalidName);
      }
      if !ValidPassword(password) {
        return RegisterFailed(InvalidPassword);
      }
      var id := ToId(name);
      if id in users {
        return RegisterFailed(UsernameTaken);
      }
      var user := User(name, salt, kdf(password, salt), now);
      users := users[id := user];
      players := players[id := NewPlayer(id, name, now)];
      assert users[id] == user;
      r := Registered;
    }

    /** `login`: `sid` is the fresh random session id. */
    method Login(username: string, password: string, now: int, sid: string,
                 kdf: (string, string) -> string, enc: string -> string, proto: string, utc: int -> string)
      returns (r: LoginReply)
      modifies this
      ensures var name := SanitizeName(username);
        var id := ToId(name);
        && (!ValidName(name) || !ValidPassword(password) ==> r == LoginFailed(InvalidCredentials))
        && (ValidName(name) && ValidPassword(password) && id !in old(users) ==> r == LoginFailed(UserNotFound))
        && (ValidName(name) && ValidPassword(password) && id in old(users)
            && !PasswordMatches(old(users)[id], password, kdf)
            ==> r == LoginFailed(WrongPassword))
        && (r.LoggedIn? <==> ValidName(name) && ValidPassword(password) && id in old(users)
                             && PasswordMatches(old(users)[id], password, kdf))
      ensures r.LoginFailed? ==> unchanged(this)
      ensures r.LoggedIn? ==>
        var id := ToId(SanitizeName(username));
        var u := old(users)[id];
        && sessions == old(sessions)[sid := Session(sid, id, u.name, now, now + SessionMaxAgeMs)]
        && r == LoggedIn(u.name, MakeSessionCookie(enc, sid, now + SessionMaxAgeMs, proto, utc))
        && users == old(users) && players == old(players)
    {
      var name := SanitizeName(username);
      if !ValidName(name) || !ValidPassword(password) {
        return LoginFailed(InvalidCredentials);
      }
      var id := ToId(name);
      if id !in users {
        return LoginFailed(UserNotFound);
      }
      var u := users[id];
      if kdf(password, u.salt) != u.hash {
        return LoginFailed(WrongPassword);
      }
      var expiresAt := now + SessionMaxAgeMs;
      sessions := sessions[sid := Session(sid, id, u.name, now, expiresAt)];
      r := LoggedIn(u.name, MakeSessionCookie(enc, sid, expiresAt, proto, utc));
    }

    /** `session`: an unknown id signs out with no change; an expired session
        is deleted; a live one has its expiry moved to seven days from now. */
    method CheckSession(cookieHeader: string, now: int, dec: string -> string,
                        enc: string -> string, proto: string, utc: int -> string)
      returns (r: SessionReply)
      modifies this
      ensures users == old(users) && players == old(players)
      ensures var sid := GetSessionCookie(dec, cookieHeader);
        sid.None? || sid.value !in old(sessions) ==> r == SignedOut(None) && unchanged(this)
      ensures var sid := GetSessionCookie(dec, cookieHeader);
        sid.Some? && sid.value in old(sessions) && old(sessions)[sid.value].expiresAt <= now
        ==> r == SignedOut(Some(DeleteCookie(proto))) && sessions == old(sessions) - {sid.value}
      ensures var sid := GetSessionCookie(dec, cookieHeader);
        sid.Some? && sid.value in old(sessions) && old(sessions)[sid.value].expiresAt > now
        ==> var s := old(sessions)[sid.value];
            && sessions == old(sessions)[sid.value := s.(expiresAt := now + SessionMaxAgeMs)]
            && r == SignedIn(s.name, MakeSessionCookie(enc, s.sid, now + SessionMaxAgeMs, proto, utc))
      ensures r.SignedIn? <==> var sid := GetSessionCookie(dec, cookieHeader);
        sid.Some? && sid.value in old(sessions) && old(sessions)[sid.value].expiresAt > now
    {
      var sid := GetSessionCookie(dec, cookieHeader);
      r := Resume(sid, now, enc, proto, utc);
    }

    /** The part of `session` after the cookie is read. */
    method Resume(sid: Option<string>, now: int, enc: string -> string, proto: string, utc: int -> string)
      returns (r: SessionReply)
      modifies this
      ensures users == old(users) && players == old(players)
      ensures sid.None? || sid.value !in old(sessions) ==> r == SignedOut(None) && unchanged(this)
      ensures sid.Some? && sid.value in old(sessions) && old(sessions)[sid.value].expiresAt <= now
        ==> r == SignedOut(Some(DeleteCookie(proto))) && sessions == old(sessions) - {sid.value}
      ensures sid.Some? && sid.value in old(sessions) && old(sessions)[sid.value].expiresAt > now
        ==> var s := old(sessions)[sid.value];
            && sessions == old(sessions)[sid.value := s.(expiresAt := now + SessionMaxAgeMs)]
            && r == SignedIn(s.name, MakeSessionCookie(enc, s.sid, now + SessionMaxAgeMs, proto, utc))
      ensures r.SignedIn? <==> sid.Some? && sid.value in old(sessions) && old(sessions)[sid.value].expiresAt > now
    {
      if sid.None? || sid.value !in sessions {
        return SignedOut(None);
      }
      var session := sessions[sid.value];
      if session.expiresAt <= now {
        sessions := sessions - {sid.value};
        return SignedOut(Some(DeleteCookie(proto)));
      }
      var slid := session.(expiresAt := now + SessionMaxAgeMs);
      sessions := sessions[sid.value := slid];
      r := SignedIn(slid.name, MakeSessionCookie(enc, slid.sid, slid.expiresAt, proto, utc));
    }

    /** `logout`: removes the session named by the cookie, if there is one,
        and always answers with a cookie that clears it. */
    method Logout(cookieHeader: string, dec: string -> string, proto: string)
      returns (setCookie: string)
      modifies this
      ensures setCookie == DeleteCookie(proto)
      ensures users == old(users) && players == old(players)
      ensures sessions == EndSession(old(sessions), GetSessionCookie(dec, cookieHeader))
    {
      var sid := GetSessionCookie(dec, cookieHeader);
      Forget(sid);
      setCookie := DeleteCookie(proto);
    }

    /** The part of `logout` after the cookie is read. */
    method Forget(sid: Option<string>)
      modifies this
      ensures users == old(users) && players == old(players)
      ensures sessions == EndSession(old(sessions), sid)
    {
      if sid.Some? && sid.value in sessions {
        sessions := sessions - {sid.value};
      }
    }
  }
}
