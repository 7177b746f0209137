/** The cookie helpers: reading a `Cookie` request header into a map and
    writing `Set-Cookie` values (sections 4.1 and 4.2 of RFC 6265, loosely:
    nothing here checks the grammar). `encodeURIComponent` and
    `decodeURIComponent` are passed in as the functions `enc` and `dec`. */
module Cookies {
  import opened JsValues
  import opened JsText

  // ---------------------------------------------------------------------
  // parseCookies
  // ---------------------------------------------------------------------

  /** `headers.cookie || headers.Cookie || ''`. */
  function CookieHeader(headers: map<string, string>): (h: string)
    ensures "cookie" in headers && headers["cookie"] != "" ==> h == headers["cookie"]
    ensures ("cookie" !in headers || headers["cookie"] == "") && "Cookie" in headers ==> h == headers["Cookie"]
    ensures ("cookie" !in headers || headers["cookie"] == "") && "Cookie" !in headers ==> h == ""
  {
    if "cookie" in headers && headers["cookie"] != "" then headers["cookie"]
    else if "Cookie" in headers && headers["Cookie"] != "" then headers["Cookie"]
    else ""
  }

  /** One non-empty piece of the header, cut at its first `=` with
      `v.slice(0, idx)` and `v.slice(idx + 1)`; both halves decoded. */
  function Entry(dec: string -> string, v: string): (string, string)
  {
    var idx := IndexOf(v, '=');
    (dec(SliceTo(v, idx)), dec(SliceFrom(v, idx + 1)))
  }

  function Entries(dec: string -> string, pieces: seq<string>): (r: seq<(string, string)>)
    ensures |r| == |pieces|
    ensures forall i :: 0 <= i < |pieces| ==> r[i] == Entry(dec, pieces[i])
  {
    if pieces == [] then [] else [Entry(dec, pieces[0])] + Entries(dec, pieces[1..])
  }

  /** `cookie.split(';').map(v => v.trim()).filter(Boolean)`. */
  function Pieces(cookie: string): (r: seq<string>)
    ensures forall i :: 0 <= i < |r| ==> r[i] != "" && Trimmed(r[i]) && ';' !in r[i]
  {
    var parts := Split(cookie, ';');
    PiecesClean(parts);
    DropEmpty(TrimEach(parts))
  }

  lemma {:induction false} PiecesClean(parts: seq<string>)
    requires forall i :: 0 <= i < |parts| ==> ';' !in parts[i]
    ensures forall i :: 0 <= i < |DropEmpty(TrimEach(parts))| ==>
      Trimmed(DropEmpty(TrimEach(parts))[i]) && ';' !in DropEmpty(TrimEach(parts))[i]
  {
    if parts != [] {
      PiecesClean(parts[1..]);
      var t := TrimEach(parts);
      assert t[1..] == TrimEach(parts[1..]);
      TrimSubstring(parts[0]);
      assert Trimmed(t[0]) && ';' !in t[0];
      var r := DropEmpty(t);
      if t[0] != "" {
        assert r == [t[0]] + DropEmpty(t[1..]);
      }
    }
  }

  /** A trimmed string is a piece of the original: it has no character the
      original lacks. */
  lemma {:induction false} TrimSubstring(s: string)
    ensures forall c :: c in Trim(s) ==> c in s
  {
    var a, b := TrimFrom(s), TrimTo(s);
    assert forall i :: 0 <= i < |Trim(s)| ==> Trim(s)[i] == s[a + i];
  }

  /** The `[name, value]` pairs `parseCookies` builds, in header order. */
  function CookiePairs(dec: string -> string, cookie: string): seq<(string, string)>
  {
    Entries(dec, Pieces(cookie))
  }

  /** `parseCookies(headers)`. */
  function ParseCookies(dec: string -> string, headers: map<string, string>): (m: map<string, string>)
    ensures var ps := CookiePairs(dec, CookieHeader(headers));
      forall k :: k in m <==> LastWith(ps, k) < |ps|
    ensures var ps := CookiePairs(dec, CookieHeader(headers));
      forall k :: k in m ==> m[k] == ps[LastWith(ps, k)].1
  {
    FromEntries(CookiePairs(dec, CookieHeader(headers)))
  }

  /** A piece with an `=` is cut at the first one. */
  lemma {:induction false} EntryWithEquals(dec: string -> string, v: string, i: nat)
    requires i < |v| && v[i] == '=' && '=' !in v[..i]
    ensures Entry(dec, v) == (dec(v[..i]), dec(v[i + 1..]))
  {
    IndexOfIs(v, '=', i);
  }

  /** A piece without `=`: `indexOf` gives -1, so the name is the piece
      without its last character and the value is the whole piece. */
  lemma {:induction false} EntryWithoutEquals(dec: string -> string, v: string)
    requires v != "" && '=' !in v
    ensures Entry(dec, v) == (dec(v[..|v| - 1]), dec(v))
  {
  }

  /** Among pieces with the same name, the last one decides the value. */
  lemma {:induction false} LaterPieceWins(dec: string -> string, headers: map<string, string>, i: nat, k: string)
    requires var ps := CookiePairs(dec, CookieHeader(headers));
      i < |ps| && ps[i].0 == k && forall j :: i < j < |ps| ==> ps[j].0 != k
    ensures var ps := CookiePairs(dec, CookieHeader(headers));
      k in ParseCookies(dec, headers) && ParseCookies(dec, headers)[k] == ps[i].1
  {
    FromEntriesLast(CookiePairs(dec, CookieHeader(headers)), i, k);
  }

  // ---------------------------------------------------------------------
  // makeCookie and clearCookie
  // ---------------------------------------------------------------------

  /** The options object of `makeCookie`; `None` is a property left out,
      which takes its default. */
  datatype CookieOptions = CookieOptions(
    maxAgeSec: Option<int>,
    path: Option<string>,
    secure: Option<bool>,
    httpOnly: Option<bool>,
    sameSite: Option<string>,
    domain: Option<string>)

  const NoOptions := CookieOptions(None, None, None, None, None, None)

  const DefaultMaxAgeSec := 60 * 60 * 24 * 30

  function Default<T>(o: Option<T>, d: T): T {
    if o.Some? then o.value else d
  }

  function MaxAgeSec(o: CookieOptions): int { Default(o.maxAgeSec, DefaultMaxAgeSec) }
  function Path(o: CookieOptions): string { Default(o.path, "/") }
  function Secure(o: CookieOptions): bool { Default(o.secure, true) }
  function HttpOnly(o: CookieOptions): bool { Default(o.httpOnly, true) }
  function SameSite(o: CookieOptions): string { Default(o.sameSite, "Lax") }
  /** `domain` has no default; an empty string is falsy. */
  function Domain(o: CookieOptions): string { Default(o.domain, "") }

  /** The segments of the header, as `makeCookie`'s template strings write them. */
  function Pair(enc: string -> string, name: string, value: string): string {
    enc(name) + "=" + enc(value)
  }
  function PathAttr(o: CookieOptions): string { "Path=" + Path(o) }
  function MaxAgeAttr(o: CookieOptions): string { "Max-Age=" + IntToString(MaxAgeSec(o)) }
  function SameSiteAttr(o: CookieOptions): string { "SameSite=" + SameSite(o) }
  function DomainAttr(o: CookieOptions): string { "Domain=" + Domain(o) }

  /** The `parts` array of `makeCookie`, before `filter(Boolean)`. */
  function RawParts(enc: string -> string, name: string, value: string, o: CookieOptions): seq<string>
  {
    [Pair(enc, name, value), PathAttr(o), MaxAgeAttr(o), SameSiteAttr(o)]
    + [if HttpOnly(o) then "HttpOnly" else ""]
    + [if Secure(o) then "Secure" else ""]
    + [if Domain(o) != "" then DomainAttr(o) else ""]
  }

  /** The segments `makeCookie` joins: the empty ones are dropped. */
  function CookieSegments(enc: string -> string, name: string, value: string, o: CookieOptions): seq<string>
  {
    DropEmpty(RawParts(enc, name, value, o))
  }

  /** `makeCookie(name, value, options)`. */
  function MakeCookie(enc: string -> string, name: string, value: string, o: CookieOptions): string
  {
    Join(CookieSegments(enc, name, value, o), "; ")
  }

  /** `clearCookie(name)`. */
  function ClearCookie(enc: string -> string, name: string): string
  {
    enc(name) + "=" + "; " + "Max-Age=0" + "; " + "Path=/" + "; " + "SameSite=Lax"
  }

  function Flag(on: bool, segment: string): seq<string> {
    if on then [segment] else []
  }

  /** The segments of `makeCookie`: the name/value pair and the three
      attributes that are always there, then `HttpOnly`, `Secure` and
      `Domain=` exactly when their options are truthy. */
  lemma {:induction false} SegmentsShape(enc: string -> string, name: string, value: string, o: CookieOptions)
    ensures CookieSegments(enc, name, value, o)
      == [Pair(enc, name, value), PathAttr(o), MaxAgeAttr(o), SameSiteAttr(o)]
         + Flag(HttpOnly(o), "HttpOnly") + Flag(Secure(o), "Secure")
         + Flag(Domain(o) != "", DomainAttr(o))
  {
    var s4 := [Pair(enc, name, value), PathAttr(o), MaxAgeAttr(o), SameSiteAttr(o)];
    var h := if HttpOnly(o) then "HttpOnly" else "";
    var c := if Secure(o) then "Secure" else "";
    var d := if Domain(o) != "" then DomainAttr(o) else "";
    assert |s4[0]| >= 1 && |s4[1]| >= 5 && |s4[2]| >= 8 && |s4[3]| >= 9;
    DropEmpty4(s4[0], s4[1], s4[2], s4[3]);
    DropEmptySnoc(s4, h);
    DropEmptySnoc(s4 + [h], c);
    DropEmptySnoc(s4 + [h] + [c], d);
  }

  lemma {:induction false} DropEmpty4(p0: string, p1: string, p2: string, p3: string)
    requires p0 != "" && p1 != "" && p2 != "" && p3 != ""
    ensures DropEmpty([p0, p1, p2, p3]) == [p0, p1, p2, p3]
  {
    assert DropEmpty([p3]) == [p3] by { assert [p3][1..] == []; }
    assert DropEmpty([p2, p3]) == [p2, p3] by { assert [p2, p3][1..] == [p3]; }
    assert DropEmpty([p1, p2, p3]) == [p1, p2, p3] by { assert [p1, p2, p3][1..] == [p2, p3]; }
    assert [p0, p1, p2, p3][1..] == [p1, p2, p3];
  }

  lemma {:induction false} DiffersAt(a: string, b: string, i: nat)
    requires i < |a| && i < |b| && a[i] != b[i]
    ensures a != b
  {
  }

  /** Every segment is non-empty, so the header never holds `"; ; "`, and
      the first four are the pair and the three attributes that are always
      there. */
  lemma {:induction false} Segments(enc: string -> string, name: string, value: string, o: CookieOptions)
    ensures var s := CookieSegments(enc, name, value, o);
      && 4 <= |s| <= 7
      && s[..4] == [Pair(enc, name, value), PathAttr(o), MaxAgeAttr(o), SameSiteAttr(o)]
      && (forall i :: 0 <= i < |s| ==> s[i] != "")
  {
    SegmentsShape(enc, name, value, o);
    var s := CookieSegments(enc, name, value, o);
    forall i | 0 <= i < |s| ensures s[i] != "" {
      assert |s[i]| >= 1;
    }
  }

  /** `HttpOnly` is a segment exactly when the option is truthy. */
  lemma {:induction false} HttpOnlySegment(enc: string -> string, name: string, value: string, o: CookieOptions)
    ensures "HttpOnly" in CookieSegments(enc, name, value, o) <==> HttpOnly(o)
  {
    SegmentsShape(enc, name, value, o);
    var x := "HttpOnly";
    NotAnAttr(enc, name, value, o, x, 0, 0);
    assert x !in Flag(Secure(o), "Secure") by { DiffersAt("Secure", x, 0); }
    assert x !in Flag(Domain(o) != "", DomainAttr(o)) by { DiffersAt(DomainAttr(o), x, 0); }
  }

  /** `Secure` is a segment exactly when the option is truthy. */
  lemma {:induction false} SecureSegment(enc: string -> string, name: string, value: string, o: CookieOptions)
    ensures "Secure" in CookieSegments(enc, name, value, o) <==> Secure(o)
  {
    SegmentsShape(enc, name, value, o);
    var x := "Secure";
    NotAnAttr(enc, name, value, o, x, 0, 1);
    assert x !in Flag(HttpOnly(o), "HttpOnly") by { DiffersAt("HttpOnly", x, 0); }
    assert x !in Flag(Domain(o) != "", DomainAttr(o)) by { DiffersAt(DomainAttr(o), x, 0); }
  }

  /** A flag without `=` that differs from the attribute names where shown
      is none of the four segments that are always there. */
  lemma {:induction false} NotAnAttr(enc: string -> string, name: string, value: string, o: CookieOptions,
                                     x: string, i: nat, j: nat)
    requires '=' !in x && i < 1 && j < 2 && |x| >= 2
    requires x[i] != 'P' && x[i] != 'M' && x[j] != "SameSite"[j]
    ensures x !in [Pair(enc, name, value), PathAttr(o), MaxAgeAttr(o), SameSiteAttr(o)]
  {
    var p0 := Pair(enc, name, value);
    assert p0[|enc(name)|] == '=';
    DiffersAt(PathAttr(o), x, i);
    DiffersAt(MaxAgeAttr(o), x, i);
    DiffersAt(SameSiteAttr(o), x, j);
  }

  /** A `Domain=` segment comes last, and only when a domain is given. */
  lemma {:induction false} DomainSegment(enc: string -> string, name: string, value: string, o: CookieOptions)
    ensures var s := CookieSegments(enc, name, value, o);
      |s| >= 4 && (s[|s| - 1] == DomainAttr(o) <==> Domain(o) != "")
  {
    SegmentsShape(enc, name, value, o);
    DiffersAt(SameSiteAttr(o), DomainAttr(o), 0);
    DiffersAt("HttpOnly", DomainAttr(o), 0);
    DiffersAt("Secure", DomainAttr(o), 0);
  }

  /** `"; " + segment` when the flag is on. */
  function Attr(on: bool, segment: string): string {
    if on then "; " + segment else ""
  }

  lemma {:induction false} Join4(p0: string, p1: string, p2: string, p3: string, sep: string)
    ensures Join([p0, p1, p2, p3], sep) == p0 + sep + p1 + sep + p2 + sep + p3
  {
    assert Join([p3], sep) == p3;
    assert Join([p2, p3], sep) == p2 + sep + p3 by { assert [p2, p3][1..] == [p3]; }
    assert Join([p1, p2, p3], sep) == p1 + sep + (p2 + sep + p3) by { assert [p1, p2, p3][1..] == [p2, p3]; }
    assert Join([p0, p1, p2, p3], sep) == p0 + sep + (p1 + sep + (p2 + sep + p3)) by {
      assert [p0, p1, p2, p3][1..] == [p1, p2, p3];
    }
  }

  lemma {:induction false} JoinFlag(parts: seq<string>, on: bool, segment: string)
    requires |parts| >= 1
    ensures Join(parts + Flag(on, segment), "; ") == Join(parts, "; ") + Attr(on, segment)
  {
    if on {
      JoinAppend(parts, "; ", segment);
    } else {
      assert parts + Flag(on, segment) == parts;
    }
  }

  /** The whole header, flag by flag. */
  lemma {:induction false} MakeCookieShape(enc: string -> string, name: string, value: string, o: CookieOptions)
    ensures MakeCookie(enc, name, value, o)
      == Pair(enc, name, value) + "; " + PathAttr(o) + "; " + MaxAgeAttr(o) + "; " + SameSiteAttr(o)
         + Attr(HttpOnly(o), "HttpOnly") + Attr(Secure(o), "Secure") + Attr(Domain(o) != "", DomainAttr(o))
  {
    SegmentsShape(enc, name, value, o);
    var s4 := [Pair(enc, name, value), PathAttr(o), MaxAgeAttr(o), SameSiteAttr(o)];
    Join4(s4[0], s4[1], s4[2], s4[3], "; ");
    var s5 := s4 + Flag(HttpOnly(o), "HttpOnly");
    JoinFlag(s4, HttpOnly(o), "HttpOnly");
    var s6 := s5 + Flag(Secure(o), "Secure");
    JoinFlag(s5, Secure(o), "Secure");
    JoinFlag(s6, Domain(o) != "", DomainAttr(o));
  }

  /** Left without options, a cookie lasts 30 days on path `/`, is
      `SameSite=Lax`, `HttpOnly` and `Secure`, and names no domain. */
  lemma {:induction false} MakeCookieDefaults(enc: string -> string, name: string, value: string)
    ensures MakeCookie(enc, name, value, NoOptions)
      == Pair(enc, name, value) + "; " + "Path=/" + "; " + "Max-Age=2592000" + "; " + "SameSite=Lax"
         + "; " + "HttpOnly" + "; " + "Secure"
  {
    MakeCookieShape(enc, name, value, NoOptions);
    DefaultAttrs();
    var q := Pair(enc, name, value) + "; " + "Path=/" + "; " + "Max-Age=2592000" + "; " + "SameSite=Lax";
    assert MakeCookie(enc, name, value, NoOptions) == q + ("; " + "HttpOnly") + ("; " + "Secure") + "";
  }

  /** The attributes `makeCookie` writes when no option is given. */
  lemma {:induction false} DefaultAttrs()
    ensures PathAttr(NoOptions) == "Path=/"
    ensures MaxAgeAttr(NoOptions) == "Max-Age=2592000"
    ensures SameSiteAttr(NoOptions) == "SameSite=Lax"
    ensures HttpOnly(NoOptions) && Secure(NoOptions) && Domain(NoOptions) == ""
  {
    var m := IntToString(DefaultMaxAgeSec);
    DefaultMaxAgeDigits();
    assert MaxAgeAttr(NoOptions) == "Max-Age=" + m;
  }

  /** `String(60 * 60 * 24 * 30)`, digit by digit. */
  lemma {:induction false} DefaultMaxAgeDigits()
    ensures IntToString(DefaultMaxAgeSec) == "2592000"
  {
    assert NatToString(2) == "2";
    assert NatToString(25) == "2" + "5";
    assert NatToString(259) == "25" + "9";
    assert NatToString(2592) == "259" + "2";
    assert NatToString(25920) == "2592" + "0";
    assert NatToString(259200) == "25920" + "0";
    assert NatToString(2592000) == "259200" + "0";
  }

  // ---------------------------------------------------------------------
  // Reading back what was written
  // ---------------------------------------------------------------------

  /** The characters `encodeURIComponent` leaves in its output: the
      unreserved marks, letters, digits and the `%` of its escapes. */
  predicate IsUriChar(c: char) {
    ('A' <= c <= 'Z') || ('a' <= c <= 'z') || ('0' <= c <= '9')
    || c == '-' || c == '_' || c == '.' || c == '!' || c == '~' || c == '*'
    || c == '\'' || c == '(' || c == ')' || c == '%'
  }

  ghost predicate UriSafe(s: string) {
    forall i :: 0 <= i < |s| ==> IsUriChar(s[i])
  }

  /** Encoded text holds no separator, no `=` and no white space. */
  lemma {:induction false} UriSafeFacts(s: string)
    requires UriSafe(s)
    ensures ';' !in s && '=' !in s
    ensures s != [] ==> !IsJsSpace(s[0]) && !IsJsSpace(s[|s| - 1])
  {
    forall i | 0 <= i < |s| ensures s[i] != ';' && s[i] != '=' {
      assert IsUriChar(s[i]);
    }
  }

  /** A `name=value` pair of encoded text survives `trim` and is cut at its
      own `=`. */
  lemma {:induction false} EncodedPair(dec: string -> string, n: string, v: string)
    requires UriSafe(n) && UriSafe(v)
    ensures ';' !in n + "=" + v
    ensures Entry(dec, n + "=" + v) == (dec(n), dec(v))
  {
    UriSafeFacts(n);
    UriSafeFacts(v);
    var p := n + "=" + v;
    PairSplits(n, v);
    assert p[..|n|] == n && p[|n| + 1..] == v;
    EntryWithEquals(dec, p, |n|);
    assert Entry(dec, p) == (dec(p[..|n|]), dec(p[|n| + 1..]));
  }

  lemma {:induction false} EncodedPairTrimmed(n: string, v: string)
    requires UriSafe(n) && UriSafe(v)
    ensures Trim(n + "=" + v) == n + "=" + v
  {
    UriSafeFacts(n);
    UriSafeFacts(v);
    PairTrimmed(n, v);
  }

  lemma {:induction false} PairSplits(n: string, v: string)
    requires ';' !in n && ';' !in v && '=' !in n
    ensures var p := n + "=" + v;
      p[..|n|] == n && p[|n|] == '=' && p[|n| + 1..] == v && ';' !in p && '=' !in p[..|n|]
  {
    var p := n + "=" + v;
    assert p[..|n|] == n && p[|n|] == '=' && p[|n| + 1..] == v;
    assert p == p[..|n|] + [p[|n|]] + p[|n| + 1..];
  }

  lemma {:induction false} PairTrimmed(n: string, v: string)
    requires n != [] ==> !IsJsSpace(n[0])
    requires v != [] ==> !IsJsSpace(v[|v| - 1])
    ensures Trim(n + "=" + v) == n + "=" + v
  {
    var p := n + "=" + v;
    assert Trimmed(p) by {
      assert p[0] == (if n == [] then '=' else n[0]);
      assert p[|p| - 1] == (if v == [] then '=' else v[|v| - 1]);
    }
    TrimOf([], p, []);
    assert [] + p + [] == p;
  }

  /** The header is cut at each `;` and each piece read on its own: a
      first piece is trimmed and kept unless it is blank. */
  lemma {:induction false} PiecesCons(a: string, rest: string)
    requires ';' !in a
    ensures Pieces(a + [';'] + rest) == DropEmpty([Trim(a)]) + Pieces(rest)
  {
    SplitHead(a, ';', rest);
    var parts := Split(rest, ';');
    assert TrimEach([a] + parts) == [Trim(a)] + TrimEach(parts);
    DropEmptyAppend([Trim(a)], TrimEach(parts));
  }

  /** A header without `;` is one piece, kept when it is non-empty once
      trimmed. */
  lemma {:induction false} PiecesSingle(h: string)
    requires ';' !in h
    ensures Pieces(h) == DropEmpty([Trim(h)])
  {
    assert IndexOf(h, ';') == -1;
    assert Split(h, ';') == [h];
    assert TrimEach([h]) == [Trim(h)];
  }

  lemma {:induction false} CookiePairsCons(dec: string -> string, a: string, rest: string)
    requires ';' !in a && Trim(a) != ""
    ensures CookiePairs(dec, a + [';'] + rest) == [Entry(dec, Trim(a))] + CookiePairs(dec, rest)
  {
    PiecesCons(a, rest);
    assert DropEmpty([Trim(a)]) == [Trim(a)] by { assert [Trim(a)][1..] == []; }
  }

  lemma {:induction false} HeaderOf(h: string)
    requires h != ""
    ensures CookieHeader(map["cookie" := h]) == h
  {
  }

  /** A header that starts with an encoded `name=value` pair and a `;`
      reads as that pair, then whatever follows. */
  lemma {:induction false} PairFirst(dec: string -> string, n: string, v: string, rest: string)
    requires UriSafe(n) && UriSafe(v)
    ensures CookiePairs(dec, n + "=" + v + [';'] + rest) == [(dec(n), dec(v))] + CookiePairs(dec, rest)
  {
    EncodedPair(dec, n, v);
    EncodedPairTrimmed(n, v);
    CookiePairsCons(dec, n + "=" + v, rest);
  }

  /** A browser that sends back a cookie from `makeCookie` unchanged makes
      `parseCookies` find its pair first, whatever the attributes. */
  lemma {:induction false} MakeCookieReadBack(enc: string -> string, dec: string -> string,
                           name: string, value: string, o: CookieOptions)
    requires UriSafe(enc(name)) && UriSafe(enc(value))
    ensures var ps := CookiePairs(dec, MakeCookie(enc, name, value, o));
      |ps| >= 1 && ps[0] == (dec(enc(name)), dec(enc(value)))
    ensures dec(enc(name)) in ParseCookies(dec, map["cookie" := MakeCookie(enc, name, value, o)])
  {
    var tail := MakeCookieSplits(enc, name, value, o);
    PairFirst(dec, enc(name), enc(value), tail);
    var h := MakeCookie(enc, name, value, o);
    var ps := CookiePairs(dec, h);
    HeaderOf(h);
    var k := dec(enc(name));
    assert ps[0].0 == k;
    assert LastWith(ps, k) < |ps|;
  }

  lemma {:induction false} MakeCookieSplits(enc: string -> string, name: string, value: string, o: CookieOptions)
    returns (tail: string)
    ensures MakeCookie(enc, name, value, o) == enc(name) + "=" + enc(value) + [';'] + tail
  {
    SegmentsShape(enc, name, value, o);
    var segs := CookieSegments(enc, name, value, o);
    tail := " " + Join(segs[1..], "; ");
    assert segs[0] == Pair(enc, name, value);
  }

  /** `clearCookie` read back: its first pair gives the name an empty
      value. */
  lemma {:induction false} ClearCookieReadBack(enc: string -> string, dec: string -> string, name: string)
    requires UriSafe(enc(name))
    ensures var ps := CookiePairs(dec, ClearCookie(enc, name));
      |ps| >= 1 && ps[0] == (dec(enc(name)), dec(""))
  {
    var tail := ClearCookieSplits(enc, name);
    PairFirst(dec, enc(name), "", tail);
  }

  lemma {:induction false} ClearCookieSplits(enc: string -> string, name: string) returns (tail: string)
    ensures ClearCookie(enc, name) == enc(name) + "=" + "" + [';'] + tail
    ensures tail == " Max-Age=0; Path=/; SameSite=Lax"
  {
    var rest := "Max-Age=0" + "; " + "Path=/" + "; " + "SameSite=Lax";
    tail := " " + rest;
    assert "; " == [';'] + " ";
    assert ClearCookie(enc, name) == enc(name) + "=" + "; " + rest;
  }
}
