/** The JavaScript string operations the handlers are built from, on
    strings as sequences of characters: `trim`, `toLowerCase`, `indexOf`,
    `split` on one character, `join`, `filter(Boolean)`, the
    `replace(/[^\w\-\. ]/g, "")` clean-up and `Object.fromEntries`. */
module JsText {

  // ---------------------------------------------------------------------
  // trim
  // ---------------------------------------------------------------------

  /** The characters `String.prototype.trim` removes: the ECMAScript
      WhiteSpace and LineTerminator code points. */
  predicate IsJsSpace(c: char) {
    c == '\t' || c == '\n' || c == '\U{B}' || c == '\U{C}' || c == '\r' || c == ' '
    || c == '\U{A0}' || c == '\U{1680}' || ('\U{2000}' <= c <= '\U{200A}')
    || c == '\U{2028}' || c == '\U{2029}' || c == '\U{202F}' || c == '\U{205F}'
    || c == '\U{3000}' || c == '\U{FEFF}'
  }

  ghost predicate AllSpace(s: string) {
    forall i :: 0 <= i < |s| ==> IsJsSpace(s[i])
  }

  lemma AllSpaceConcat(a: string, b: string)
    requires AllSpace(a) && AllSpace(b)
    ensures AllSpace(a + b)
  {
  }

  /** True of the strings `trim` leaves as they are. */
  ghost predicate Trimmed(s: string) {
    s == [] || (!IsJsSpace(s[0]) && !IsJsSpace(s[|s| - 1]))
  }

  /** The first position at or after `i` that does not hold white space. */
  function SkipSpace(s: string, i: nat): (k: nat)
    requires i <= |s|
    ensures i <= k <= |s|
    ensures forall j :: i <= j < k ==> IsJsSpace(s[j])
    ensures k == |s| || !IsJsSpace(s[k])
    decreases |s| - i
  {
    if i < |s| && IsJsSpace(s[i]) then SkipSpace(s, i + 1) else i
  }

  /** The position just after the last character before `j`, and not
      before `lo`, that is not white space. */
  function SkipSpaceBack(s: string, lo: nat, j: nat): (k: nat)
    requires lo <= j <= |s|
    ensures lo <= k <= j
    ensures forall i :: k <= i < j ==> IsJsSpace(s[i])
    ensures k == lo || !IsJsSpace(s[k - 1])
  {
    if j > lo && IsJsSpace(s[j - 1]) then SkipSpaceBack(s, lo, j - 1) else j
  }

  /** Where the text `trim` keeps starts and ends. */
  function TrimFrom(s: string): nat
    ensures TrimFrom(s) <= |s|
  {
    SkipSpace(s, 0)
  }

  function TrimTo(s: string): nat
    ensures TrimFrom(s) <= TrimTo(s) <= |s|
  {
    SkipSpaceBack(s, TrimFrom(s), |s|)
  }

  /** `s.trim()`: the text between the leading and the trailing white
      space. */
  function Trim(s: string): (r: string)
    ensures Trimmed(r)
    ensures r == s[TrimFrom(s)..TrimTo(s)]
    ensures AllSpace(s[..TrimFrom(s)]) && AllSpace(s[TrimTo(s)..])
  {
    var a, b := TrimFrom(s), TrimTo(s);
    assert a < b ==> !IsJsSpace(s[a]);
    assert forall i :: 0 <= i < |s[b..]| ==> s[b..][i] == s[b + i];
    s[a..b]
  }

  /** `SkipSpace` stops at the first character that is not white space. */
  lemma {:induction false} SkipSpaceIs(s: string, i: nat, k: nat)
    requires i <= k <= |s|
    requires forall j :: i <= j < k ==> IsJsSpace(s[j])
    requires k == |s| || !IsJsSpace(s[k])
    ensures SkipSpace(s, i) == k
    decreases k - i
  {
    if i < k {
      SkipSpaceIs(s, i + 1, k);
    }
  }

  lemma {:induction false} SkipSpaceBackIs(s: string, lo: nat, j: nat, k: nat)
    requires lo <= k <= j <= |s|
    requires forall i :: k <= i < j ==> IsJsSpace(s[i])
    requires k == lo || !IsJsSpace(s[k - 1])
    ensures SkipSpaceBack(s, lo, j) == k
    decreases j - k
  {
    if k < j {
      SkipSpaceBackIs(s, lo, j - 1, k);
    }
  }

  /** Whatever white space surrounds a trimmed string, `trim` gives back
      exactly that string. */
  lemma {:induction false} TrimOf(a: string, t: string, b: string)
    requires AllSpace(a) && Trimmed(t) && AllSpace(b)
    ensures Trim(a + t + b) == t
  {
    var s := a + t + b;
    assert forall i :: 0 <= i < |a| ==> s[i] == a[i];
    assert forall i :: 0 <= i < |t| ==> s[|a| + i] == t[i];
    assert forall i :: 0 <= i < |b| ==> s[|a| + |t| + i] == b[i];
    if t == [] {
      SkipSpaceIs(s, 0, |s|);
      SkipSpaceBackIs(s, |s|, |s|, |s|);
    } else {
      SkipSpaceIs(s, 0, |a|);
      assert s[|a| + |t| - 1] == t[|t| - 1];
      SkipSpaceBackIs(s, |a|, |s|, |a| + |t|);
      assert s[|a|..|a| + |t|] == t;
    }
  }

  lemma TrimIdempotent(s: string)
    ensures Trim(Trim(s)) == Trim(s)
  {
    TrimOf([], Trim(s), []);
    assert [] + Trim(s) + [] == Trim(s);
  }

  lemma Regroup(w1: string, s: string, w2: string, a: nat, b: nat)
    requires a <= b <= |s|
    ensures w1 + s + w2 == (w1 + s[..a]) + s[a..b] + (s[b..] + w2)
  {
    assert s == s[..a] + s[a..b] + s[b..];
  }

  /** White space added on either side does not change the result of `trim`. */
  lemma TrimIgnoresOuterSpace(w1: string, s: string, w2: string)
    requires AllSpace(w1) && AllSpace(w2)
    ensures Trim(w1 + s + w2) == Trim(s)
  {
    var t := Trim(s);
    var a, b := TrimFrom(s), TrimTo(s);
    var p, q := w1 + s[..a], s[b..] + w2;
    AllSpaceConcat(w1, s[..a]);
    AllSpaceConcat(s[b..], w2);
    TrimOf(p, t, q);
    Regroup(w1, s, w2, a, b);
  }

  // ---------------------------------------------------------------------
  // toLowerCase
  // ---------------------------------------------------------------------

  function LowerChar(c: char): (d: char)
    ensures IsJsSpace(d) == IsJsSpace(c)
  {
    if 'A' <= c <= 'Z' then (c as int + 32) as char else c
  }

  /** `s.toLowerCase()` on ASCII letters; every other character is kept. */
  function ToLowerCase(s: string): (r: string)
    ensures |r| == |s|
    ensures forall i :: 0 <= i < |s| ==> r[i] == LowerChar(s[i])
  {
    seq(|s|, i requires 0 <= i < |s| => LowerChar(s[i]))
  }

  lemma ToLowerCaseIdempotent(s: string)
    ensures ToLowerCase(ToLowerCase(s)) == ToLowerCase(s)
  {
  }

  lemma ToLowerCaseAppend(a: string, b: string)
    ensures ToLowerCase(a + b) == ToLowerCase(a) + ToLowerCase(b)
  {
  }

  lemma ToLowerCaseKeepsSpace(s: string)
    requires AllSpace(s)
    ensures ToLowerCase(s) == s
  {
  }

  /** Lower-casing and trimming commute: letters are never white space. */
  lemma {:induction false} TrimToLowerCaseCommute(s: string)
    ensures ToLowerCase(Trim(s)) == Trim(ToLowerCase(s))
  {
    var l := ToLowerCase(s);
    LowerCaseKeepsBounds(s);
    var a, b := TrimFrom(s), TrimTo(s);
    assert Trim(l) == l[a..b];
    assert forall i :: 0 <= i < b - a ==> ToLowerCase(s[a..b])[i] == l[a..b][i];
  }

  /** Lower-casing moves no white space, so `trim` cuts at the same places. */
  lemma {:induction false} LowerCaseKeepsBounds(s: string)
    ensures TrimFrom(ToLowerCase(s)) == TrimFrom(s)
    ensures TrimTo(ToLowerCase(s)) == TrimTo(s)
  {
    var l := ToLowerCase(s);
    var a, b := TrimFrom(s), TrimTo(s);
    assert forall j :: 0 <= j < |s| ==> IsJsSpace(l[j]) == IsJsSpace(s[j]);
    SkipSpaceIs(l, 0, a);
    SkipSpaceBackIs(l, a, |l|, b);
  }

  // ---------------------------------------------------------------------
  // replace(/[^\w\-\. ]/g, "")
  // ---------------------------------------------------------------------

  /** The characters of the class `[\w\-\. ]` (`\w` is ASCII-only without
      the `u` flag). */
  predicate IsNameChar(c: char) {
    ('A' <= c <= 'Z') || ('a' <= c <= 'z') || ('0' <= c <= '9')
    || c == '_' || c == '-' || c == '.' || c == ' '
  }

  /** `s.replace(/[^\w\-\. ]/g, "")`: drops every character outside the class. */
  function StripNonNameChars(s: string): (r: string)
    ensures |r| <= |s|
    ensures forall i :: 0 <= i < |r| ==> IsNameChar(r[i])
    ensures forall i :: 0 <= i < |s| && IsNameChar(s[i]) ==> s[i] in r
    ensures (forall i :: 0 <= i < |s| ==> IsNameChar(s[i])) ==> r == s
  {
    if s == [] then []
    else if IsNameChar(s[0]) then [s[0]] + StripNonNameChars(s[1..])
    else StripNonNameChars(s[1..])
  }

  /** One character is kept exactly when it is in the class, so with
      `StripNonNameCharsAppend` the result is the in-order filter of `s`. */
  lemma {:induction false} StripNonNameCharsOne(c: char)
    ensures StripNonNameChars([c]) == (if IsNameChar(c) then [c] else [])
  {
    assert [c][1..] == [];
  }

  /** The replacement works character by character, so it distributes
      over concatenation. */
  lemma {:induction false} StripNonNameCharsAppend(a: string, b: string)
    ensures StripNonNameChars(a + b) == StripNonNameChars(a) + StripNonNameChars(b)
  {
    if a != [] {
      assert (a + b)[1..] == a[1..] + b;
      StripNonNameCharsAppend(a[1..], b);
    } else {
      assert a + b == b;
    }
  }

  // ---------------------------------------------------------------------
  // indexOf, split, join, filter(Boolean)
  // ---------------------------------------------------------------------

  /** The first position at or after `i` that holds `c`, or `|s|`. */
  function IndexFrom(s: string, c: char, i: nat): (k: nat)
    requires i <= |s|
    ensures i <= k <= |s|
    ensures forall j :: i <= j < k ==> s[j] != c
    ensures k == |s| || s[k] == c
    decreases |s| - i
  {
    if i < |s| && s[i] != c then IndexFrom(s, c, i + 1) else i
  }

  /** `s.indexOf(c)`: the first position of `c`, or -1. */
  function IndexOf(s: string, c: char): (r: int)
    ensures -1 <= r < |s|
    ensures r == -1 <==> c !in s
    ensures r >= 0 ==> s[r] == c && c !in s[..r]
  {
    var k := IndexFrom(s, c, 0);
    assert forall j :: 0 <= j < |s[..k]| ==> s[..k][j] == s[j];
    if k == |s| then -1 else k
  }

  /** A position that `IndexOf` reports is the first occurrence. */
  lemma {:induction false} IndexOfIs(s: string, c: char, i: nat)
    requires i < |s| && s[i] == c && c !in s[..i]
    ensures IndexOf(s, c) == i
  {
    assert forall j :: 0 <= j < i ==> s[..i][j] == s[j];
    IndexFromIs(s, c, 0, i);
  }

  lemma {:induction false} IndexFromIs(s: string, c: char, i: nat, k: nat)
    requires i <= k < |s| && s[k] == c
    requires forall j :: i <= j < k ==> s[j] != c
    ensures IndexFrom(s, c, i) == k
    decreases k - i
  {
    if i < k {
      IndexFromIs(s, c, i + 1, k);
    }
  }


  /** `s.slice(0, end)`: a negative `end` counts from the back. */
  function SliceTo(s: string, end: int): (r: string)
    ensures 0 <= end <= |s| ==> r == s[..end]
    ensures -|s| <= end < 0 ==> r == s[..|s| + end]
  {
    var e := if end < 0 then (if |s| + end < 0 then 0 else |s| + end)
             else (if end > |s| then |s| else end);
    s[..e]
  }

  /** `s.slice(start)`: a negative `start` counts from the back. */
  function SliceFrom(s: string, start: int): (r: string)
    ensures 0 <= start <= |s| ==> r == s[start..]
    ensures -|s| <= start < 0 ==> r == s[|s| + start..]
  {
    var b := if start < 0 then (if |s| + start < 0 then 0 else |s| + start)
             else (if start > |s| then |s| else start);
    s[b..]
  }

  /** The decimal digits of a natural number, as `String(n)` writes them. */
  function NatToString(n: nat): (r: string)
    ensures |r| >= 1
    ensures forall i :: 0 <= i < |r| ==> '0' <= r[i] <= '9'
  {
    var d := ['0' + (n % 10) as char];
    if n < 10 then d else NatToString(n / 10) + d
  }

  /** `String(i)` for an integer. */
  function IntToString(i: int): (r: string)
    ensures |r| >= 1
    ensures i >= 0 ==> r == NatToString(i)
    ensures i < 0 ==> r == "-" + NatToString(-i)
  {
    if i < 0 then "-" + NatToString(-i) else NatToString(i)
  }

  /** `s.split(sep)` for a one-character separator. */
  function Split(s: string, sep: char): (parts: seq<string>)
    ensures |parts| >= 1
    ensures forall i :: 0 <= i < |parts| ==> sep !in parts[i]
    decreases |s|
  {
    var k := IndexOf(s, sep);
    if k < 0 then [s]
    else
      var rest := Split(s[k + 1..], sep);
      assert forall i :: 0 < i <= |rest| ==> ([s[..k]] + rest)[i] == rest[i - 1];
      [s[..k]] + rest
  }

  /** `parts.join(sep)`. */
  function Join(parts: seq<string>, sep: string): string
  {
    if |parts| == 0 then ""
    else if |parts| == 1 then parts[0]
    else parts[0] + sep + Join(parts[1..], sep)
  }

  /** Joining the pieces of a split gives back the string. */
  lemma {:induction false} JoinSplit(s: string, sep: char)
    ensures Join(Split(s, sep), [sep]) == s
    decreases |s|
  {
    var k := IndexOf(s, sep);
    if k >= 0 {
      var head, tail := s[..k], s[k + 1..];
      var rest := Split(tail, sep);
      JoinSplit(tail, sep);
      SplitStep(s, sep, k);
      JoinCons(head, rest, [sep]);
      assert s == head + [sep] + tail;
    }
  }

  lemma {:induction false} SplitStep(s: string, sep: char, k: nat)
    requires k == IndexOf(s, sep)
    ensures Split(s, sep) == [s[..k]] + Split(s[k + 1..], sep)
  {
  }

  lemma {:induction false} JoinCons(p: string, rest: seq<string>, sep: string)
    requires |rest| >= 1
    ensures Join([p] + rest, sep) == p + sep + Join(rest, sep)
  {
    assert ([p] + rest)[1..] == rest;
  }

  /** Splitting a join of separator-free pieces gives back the pieces. */
  lemma {:induction false} SplitJoin(parts: seq<string>, sep: char)
    requires |parts| >= 1
    requires forall i :: 0 <= i < |parts| ==> sep !in parts[i]
    ensures Split(Join(parts, [sep]), sep) == parts
  {
    if |parts| > 1 {
      var s := Join(parts, [sep]);
      var rest := Join(parts[1..], [sep]);
      assert s == parts[0] + [sep] + rest;
      assert s[..|parts[0]|] == parts[0];
      assert s[|parts[0]|] == sep;
      assert IndexOf(s, sep) == |parts[0]|;
      assert s[|parts[0]| + 1..] == rest;
      SplitJoin(parts[1..], sep);
    } else {
      assert sep !in parts[0];
    }
  }

  /** The first piece of a split is everything before the first separator. */
  lemma SplitHead(a: string, sep: char, b: string)
    requires sep !in a
    ensures Split(a + [sep] + b, sep) == [a] + Split(b, sep)
  {
    var s := a + [sep] + b;
    assert s[|a|] == sep && s[..|a|] == a;
    assert IndexOf(s, sep) == |a|;
    assert s[|a| + 1..] == b;
  }

  /** `.filter(Boolean)` on strings: the empty pieces are dropped. */
  function DropEmpty(parts: seq<string>): (r: seq<string>)
    ensures |r| <= |parts|
    ensures forall i :: 0 <= i < |r| ==> r[i] != ""
  {
    if parts == [] then []
    else if parts[0] == "" then DropEmpty(parts[1..])
    else [parts[0]] + DropEmpty(parts[1..])
  }

  /** Every non-empty part is kept. */
  lemma {:induction false} DropEmptyKeeps(parts: seq<string>)
    ensures forall i :: 0 <= i < |parts| && parts[i] != "" ==> parts[i] in DropEmpty(parts)
  {
    if parts != [] {
      DropEmptyKeeps(parts[1..]);
      assert forall i :: 1 <= i < |parts| ==> parts[i] == parts[1..][i - 1];
    }
  }

  lemma {:induction false} DropEmptyAppend(a: seq<string>, b: seq<string>)
    ensures DropEmpty(a + b) == DropEmpty(a) + DropEmpty(b)
  {
    if a != [] {
      assert (a + b)[1..] == a[1..] + b;
      DropEmptyAppend(a[1..], b);
    } else {
      assert a + b == b;
    }
  }

  /** Dropping the empty pieces keeps the others, in order. */
  lemma DropEmptySnoc(a: seq<string>, x: string)
    ensures DropEmpty(a + [x]) == DropEmpty(a) + (if x == "" then [] else [x])
  {
    DropEmptyAppend(a, [x]);
    assert DropEmpty([x]) == (if x == "" then [] else [x]) by {
      assert [x][1..] == [];
    }
  }

  /** `parts.map(v => v.trim())`. */
  function TrimEach(parts: seq<string>): (r: seq<string>)
    ensures |r| == |parts|
    ensures forall i :: 0 <= i < |parts| ==> r[i] == Trim(parts[i])
  {
    if parts == [] then [] else [Trim(parts[0])] + TrimEach(parts[1..])
  }

  /** Joining after appending one more piece adds a separator and the piece. */
  lemma {:induction false} JoinAppend(parts: seq<string>, sep: string, p: string)
    requires |parts| >= 1
    ensures Join(parts + [p], sep) == Join(parts, sep) + sep + p
  {
    if |parts| > 1 {
      assert (parts + [p])[1..] == parts[1..] + [p];
      JoinAppend(parts[1..], sep, p);
    } else {
      assert (parts + [p])[1..] == [p];
    }
  }

  // ---------------------------------------------------------------------
  // Object.fromEntries
  // ---------------------------------------------------------------------

  /** `Object.fromEntries(pairs)`: later pairs overwrite earlier ones. */
  function FromEntries<V>(pairs: seq<(string, V)>): (m: map<string, V>)
    ensures forall k :: k in m <==> LastWith(pairs, k) < |pairs|
    ensures forall k :: k in m ==> m[k] == pairs[LastWith(pairs, k)].1
  {
    if pairs == [] then map[]
    else
      var init := pairs[..|pairs| - 1];
      var last := pairs[|pairs| - 1];
      var m := FromEntries(init);
      assert forall i :: 0 <= i < |init| ==> init[i] == pairs[i];
      m[last.0 := last.1]
  }

  /** The index of the last pair whose key is `k`, or `|pairs|` if none is. */
  function LastWith<V>(pairs: seq<(string, V)>, k: string): (i: nat)
    ensures i <= |pairs|
    ensures i < |pairs| ==> pairs[i].0 == k && forall j :: i < j < |pairs| ==> pairs[j].0 != k
    ensures i == |pairs| ==> forall j :: 0 <= j < |pairs| ==> pairs[j].0 != k
  {
    if pairs == [] then 0
    else if pairs[|pairs| - 1].0 == k then |pairs| - 1
    else
      var i := LastWith(pairs[..|pairs| - 1], k);
      if i == |pairs| - 1 then |pairs| else i
  }
  /** The value `Object.fromEntries` keeps for a key is that of the last
      pair with that key. */
  lemma {:induction false} FromEntriesLast<V>(pairs: seq<(string, V)>, i: nat, k: string)
    requires i < |pairs| && pairs[i].0 == k
    requires forall j :: i < j < |pairs| ==> pairs[j].0 != k
    ensures k in FromEntries(pairs) && FromEntries(pairs)[k] == pairs[i].1
  {
    assert LastWith(pairs, k) == i;
  }

}
