/** The recent-usernames list: `all.json` of the `usernames` store, a list
    that POST appends to after removing entries with the same name in any
    letter case, and that GET returns newest first, at most twenty of it.

    The clock (`Date.now()`) is the parameter `now`. */
module Usernames {
  import opened JsValues
  import opened JsText

  /** An element of the stored list as JSON gives it back: a falsy value
      (`null`) or an object whose `name` and `ts` may be missing. */
  datatype Entry = Null | Record(name: Option<string>, ts: Option<int>)

  /** `e?.ts ?? 0`. */
  function Ts(e: Entry): int {
    if e.Record? && e.ts.Some? then e.ts.value else 0
  }

  /** `(e && (e.name || "").toLowerCase())` compared with `lower`: whether
      the filter drops `e`. A falsy entry is never dropped. */
  predicate SameName(e: Entry, lower: string) {
    e.Record? && ToLowerCase(if e.name.Some? then e.name.value else "") == lower
  }

  // ---------------------------------------------------------------------
  // GET: sort by `ts`, newest first, and keep twenty
  // ---------------------------------------------------------------------

  /** Newest first: no entry is newer than the one before it. */
  ghost predicate NewestFirst(s: seq<Entry>) {
    forall i, j :: 0 <= i < j < |s| ==> Ts(s[i]) >= Ts(s[j])
  }

  /** `e` placed before the first entry that is not newer than it, so that
      among equal stamps the earlier entry stays first. */
  function Insert(e: Entry, s: seq<Entry>): (r: seq<Entry>)
    ensures multiset(r) == multiset(s) + multiset{e}
    ensures |r| == |s| + 1
  {
    if s == [] || Ts(s[0]) <= Ts(e) then [e] + s
    else
      assert s == [s[0]] + s[1..];
      [s[0]] + Insert(e, s[1..])
  }

  /** `list.sort((a, b) => (b?.ts ?? 0) - (a?.ts ?? 0))`: a stable sort by
      descending stamp. */
  function SortNewestFirst(s: seq<Entry>): (r: seq<Entry>)
    ensures multiset(r) == multiset(s)
    ensures |r| == |s|
  {
    if s == [] then []
    else
      assert s == [s[0]] + s[1..];
      Insert(s[0], SortNewestFirst(s[1..]))
  }

  /** Every entry of `s` is at most as new as `v`. */
  ghost predicate NoNewerThan(s: seq<Entry>, v: int) {
    forall i :: 0 <= i < |s| ==> Ts(s[i]) <= v
  }

  lemma {:induction false} InsertNoNewerThan(e: Entry, s: seq<Entry>, v: int)
    requires NoNewerThan(s, v) && Ts(e) <= v
    ensures NoNewerThan(Insert(e, s), v)
  {
    if s != [] && Ts(s[0]) > Ts(e) {
      InsertNoNewerThan(e, s[1..], v);
      var r := Insert(e, s[1..]);
      assert forall i :: 1 <= i < |r| + 1 ==> ([s[0]] + r)[i] == r[i - 1];
    }
  }

  /** A newest-first list headed by `x` that is no newer than `x`. */
  lemma ConsNewestFirst(x: Entry, r: seq<Entry>)
    requires NewestFirst(r) && NoNewerThan(r, Ts(x))
    ensures NewestFirst([x] + r)
  {
    var t := [x] + r;
    forall i, j | 0 <= i < j < |t| ensures Ts(t[i]) >= Ts(t[j]) {
      assert t[j] == r[j - 1];
      if i > 0 {
        assert t[i] == r[i - 1];
      }
    }
  }

  lemma {:induction false} InsertNewestFirst(e: Entry, s: seq<Entry>)
    requires NewestFirst(s)
    ensures NewestFirst(Insert(e, s))
  {
    if s == [] || Ts(s[0]) <= Ts(e) {
      assert NoNewerThan(s, Ts(e)) by {
        forall i | 0 <= i < |s| ensures Ts(s[i]) <= Ts(e) {
          assert Ts(s[0]) >= Ts(s[i]);
        }
      }
      ConsNewestFirst(e, s);
    } else {
      assert NoNewerThan(s[1..], Ts(s[0])) by {
        forall i | 0 <= i < |s[1..]| ensures Ts(s[1..][i]) <= Ts(s[0]) {
          assert s[1..][i] == s[i + 1];
        }
      }
      InsertNewestFirst(e, s[1..]);
      InsertNoNewerThan(e, s[1..], Ts(s[0]));
      ConsNewestFirst(s[0], Insert(e, s[1..]));
    }
  }

  /** The sort puts the list newest first. */
  lemma {:induction false} SortIsNewestFirst(s: seq<Entry>)
    ensures NewestFirst(SortNewestFirst(s))
  {
    if s != [] {
      SortIsNewestFirst(s[1..]);
      InsertNewestFirst(s[0], SortNewestFirst(s[1..]));
    }
  }

  /** The entries with stamp `t`, in order. */
  function WithTs(s: seq<Entry>, t: int): (r: seq<Entry>)
    ensures |r| <= |s|
  {
    if s == [] then []
    else if Ts(s[0]) == t then [s[0]] + WithTs(s[1..], t)
    else WithTs(s[1..], t)
  }

  lemma {:induction false} InsertWithTs(e: Entry, s: seq<Entry>, t: int)
    requires NewestFirst(s)
    ensures WithTs(Insert(e, s), t) == if Ts(e) == t then [e] + WithTs(s, t) else WithTs(s, t)
  {
    if s != [] && Ts(s[0]) > Ts(e) {
      assert Insert(e, s) == [s[0]] + Insert(e, s[1..]);
      assert ([s[0]] + Insert(e, s[1..]))[1..] == Insert(e, s[1..]);
      InsertWithTs(e, s[1..], t);
      if Ts(e) == t {
        assert Ts(s[0]) != t;
      }
    } else {
      assert ([e] + s)[1..] == s;
    }
  }

  /** The sort is stable: entries with the same stamp keep their order. */
  lemma {:induction false} SortIsStable(s: seq<Entry>, t: int)
    ensures WithTs(SortNewestFirst(s), t) == WithTs(s, t)
  {
    if s != [] {
      SortIsStable(s[1..], t);
      SortIsNewestFirst(s[1..]);
      InsertWithTs(s[0], SortNewestFirst(s[1..]), t);
    }
  }

  // ---------------------------------------------------------------------
  // POST: trim, check, strip, drop same-named entries, append
  // ---------------------------------------------------------------------

  /** `list.filter(e => (e && (e.name || "").toLowerCase()) !== lower)`. */
  function DropSameName(list: seq<Entry>, lower: string): (r: seq<Entry>)
    ensures |r| <= |list|
    ensures forall e :: e in r <==> e in list && !SameName(e, lower)
  {
    if list == [] then []
    else if SameName(list[0], lower) then DropSameName(list[1..], lower)
    else [list[0]] + DropSameName(list[1..], lower)
  }

  /** The filter keeps the order: it works entry by entry. */
  lemma {:induction false} DropSameNameAppend(a: seq<Entry>, b: seq<Entry>, lower: string)
    ensures DropSameName(a + b, lower) == DropSameName(a, lower) + DropSameName(b, lower)
  {
    if a != [] {
      assert (a + b)[1..] == a[1..] + b;
      DropSameNameAppend(a[1..], b, lower);
    } else {
      assert a + b == b;
    }
  }

  /** The name POST checks: `(body.username || "").trim()`. */
  function Checked(username: string): string {
    Trim(username)
  }

  /** `!name || name.length < 2 || name.length > 30` rejects. */
  predicate ValidUsername(name: string) {
    name != "" && 2 <= |name| <= 30
  }

  /** The name POST stores: the checked name, stripped. */
  function Stored(username: string): (name: string)
    ensures |name| <= |Checked(username)|
    ensures forall i :: 0 <= i < |name| ==> IsNameChar(name[i])
  {
    StripNonNameChars(Checked(username))
  }

  /** The list after a POST of `username` at `now`, or `None` for the 400
      answer. */
  function Posted(list: seq<Entry>, username: string, now: int): (r: Option<seq<Entry>>)
    ensures r.Some? <==> 2 <= |Checked(username)| <= 30
  {
    if !ValidUsername(Checked(username)) then None
    else
      var name := Stored(username);
      Some(DropSameName(list, ToLowerCase(name)) + [Record(Some(name), Some(now))])
  }

  /** No two named entries share a name up to letter case. */
  ghost predicate UniqueNames(list: seq<Entry>) {
    forall i, j :: 0 <= i < j < |list| && list[i].Record? && list[j].Record?
      ==> ToLowerCase(NameOf(list[i])) != ToLowerCase(NameOf(list[j]))
  }

  function NameOf(e: Entry): string
    requires e.Record?
  {
    if e.name.Some? then e.name.value else ""
  }

  /** After a POST the new entry is last, it holds the stripped name and
      the time of the request, and no other entry has its name in any
      letter case. */
  lemma {:induction false} PostedEntryIsLastAndUnique(list: seq<Entry>, username: string, now: int)
    requires Posted(list, username, now).Some?
    ensures var l := Posted(list, username, now).value;
      var name := Stored(username);
      && l[|l| - 1] == Record(Some(name), Some(now))
      && forall i :: 0 <= i < |l| - 1 ==> !SameName(l[i], ToLowerCase(name))
  {
    var name := Stored(username);
    var kept := DropSameName(list, ToLowerCase(name));
    var l := kept + [Record(Some(name), Some(now))];
    forall i | 0 <= i < |l| - 1 ensures !SameName(l[i], ToLowerCase(name)) {
      assert l[i] == kept[i];
      assert kept[i] in kept;
    }
  }

  /** POST keeps every entry with another name, in its original order, and
      nothing else before the new one. */
  lemma {:induction false} PostedKeepsOthers(list: seq<Entry>, username: string, now: int)
    requires Posted(list, username, now).Some?
    ensures var l := Posted(list, username, now).value;
      var lower := ToLowerCase(Stored(username));
      && l[..|l| - 1] == DropSameName(list, lower)
      && forall e :: e in list && !SameName(e, lower) ==> e in l
  {
    var lower := ToLowerCase(Stored(username));
    var kept := DropSameName(list, lower);
    var l := Posted(list, username, now).value;
    assert l == kept + [Record(Some(Stored(username)), Some(now))];
    assert l[..|l| - 1] == kept;
  }

  /** A list with unique names keeps them after a POST. */
  lemma {:induction false} PostedKeepsUniqueNames(list: seq<Entry>, username: string, now: int)
    requires UniqueNames(list) && Posted(list, username, now).Some?
    ensures UniqueNames(Posted(list, username, now).value)
  {
    var name := Stored(username);
    var lower := ToLowerCase(name);
    var kept := DropSameName(list, lower);
    var l := Posted(list, username, now).value;
    PostedEntryIsLastAndUnique(list, username, now);
    DropSameNameUnique(list, lower);
    forall i, j | 0 <= i < j < |l| && l[i].Record? && l[j].Record?
      ensures ToLowerCase(NameOf(l[i])) != ToLowerCase(NameOf(l[j]))
    {
      if j == |l| - 1 {
        assert !SameName(l[i], lower);
      } else {
        assert l[i] == kept[i] && l[j] == kept[j];
      }
    }
  }

  lemma {:induction false} DropSameNameUnique(list: seq<Entry>, lower: string)
    requires UniqueNames(list)
    ensures UniqueNames(DropSameName(list, lower))
  {
    if list != [] {
      DropSameNameUnique(list[1..], lower);
      var rest := DropSameName(list[1..], lower);
      if !SameName(list[0], lower) {
        var r := [list[0]] + rest;
        forall i, j | 0 <= i < j < |r| && r[i].Record? && r[j].Record?
          ensures ToLowerCase(NameOf(r[i])) != ToLowerCase(NameOf(r[j]))
        {
          assert r[j] == rest[j - 1];
          if i == 0 {
            assert rest[j - 1] in rest;
            HeadUnique(list, r[j]);
          } else {
            assert r[i] == rest[i - 1];
          }
        }
      }
    }
  }

  /** In a list with unique names, the head's name is no later entry's. */
  lemma HeadUnique(list: seq<Entry>, x: Entry)
    requires UniqueNames(list) && list != [] && x in list[1..]
    requires list[0].Record? && x.Record?
    ensures ToLowerCase(NameOf(list[0])) != ToLowerCase(NameOf(x))
  {
    var k :| 0 <= k < |list[1..]| && list[1..][k] == x;
    assert list[k + 1] == x;
  }

  /** The check comes before the strip: a name of two characters can be
      stored as one. */
  lemma {:induction false} ShortNameStored(now: int)
    ensures Posted([], "a#", now) == Some([Record(Some("a"), Some(now))])
  {
    var s := "a#";
    assert !IsJsSpace('a') && !IsJsSpace('#');
    assert Trimmed(s);
    TrimOf([], s, []);
    assert [] + s + [] == s;
    assert Checked(s) == s;
    assert IsNameChar('a') && !IsNameChar('#');
    assert StripNonNameChars(s[1..]) == [] by { assert s[1..][1..] == []; }
    assert Stored(s) == "a";
    assert ValidUsername(s);
    assert DropSameName([], ToLowerCase("a")) == [];
    var e := Record(Some("a"), Some(now));
    assert Posted([], s, now) == Some(DropSameName([], ToLowerCase("a")) + [e]);
    assert [] + [e] == [e];
  }

  // ---------------------------------------------------------------------
  // The stored list
  // ---------------------------------------------------------------------

  /** `all.json` of the `usernames` store. */
  class Directory {
    var list: seq<Entry>

    constructor ()
      ensures list == []
    {
      list := [];
    }

    /** GET: the twenty newest entries, newest first; nothing is written. */
    method Get() returns (recent: seq<Entry>)
      ensures |recent| == Min(20, |list|)
      ensures recent == SortNewestFirst(list)[..|recent|]
      ensures NewestFirst(recent)
      ensures multiset(recent) <= multiset(list)
    {
      var sorted := SortNewestFirst(list);
      SortIsNewestFirst(list);
      recent := sorted[..Min(20, |sorted|)];
      assert sorted == recent + sorted[|recent|..];
      assert multiset(sorted) == multiset(recent) + multiset(sorted[|recent|..]);
    }

    /** POST: `ok` is false for the 400 answer, which leaves the list as it
        was. */
    method Post(username: string, now: int) returns (ok: bool)
      modifies this
      ensures ok <==> Posted(old(list), username, now).Some?
      ensures ok ==> list == Posted(old(list), username, now).value
      ensures !ok ==> list == old(list)
    {
      var name := Trim(username);
      if name == "" || |name| < 2 || |name| > 30 {
        return false;
      }
      name := StripNonNameChars(name);
      var lower := ToLowerCase(name);
      list := DropSameName(list, lower);
      list := list + [Record(Some(name), Some(now))];
      ok := true;
    }
  }
}
