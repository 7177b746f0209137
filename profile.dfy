/** The `sync` action of the profile handler: the session gate, then the
    offline XP a player earned since the last sync, with its bounded
    level-up loop.

    The clock (`Date.now()`) is the parameter `now`, in milliseconds. */
module Profile {
  import opened JsValues
  import opened Auth

  // ---------------------------------------------------------------------
  // The rates and the clock reading of a player document
  // ---------------------------------------------------------------------

  /** The most level-ups one sync applies. */
  const MaxLoops := 100000

  /** `Number(p.perLevel) || 100`. */
  function PerLevel(p: Player): (r: int)
    ensures p.perLevel.None? || p.perLevel == Some(0) ==> r == 100
    ensures r != 0
  {
    OrElse(p.perLevel, 100)
  }

  /** `Number(p.perSec) || 1`. */
  function PerSec(p: Player): (r: int)
    ensures p.perSec.None? || p.perSec == Some(0) ==> r == 1
    ensures r != 0
  {
    OrElse(p.perSec, 1)
  }

  /** `Number(p.lastXpAt || p.createdAt || now)`: the last accrual, else the
      creation, else the present. */
  function LastAt(p: Player, now: int): (t: int)
    ensures p.lastXpAt.Some? && p.lastXpAt.value != 0 ==> t == p.lastXpAt.value
    ensures (p.lastXpAt.None? || p.lastXpAt == Some(0)) && p.createdAt.Some? && p.createdAt.value != 0
            ==> t == p.createdAt.value
    ensures (p.lastXpAt.None? || p.lastXpAt == Some(0)) && (p.createdAt.None? || p.createdAt == Some(0))
            ==> t == now
  {
    OrElse(p.lastXpAt, OrElse(p.createdAt, now))
  }

  /** `Math.max(0, Math.floor((now - lastAt) / 1000))`: whole seconds since
      the last accrual, never negative. */
  function ElapsedSec(p: Player, now: int): (d: nat)
    ensures d > 0 <==> now - LastAt(p, now) >= 1000
    ensures d * 1000 <= (if now >= LastAt(p, now) then now - LastAt(p, now) else 0) < d * 1000 + 1000
  {
    var q := (now - LastAt(p, now)) / 1000;
    if q < 0 then 0 else q
  }

  // ---------------------------------------------------------------------
  // The level-up loop as a function
  // ---------------------------------------------------------------------

  /** How many times the loop `while (xp >= perLevel && loops < 100000)`
      runs when it starts with `xp` after `loops` rounds. */
  function StepsFrom(xp: int, perLevel: int, loops: nat): (n: nat)
    requires loops <= MaxLoops
    ensures loops <= n <= MaxLoops
    decreases MaxLoops - loops
  {
    if xp >= perLevel && loops < MaxLoops then StepsFrom(xp - perLevel, perLevel, loops + 1) else loops
  }

  function Steps(xp: int, perLevel: int): nat {
    StepsFrom(xp, perLevel, 0)
  }

  /** `p.level = Number(p.level || 1) + 1`: a missing or zero level counts
      as 1. */
  function Bump(level: Option<int>): (r: Option<int>)
    ensures r.Some? && r.value == OrElse(level, 1) + 1
  {
    Some(OrElse(level, 1) + 1)
  }

  /** The level after `n` level-ups. */
  function LevelAfter(level: Option<int>, n: nat): Option<int>
    decreases n
  {
    if n == 0 then level else LevelAfter(Bump(level), n - 1)
  }

  /** The XP, the level and the loop counter of the level-up loop. */
  datatype Progress = Progress(xp: int, level: Option<int>, loops: nat)

  /** The level-up loop run to its end from `xp`, `level` and `loops`. */
  function Drain(xp: int, level: Option<int>, perLevel: int, loops: nat): (r: Progress)
    requires loops <= MaxLoops
    ensures r.loops == StepsFrom(xp, perLevel, loops)
    decreases MaxLoops - loops
  {
    if xp >= perLevel && loops < MaxLoops then Drain(xp - perLevel, Bump(level), perLevel, loops + 1)
    else Progress(xp, level, loops)
  }

  /** The XP before the loop: the stored XP plus that of the elapsed
      seconds. */
  function Earned(p: Player, now: int): int {
    OrElse(p.xp, 0) + ElapsedSec(p, now) * PerSec(p)
  }

  /** The document after a sync at `now`. When no whole second has passed,
      it is returned as it was; otherwise the XP of the elapsed seconds is
      added, the clock reading moves to `now`, and the loop turns XP into
      levels. */
  function Accrued(p: Player, now: int): (q: Player)
    ensures ElapsedSec(p, now) == 0 ==> q == p
    ensures ElapsedSec(p, now) > 0 ==> q.lastXpAt == Some(now) && q.updatedAt == Some(now) && q.xp.Some?
    ensures q.uid == p.uid && q.name == p.name && q.createdAt == p.createdAt
    ensures q.perLevel == p.perLevel && q.perSec == p.perSec
  {
    if ElapsedSec(p, now) == 0 then p
    else
      var r := Drain(Earned(p, now), p.level, PerLevel(p), 0);
      p.(xp := Some(r.xp), lastXpAt := Some(now), level := r.level, updatedAt := Some(now))
  }

  // ---------------------------------------------------------------------
  // The loop in closed form
  // ---------------------------------------------------------------------

  function Max(a: int, b: int): int { if a <= b then b else a }

  /** With a positive `perLevel` the loop runs `xp div perLevel` more times,
      up to the cap; with a negative one XP only grows, so once it starts
      it runs to the cap. */
  lemma {:induction false} StepsFromClosedForm(xp: int, perLevel: int, loops: nat)
    requires loops <= MaxLoops
    ensures perLevel > 0 ==> StepsFrom(xp, perLevel, loops) == Min(MaxLoops, loops + Max(0, xp / perLevel))
    ensures perLevel <= 0 ==> StepsFrom(xp, perLevel, loops) == if xp >= perLevel then MaxLoops else loops
    decreases MaxLoops - loops
  {
    if xp >= perLevel && loops < MaxLoops {
      StepsFromClosedForm(xp - perLevel, perLevel, loops + 1);
      if perLevel > 0 {
        DivSubOne(xp, perLevel);
        DivAtLeastOne(xp, perLevel);
      }
    } else if perLevel > 0 && xp < perLevel {
      DivBelowOne(xp, perLevel);
    }
  }

  /** `x div b` is the `q` with `x == q * b + r` and `0 <= r < b`. */
  lemma {:induction false} DivIs(x: int, b: int, q: int, r: int)
    requires b > 0 && 0 <= r < b && x == q * b + r
    ensures x / b == q && x % b == r
  {
    var q', r' := x / b, x % b;
    assert x == q' * b + r';
    assert (q - q') * b == r' - r;
    if q - q' >= 1 {
      MulAtLeast(q - q', b);
    } else if q' - q >= 1 {
      MulAtLeast(q' - q, b);
    }
  }

  lemma {:induction false} MulAtLeast(k: int, b: int)
    requires k >= 1 && b > 0
    ensures k * b >= b
  {
    assert k * b == (k - 1) * b + b;
  }

  lemma {:induction false} DivSubOne(x: int, b: int)
    requires b > 0
    ensures (x - b) / b == x / b - 1
  {
    var q, r := x / b, x % b;
    assert x - b == (q - 1) * b + r;
    DivIs(x - b, b, q - 1, r);
  }

  lemma {:induction false} DivAtLeastOne(x: int, b: int)
    requires b > 0 && x >= b
    ensures x / b >= 1
  {
  }

  lemma {:induction false} DivBelowOne(x: int, b: int)
    requires b > 0 && x < b
    ensures x / b <= 0
  {
    var q, r := x / b, x % b;
    if q >= 1 {
      MulAtLeast(q, b);
    }
  }

  lemma {:induction false} Remainder(x: int, b: int)
    requires b > 0
    ensures 0 <= x - (x / b) * b < b
    ensures x - (x / b) * b == x % b
  {
    assert x == (x / b) * b + x % b;
  }

  /** The loop takes `perLevel` off the XP and adds a level once per round. */
  lemma {:induction false} DrainClosedForm(xp: int, level: Option<int>, perLevel: int, loops: nat)
    requires loops <= MaxLoops
    ensures var n := StepsFrom(xp, perLevel, loops) - loops;
      Drain(xp, level, perLevel, loops)
        == Progress(xp - n * perLevel, LevelAfter(level, n), StepsFrom(xp, perLevel, loops))
    decreases MaxLoops - loops
  {
    if xp >= perLevel && loops < MaxLoops {
      DrainClosedForm(xp - perLevel, Bump(level), perLevel, loops + 1);
      var n := StepsFrom(xp, perLevel, loops) - loops;
      assert n >= 1;
      assert (xp - perLevel) - (n - 1) * perLevel == xp - n * perLevel;
    }
  }

  /** Without the cap, the loop computes quotient and remainder. */
  lemma {:induction false} StepsDivMod(xp: int, perLevel: int)
    requires perLevel > 0 && xp >= 0 && xp / perLevel <= MaxLoops
    ensures Steps(xp, perLevel) == xp / perLevel
    ensures xp - Steps(xp, perLevel) * perLevel == xp % perLevel
  {
    StepsQuotient(xp, perLevel);
    Remainder(xp, perLevel);
  }

  lemma {:induction false} StepsQuotient(xp: int, perLevel: int)
    requires perLevel > 0 && xp >= 0 && xp / perLevel <= MaxLoops
    ensures Steps(xp, perLevel) == xp / perLevel
  {
    StepsFromClosedForm(xp, perLevel, 0);
    assert Max(0, xp / perLevel) == xp / perLevel;
  }

  /** When the loop stops before the cap, less than a level's worth of XP
      is left; from a non-negative start, none of it is negative. */
  lemma {:induction false} StepsShortOfCap(xp: int, perLevel: int)
    requires perLevel > 0 && Steps(xp, perLevel) < MaxLoops
    ensures xp - Steps(xp, perLevel) * perLevel < perLevel
    ensures xp >= 0 ==> xp - Steps(xp, perLevel) * perLevel >= 0
  {
    StepsFromClosedForm(xp, perLevel, 0);
    var n := Steps(xp, perLevel);
    if xp >= perLevel {
      DivAtLeastOne(xp, perLevel);
      var q := xp / perLevel;
      assert Max(0, q) == q;
      assert n == q;
      Remainder(xp, perLevel);
    } else {
      DivBelowOne(xp, perLevel);
      assert n == 0;
    }
  }

  /** At the cap the loop can stop with a whole level's XP or more left. */
  lemma {:induction false} CapLeavesLevelsUnspent(xp: int, perLevel: int)
    requires perLevel > 0 && xp >= (MaxLoops + 1) * perLevel
    ensures Steps(xp, perLevel) == MaxLoops
    ensures xp - Steps(xp, perLevel) * perLevel >= perLevel
  {
    StepsFromClosedForm(xp, perLevel, 0);
    var y := xp - MaxLoops * perLevel;
    assert y >= perLevel;
    DivSubMany(xp, perLevel, MaxLoops);
    DivAtLeastOne(y, perLevel);
  }

  lemma {:induction false} DivSubMany(x: int, b: int, k: int)
    requires b > 0
    ensures (x - k * b) / b == x / b - k
  {
    var q, r := x / b, x % b;
    assert x - k * b == (q - k) * b + r;
    DivIs(x - k * b, b, q - k, r);
  }

  /** Each level-up adds one to the effective level, `level || 1`, except
      that a level of -1 becomes 0, which counts as 1. */
  lemma {:induction false} LevelAfterClosedForm(level: Option<int>, n: nat)
    requires OrElse(level, 1) >= 0
    ensures n > 0 ==> LevelAfter(level, n) == Some(OrElse(level, 1) + n)
    ensures OrElse(LevelAfter(level, n), 1) == OrElse(level, 1) + n
    decreases n
  {
    if n > 0 {
      LevelAfterClosedForm(Bump(level), n - 1);
    }
  }

  /** The effective level never goes down, whatever is stored. */
  lemma {:induction false} LevelAfterMonotone(level: Option<int>, n: nat)
    ensures OrElse(LevelAfter(level, n), 1) >= OrElse(level, 1)
    decreases n
  {
    if n > 0 {
      LevelAfterMonotone(Bump(level), n - 1);
    }
  }

  // ---------------------------------------------------------------------
  // What a sync promises
  // ---------------------------------------------------------------------

  /** Less than a whole second since the last accrual (the same second, or
      a clock that went backwards) leaves the document as it was. */
  lemma {:induction false} NoTimeNoChange(p: Player, now: int)
    requires now - LastAt(p, now) < 1000
    ensures Accrued(p, now) == p
  {
  }

  /** When time has passed the clock reading moves forward to `now`, and
      only the XP, the level and the two timestamps change. */
  lemma {:induction false} AccrualMovesClock(p: Player, now: int)
    requires ElapsedSec(p, now) > 0
    ensures Accrued(p, now).lastXpAt == Some(now) && Accrued(p, now).updatedAt == Some(now)
    ensures now > LastAt(p, now)
    ensures Accrued(p, now).(xp := p.xp, level := p.level, lastXpAt := p.lastXpAt, updatedAt := p.updatedAt) == p
  {
  }

  /** The effective level never goes down. */
  lemma {:induction false} AccrualKeepsLevel(p: Player, now: int)
    ensures OrElse(Accrued(p, now).level, 1) >= OrElse(p.level, 1)
  {
    if ElapsedSec(p, now) > 0 {
      var x0, pl := Earned(p, now), PerLevel(p);
      DrainClosedForm(x0, p.level, pl, 0);
      LevelAfterMonotone(p.level, Steps(x0, pl));
    }
  }

  /** Short of the cap, a sync turns the stored XP plus the XP of the
      elapsed seconds into levels and a remainder below one level. */
  lemma {:induction false} AccrualDivMod(p: Player, now: int)
    requires ElapsedSec(p, now) > 0 && PerLevel(p) > 0 && OrElse(p.level, 1) >= 0
    requires Earned(p, now) >= 0 && Earned(p, now) / PerLevel(p) <= MaxLoops
    ensures var q := Accrued(p, now);
      && OrElse(q.level, 1) == OrElse(p.level, 1) + Earned(p, now) / PerLevel(p)
      && q.xp == Some(Earned(p, now) % PerLevel(p))
      && 0 <= q.xp.value < PerLevel(p)
  {
    var x0, pl := Earned(p, now), PerLevel(p);
    DrainClosedForm(x0, p.level, pl, 0);
    StepsDivMod(x0, pl);
    LevelAfterClosedForm(p.level, Steps(x0, pl));
  }

  /** Short of the cap, less than one level of XP is left over, however
      large the rates; at the cap, a level's worth or more can be left. */
  lemma {:induction false} AccrualShortOfCap(p: Player, now: int)
    requires ElapsedSec(p, now) > 0 && PerLevel(p) > 0
    ensures var q := Accrued(p, now);
      Steps(Earned(p, now), PerLevel(p)) < MaxLoops ==> q.xp.value < PerLevel(p)
  {
    var x0, pl := Earned(p, now), PerLevel(p);
    DrainClosedForm(x0, p.level, pl, 0);
    if Steps(x0, pl) < MaxLoops {
      StepsShortOfCap(x0, pl);
    }
  }

  /** A second sync at the same moment finds no time elapsed and changes
      nothing (a clock reading of 0 would be falsy and is excluded). */
  lemma {:induction false} AccrualIdempotent(p: Player, now: int)
    requires now != 0
    ensures Accrued(Accrued(p, now), now) == Accrued(p, now)
  {
    var q := Accrued(p, now);
    if ElapsedSec(p, now) > 0 {
      assert LastAt(q, now) == now;
      NoTimeNoChange(q, now);
    }
  }

  /** A new player synced 250 seconds after creation, at the default rates:
      250 XP make two levels and leave 50. */
  lemma {:induction false} TwoHundredFiftySeconds(id: string, name: string, t: int)
    requires t != 0
    ensures var q := Accrued(NewPlayer(id, name, t), t + 250000);
      q.level == Some(3) && q.xp == Some(50) && q.lastXpAt == Some(t + 250000)
  {
    var p := NewPlayer(id, name, t);
    assert LastAt(p, t + 250000) == t;
    assert ElapsedSec(p, t + 250000) == 250;
    assert Earned(p, t + 250000) == 250;
    DrainClosedForm(250, p.level, 100, 0);
    StepsDivMod(250, 100);
    LevelAfterClosedForm(p.level, 2);
  }

  // ---------------------------------------------------------------------
  // The document as the handler mutates it
  // ---------------------------------------------------------------------

  /** The parsed `players/<uid>.json` object, whose fields the handler
      updates one by one. */
  class PlayerDoc {
    const uid: string
    const name: string
    var level: Option<int>
    var xp: Option<int>
    var perLevel: Option<int>
    var perSec: Option<int>
    var createdAt: Option<int>
    var lastXpAt: Option<int>
    var updatedAt: Option<int>

    function Snapshot(): Player
      reads this
    {
      Player(uid, name, level, xp, perLevel, perSec, createdAt, lastXpAt, updatedAt)
    }

    constructor (p: Player)
      ensures Snapshot() == p
    {
      uid, name := p.uid, p.name;
      level, xp, perLevel, perSec := p.level, p.xp, p.perLevel, p.perSec;
      createdAt, lastXpAt, updatedAt := p.createdAt, p.lastXpAt, p.updatedAt;
    }

    /** The level-up loop: while the XP covers a level and the cap is not
        reached, one level is gained and its XP spent. */
    method LevelUps(perLevel: int)
      modifies this
      requires xp.Some?
      ensures var r := Drain(old(xp).value, old(level), perLevel, 0); xp == Some(r.xp) && level == r.level
      ensures perSec == old(perSec) && this.perLevel == old(this.perLevel)
      ensures createdAt == old(createdAt) && lastXpAt == old(lastXpAt) && updatedAt == old(updatedAt)
    {
      var loops := 0;
      while xp.value >= perLevel && loops < MaxLoops
        invariant 0 <= loops <= MaxLoops && xp.Some?
        invariant Drain(xp.value, level, perLevel, loops) == Drain(old(xp).value, old(level), perLevel, 0)
        invariant perSec == old(perSec) && this.perLevel == old(this.perLevel)
        invariant createdAt == old(createdAt) && lastXpAt == old(lastXpAt) && updatedAt == old(updatedAt)
        decreases MaxLoops - loops
      {
        level := Some(OrElse(level, 1) + 1);
        xp := Some(xp.value - perLevel);
        loops := loops + 1;
      }
    }

    /** Applies the offline progress; `wrote` tells whether the handler
        stores the document again. */
    method Accrue(now: int) returns (wrote: bool)
      modifies this
      ensures wrote <==> ElapsedSec(old(Snapshot()), now) > 0
      ensures Snapshot() == Accrued(old(Snapshot()), now)
    {
      ghost var p := Snapshot();
      var doc := Snapshot();
      var perLevel := PerLevel(doc);
      var perSec := PerSec(doc);
      var lastAt := OrElse(lastXpAt, OrElse(createdAt, now));
      var deltaSec := (now - lastAt) / 1000;
      if deltaSec < 0 {
        deltaSec := 0;
      }
      wrote := deltaSec > 0;
      if deltaSec > 0 {
        var x0 := OrElse(xp, 0) + deltaSec * perSec;
        assert deltaSec == ElapsedSec(p, now) && x0 == Earned(p, now);
        xp := Some(x0);
        lastXpAt := Some(now);
        LevelUps(perLevel);
        updatedAt := Some(now);
      }
    }
  }

  // ---------------------------------------------------------------------
  // The sync action
  // ---------------------------------------------------------------------

  /** The answers of `sync`: 401, 404, or the player's state. */
  datatype SyncReply =
    | Unauthorized
    | NoPlayerData
    | Synced(name: string, level: int, xp: int, perLevel: int, perSec: int, serverTime: int)

  /** The session the cookie names, looked up as an own entry of the
      sessions table; expiry is not checked. */
  function SessionOf(sessions: map<string, Session>, sid: Option<string>): (s: Option<Session>)
    ensures s.Some? <==> sid.Some? && sid.value in sessions
    ensures s.Some? ==> s.value == sessions[sid.value]
  {
    if sid.Some? && sid.value in sessions then Some(sessions[sid.value]) else None
  }

  /** What `sync` answers for the session id `sid`, and the player
      documents afterwards. */
  function SyncOutcome(sessions: map<string, Session>, players: map<string, Player>, sid: Option<string>,
                       now: int): (r: (SyncReply, map<string, Player>))
    ensures r.0 == Unauthorized <==> sid.None? || sid.value !in sessions
    ensures r.1.Keys == players.Keys
  {
    var s := SessionOf(sessions, sid);
    if s.None? then (Unauthorized, players)
    else if s.value.uid !in players then (NoPlayerData, players)
    else
      var p := players[s.value.uid];
      var q := Accrued(p, now);
      (Synced(p.name, OrElse(q.level, 1), OrElse(q.xp, 0), PerLevel(p), PerSec(p), now),
       if ElapsedSec(p, now) > 0 then players[s.value.uid := q] else players)
  }

  /** The gate answers 401 exactly when the cookie names no stored
      session; past it, only the session's own document can change, and it
      changes exactly when at least a second has passed. */
  lemma {:induction false} SyncGate(sessions: map<string, Session>, players: map<string, Player>,
                                    sid: Option<string>, now: int)
    ensures var (r, after) := SyncOutcome(sessions, players, sid, now);
      && (r == Unauthorized <==> sid.None? || sid.value !in sessions)
      && (r == NoPlayerData <==> sid.Some? && sid.value in sessions && sessions[sid.value].uid !in players)
      && after.Keys == players.Keys
      && (forall uid :: uid in players && (r != Unauthorized ==> uid != sessions[sid.value].uid)
            ==> after[uid] == players[uid])
      && (r.Synced? ==> var uid := sessions[sid.value].uid;
            after[uid] == Accrued(players[uid], now)
            && (after[uid] != players[uid] ==> ElapsedSec(players[uid], now) > 0))
  {
    var s := SessionOf(sessions, sid);
    if s.Some? && s.value.uid in players {
      var p := players[s.value.uid];
      if ElapsedSec(p, now) == 0 {
        NoTimeNoChange(p, now);
      }
    }
  }

  /** The gate as written: `sessions[sid]` also finds what every plain
      object inherits, and the document read next is
      `players/${session.uid}.json`, where an inherited member has no `uid`
      and the key becomes `players/undefined.json`. */
  function GateUidAsWritten(sessions: map<string, Session>, sid: Option<string>): (uid: Option<string>)
    ensures uid.Some? <==> sid.Some? && (sid.value in sessions || sid.value in PrototypeMembers)
    ensures sid.Some? && sid.value in sessions ==> uid == Some(sessions[sid.value].uid)
  {
    if sid.None? then None
    else match GetProperty(sessions, sid.value)
      case Own(s) => Some(s.uid)
      case Inherited(_) => Some("undefined")
      case Undefined => None
  }

  /** A cookie `demo_session=constructor` passes the gate as written on a
      store with no sessions and reaches the document of the account
      registered as `undefined`; the modelled gate answers 401. */
  lemma {:induction false} ConstructorReachesUndefinedAsWritten(players: map<string, Player>, now: int)
    ensures var none: map<string, Session> := map[];
      && GateUidAsWritten(none, Some("constructor")) == Some("undefined")
      && SyncOutcome(none, players, Some("constructor"), now).0 == Unauthorized
    ensures ValidName(SanitizeName("undefined")) && ToId(SanitizeName("undefined")) == "undefined"
  {
    var u := "undefined";
    assert forall i :: 0 <= i < |u| ==> 'a' <= u[i] <= 'z';
    LowerCaseWord(u);
  }

  /** `sync`: the cookie must name a stored session (expired or not), the
      session's account must have a player document; the document accrues
      offline XP and is written back only when time has passed. */
  method Sync(store: AuthDemo, cookieHeader: string, dec: string -> string, now: int)
    returns (r: SyncReply)
    modifies store
    ensures store.users == old(store.users) && store.sessions == old(store.sessions)
    ensures (r, store.players)
            == SyncOutcome(old(store.sessions), old(store.players), GetSessionCookie(dec, cookieHeader), now)
  {
    var sid := GetSessionCookie(dec, cookieHeader);
    r := SyncSession(store, sid, now);
  }

  /** The part of `sync` after the cookie is read. */
  method SyncSession(store: AuthDemo, sid: Option<string>, now: int) returns (r: SyncReply)
    modifies store
    ensures store.users == old(store.users) && store.sessions == old(store.sessions)
    ensures (r, store.players) == SyncOutcome(old(store.sessions), old(store.players), sid, now)
  {
    var session := SessionOf(store.sessions, sid);
    if session.None? {
      return Unauthorized;
    }
    var uid := session.value.uid;
    if uid !in store.players {
      return NoPlayerData;
    }
    var doc := new PlayerDoc(store.players[uid]);
    var wrote := doc.Accrue(now);
    if wrote {
      store.players := store.players[uid := doc.Snapshot()];
    }
    r := Synced(doc.name, OrElse(doc.level, 1), OrElse(doc.xp, 0), PerLevel(doc.Snapshot()),
                PerSec(doc.Snapshot()), now);
  }
}
