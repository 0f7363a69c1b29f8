/** The two five-second timers of wave_defence/WaveDefence.cpp: GameTimer
    starts games that have not started, WaveTimer starts the next wave of
    every queued system. Both go through NewWave, which ends the game
    instead when the npc or solar spawner plugin is unreachable (`ipc`
    false). */
module WaveTimers {
  import opened SeqUtil
  import opened WaveState
  import opened WaveFlow

  /** Every game's wave index is one `waves.at` accepts. */
  predicate Ranged(games: seq<Game>)
  {
    forall g | g in games :: g.waveNumber < |g.system.waves|
  }

  /** Everything of a game except its spawn lists and started flag. */
  predicate Keeps(g: Game, h: Game)
  {
    && h.system == g.system
    && h.members == g.members
    && h.groupId == g.groupId
    && h.waveNumber == g.waveNumber
  }

  /** `h` is `g` after `times` runs of NewWave on the same wave: the old
      spawn ids kept in front, followed by `times` waves' worth of new ones. */
  predicate Grown(g: Game, h: Game, times: nat, multiplier: nat)
  {
    && Keeps(g, h)
    && g.waveNumber < |g.system.waves|
    && var w := g.system.waves[g.waveNumber];
       && |h.spawnedNpcs| == |g.spawnedNpcs| + times * NpcCount(w, multiplier)
       && |h.spawnedSolars| == |g.spawnedSolars| + times * |w.solars|
       && h.spawnedNpcs[..|g.spawnedNpcs|] == g.spawnedNpcs
       && h.spawnedSolars[..|g.spawnedSolars|] == g.spawnedSolars
  }

  lemma GrownRefl(g: Game, multiplier: nat)
    requires g.waveNumber < |g.system.waves|
    ensures Grown(g, g, 0, multiplier)
  {
  }

  lemma GrownTrans(a: Game, b: Game, c: Game, s: nat, t: nat, multiplier: nat)
    requires Grown(a, b, s, multiplier) && Grown(b, c, t, multiplier)
    ensures Grown(a, c, s + t, multiplier)
  {
    var w := a.system.waves[a.waveNumber];
    var n := NpcCount(w, multiplier);
    assert s * n + t * n == (s + t) * n;
    assert s * |w.solars| + t * |w.solars| == (s + t) * |w.solars|;
    assert c.spawnedNpcs[..|b.spawnedNpcs|][..|a.spawnedNpcs|] == c.spawnedNpcs[..|a.spawnedNpcs|];
    assert c.spawnedSolars[..|b.spawnedSolars|][..|a.spawnedSolars|] == c.spawnedSolars[..|a.spawnedSolars|];
  }

  /** One NewWave grows a game by one wave. */
  lemma NewWaveGrows(g: Game, multiplier: nat, spawner: nat -> SpawnId, next: nat)
    requires g.waveNumber < |g.system.waves|
    ensures Grown(g, NewWave(g, multiplier, spawner, next).0, 1, multiplier)
  {
    var h := NewWave(g, multiplier, spawner, next).0;
    assert h.spawnedNpcs[..|g.spawnedNpcs|] == g.spawnedNpcs;
    assert h.spawnedSolars[..|g.spawnedSolars|] == g.spawnedSolars;
  }

  /** `g` flagged started and given its wave from the calls numbered `at` on. */
  function Spawned(g: Game, multiplier: nat, spawner: nat -> SpawnId, at: nat): Game
  {
    WithWave(g.(started := true), multiplier, spawner, at)
  }

  /** The games after a timer pass and the next spawner call number. */
  datatype Tick = Tick(games: seq<Game>, next: nat)

  // ---------------------------------------------------------------------------
  // GameTimer

  /** One pass of GameTimer's loop on one game: what is left of it (None:
      NewWave ended it) and the next spawner call number. */
  function StartOne(g: Game, ipc: bool, multiplier: nat, spawner: nat -> SpawnId, next: nat): (r: (Option<Game>, nat))
    requires !g.started ==> g.waveNumber < |g.system.waves|
    ensures g.started ==> r == (Some(g), next)
    ensures !g.started && !ipc ==> r == (None, next)
    ensures !g.started && ipc ==> r.0.Some? && r.0.value.started && Grown(g, r.0.value, 1, multiplier)
    ensures !g.started && ipc ==> r.0 == Some(Spawned(g, multiplier, spawner, next))
    ensures r.1 == next + if !g.started && ipc then WaveCalls(g, multiplier) else 0
  {
    if g.started then (Some(g), next)
    else if !ipc then (None, next)
    else
      NewWaveGrows(g.(started := true), multiplier, spawner, next);
      var (h, n) := NewWave(g.(started := true), multiplier, spawner, next);
      (Some(h), n)
  }

  /** The spawner calls GameTimer makes, with the spawners reachable, on the
      first `k` games: one NewWave for each of them that has not started. */
  function CallsBefore(games: seq<Game>, k: nat, multiplier: nat): nat
    requires k <= |games|
  {
    if k == 0 then 0
    else (if games[0].started then 0 else WaveCalls(games[0], multiplier)) + CallsBefore(games[1..], k - 1, multiplier)
  }

  /** GameTimer's loop over a snapshot of `games`: a game not yet started is
      flagged started and gets NewWave; if the spawners are unreachable
      NewWave ends it, which drops it (the source erases it from the vector
      it is iterating). Started games are left alone. */
  function StartAll(games: seq<Game>, ipc: bool, multiplier: nat, spawner: nat -> SpawnId, next: nat): (r: Tick)
    requires forall g | g in games && !g.started :: g.waveNumber < |g.system.waves|
    ensures forall g | g in r.games :: g.started
    ensures !ipc ==> r.next == next && forall g :: g in r.games <==> g in games && g.started
    ensures ipc ==> |r.games| == |games| && r.next == next + CallsBefore(games, |games|, multiplier)
    decreases |games|
  {
    if |games| == 0 then Tick([], next)
    else
      assert games[0] in games;
      assert forall x | x in games[1..] :: x in games;
      var x := StartOne(games[0], ipc, multiplier, spawner, next);
      var rest := StartAll(games[1..], ipc, multiplier, spawner, x.1);
      var r := Tick(OptSeq(x.0) + rest.games, rest.next);
      assert !ipc ==> forall g :: g in r.games <==> g in games && g.started by {
        if !ipc {
          assert games == [games[0]] + games[1..];
        }
      }
      r
  }

  /** With the spawners reachable, GameTimer keeps every game in place:
      a started game is unchanged, any other is started with one wave
      spawned. */
  lemma {:induction false} StartAllReachable(games: seq<Game>, multiplier: nat, spawner: nat -> SpawnId, next: nat)
    requires forall g | g in games && !g.started :: g.waveNumber < |g.system.waves|
    ensures var r := StartAll(games, true, multiplier, spawner, next).games;
      forall k | 0 <= k < |games| ::
        if games[k].started then r[k] == games[k]
        else r[k].started && Grown(games[k], r[k], 1, multiplier)
    decreases |games|
  {
    if |games| > 0 {
      assert games[0] in games;
      assert forall x | x in games[1..] :: x in games;
      var x := StartOne(games[0], true, multiplier, spawner, next);
      var rest := StartAll(games[1..], true, multiplier, spawner, x.1).games;
      StartAllReachable(games[1..], multiplier, spawner, x.1);
      var r := StartAll(games, true, multiplier, spawner, next).games;
      assert r == [x.0.value] + rest;
      forall k | 0 <= k < |games|
        ensures if games[k].started then r[k] == games[k]
          else r[k].started && Grown(games[k], r[k], 1, multiplier)
      {
        if k > 0 {
          assert r[k] == rest[k - 1] && games[k] == games[1..][k - 1];
        }
      }
    }
  }

  /** A pass over one game is that game's loop step. */
  lemma StartAllOne(g: Game, ipc: bool, multiplier: nat, spawner: nat -> SpawnId, next: nat)
    requires !g.started ==> g.waveNumber < |g.system.waves|
    ensures var x := StartOne(g, ipc, multiplier, spawner, next);
      StartAll([g], ipc, multiplier, spawner, next) == Tick(OptSeq(x.0), x.1)
  {
    assert [g][1..] == [];
  }

  /** The loop's first step: the first game's pass, then the rest from the
      counter it leaves. */
  lemma StartAllCons(games: seq<Game>, ipc: bool, multiplier: nat, spawner: nat -> SpawnId, next: nat)
    requires forall g | g in games && !g.started :: g.waveNumber < |g.system.waves|
    requires |games| > 0
    ensures games[0] in games && forall g | g in games[1..] :: g in games
    ensures var x := StartOne(games[0], ipc, multiplier, spawner, next);
      var rest := StartAll(games[1..], ipc, multiplier, spawner, x.1);
      StartAll(games, ipc, multiplier, spawner, next) == Tick(OptSeq(x.0) + rest.games, rest.next)
  {
    assert games[0] in games;
  }

  /** The pass over `a + b` is the pass over `a`, then the pass over `b` from
      the counter `a` leaves: each game's wave takes the calls right after
      those of the games before it. */
  lemma {:induction false} StartAllAppend(a: seq<Game>, b: seq<Game>, ipc: bool, multiplier: nat, spawner: nat -> SpawnId, next: nat)
    requires forall g | g in a && !g.started :: g.waveNumber < |g.system.waves|
    requires forall g | g in b && !g.started :: g.waveNumber < |g.system.waves|
    ensures forall g | g in a + b && !g.started :: g.waveNumber < |g.system.waves|
    ensures var ra := StartAll(a, ipc, multiplier, spawner, next);
      var rb := StartAll(b, ipc, multiplier, spawner, ra.next);
      StartAll(a + b, ipc, multiplier, spawner, next) == Tick(ra.games + rb.games, rb.next)
    decreases |a|
  {
    assert forall g | g in a + b :: g in a || g in b;
    if |a| == 0 {
      assert a + b == b;
    } else {
      ConsAppend(a, b);
      StartAllCons(a, ipc, multiplier, spawner, next);
      StartAllCons(a + b, ipc, multiplier, spawner, next);
      var x := StartOne(a[0], ipc, multiplier, spawner, next);
      StartAllAppend(a[1..], b, ipc, multiplier, spawner, x.1);
      var r1 := StartAll(a[1..], ipc, multiplier, spawner, x.1);
      var rb := StartAll(b, ipc, multiplier, spawner, r1.next);
      AppendAssoc(OptSeq(x.0), r1.games, rb.games);
    }
  }

  /** With the spawners reachable, the game after the games `a` is passed
      exactly as StartOne passes it from the counter the games `a` leave,
      `next + CallsBefore(a, |a|, multiplier)`: its new ids are the calls
      right after those of every earlier game. */
  lemma StartAllAt(a: seq<Game>, g: Game, b: seq<Game>, multiplier: nat, spawner: nat -> SpawnId, next: nat)
    requires forall h | h in a && !h.started :: h.waveNumber < |h.system.waves|
    requires !g.started ==> g.waveNumber < |g.system.waves|
    requires forall h | h in b && !h.started :: h.waveNumber < |h.system.waves|
    ensures forall h | h in a + [g] + b && !h.started :: h.waveNumber < |h.system.waves|
    ensures |a| < |StartAll(a + [g] + b, true, multiplier, spawner, next).games|
    ensures Some(StartAll(a + [g] + b, true, multiplier, spawner, next).games[|a|])
      == StartOne(g, true, multiplier, spawner, StartAll(a, true, multiplier, spawner, next).next).0
  {
    assert forall h | h in [g] + b :: h == g || h in b;
    StartAllAppend(a, [g] + b, true, multiplier, spawner, next);
    assert a + [g] + b == a + ([g] + b);
    var ra := StartAll(a, true, multiplier, spawner, next);
    StartAllCons([g] + b, true, multiplier, spawner, ra.next);
    var rg := StartAll([g] + b, true, multiplier, spawner, ra.next);
    assert rg.games[0] == StartOne(g, true, multiplier, spawner, ra.next).0.value;
    var r := StartAll(a + [g] + b, true, multiplier, spawner, next);
    assert r.games == ra.games + rg.games;
    IndexAppend(ra.games, rg.games);
  }

  /** The outcome of a timer call. */
  datatype Timed = Timed(reg: Registry, next: nat)

  /** GameTimer: every game left has started; the pending list is untouched. */
  function GameTimer(reg: Registry, ipc: bool, multiplier: nat, spawner: nat -> SpawnId, next: nat): (r: Timed)
    requires forall g | g in reg.games && !g.started :: g.waveNumber < |g.system.waves|
    ensures forall g | g in r.reg.games :: g.started
    ensures r.reg.pending == reg.pending
    ensures !ipc ==> r.next == next && forall g :: g in r.reg.games <==> g in reg.games && g.started
    ensures ipc ==> r.next == next + CallsBefore(reg.games, |reg.games|, multiplier)
    ensures ipc ==> |r.reg.games| == |reg.games| && forall k | 0 <= k < |reg.games| ::
      if reg.games[k].started then r.reg.games[k] == reg.games[k]
      else r.reg.games[k].started && Grown(reg.games[k], r.reg.games[k], 1, multiplier)
  {
    var t := StartAll(reg.games, ipc, multiplier, spawner, next);
    StartAllReachable(reg.games, multiplier, spawner, next);
    Timed(Registry(t.games, reg.pending), t.next)
  }

  /** GameTimer keeps the registry invariant. */
  lemma {:induction false} StartAllShrinks(games: seq<Game>, ipc: bool, multiplier: nat, spawner: nat -> SpawnId, next: nat)
    requires forall g | g in games :: Live(g)
    ensures forall g | g in games && !g.started :: g.waveNumber < |g.system.waves|
    ensures Shrinks(games, StartAll(games, ipc, multiplier, spawner, next).games)
    decreases |games|
  {
    assert forall g | g in games :: Live(g) && g.waveNumber < |g.system.waves|;
    if |games| > 0 {
      var g := games[0];
      assert g in games;
      assert forall x | x in games[1..] :: x in games;
      var res := StartAll(games, ipc, multiplier, spawner, next).games;
      var x := StartOne(g, ipc, multiplier, spawner, next);
      var rest := StartAll(games[1..], ipc, multiplier, spawner, x.1).games;
      StartAllShrinks(games[1..], ipc, multiplier, spawner, x.1);
      if x.0.Some? {
        assert Refines(g, x.0.value);
        assert res[0] == x.0.value && res[1..] == rest;
      } else {
        assert res == rest;
      }
    }
  }

  lemma GameTimerValid(reg: Registry, ipc: bool, multiplier: nat, spawner: nat -> SpawnId, next: nat)
    requires Valid(reg)
    ensures forall g | g in reg.games && !g.started :: g.waveNumber < |g.system.waves|
    ensures Valid(GameTimer(reg, ipc, multiplier, spawner, next).reg)
  {
    StartAllShrinks(reg.games, ipc, multiplier, spawner, next);
    ShrinksValid(reg.games, StartAll(reg.games, ipc, multiplier, spawner, next).games);
  }

  // ---------------------------------------------------------------------------
  // WaveTimer

  /** One pending system: NewWave on the first game in it. A system with no
      game is skipped (the source dereferences the end iterator there, which
      is undefined; this model does nothing instead). */
  function Advance(games: seq<Game>, sid: SystemId, ipc: bool, multiplier: nat, spawner: nat -> SpawnId, next: nat): (r: Tick)
    requires Ranged(games)
    ensures Ranged(r.games)
    ensures !ipc ==> r.next == next && forall g :: g in r.games <==> g in games && g.Sid() != sid
    ensures ipc ==> |r.games| == |games|
    ensures ipc ==> forall k | 0 <= k < |games| ::
      r.games[k].started == games[k].started &&
      if games[k].Sid() == sid && FindGame(games, sid) == Some(k)
      then Grown(games[k], r.games[k], 1, multiplier)
      else r.games[k] == games[k]
    ensures FindGame(games, sid).None? ==> r == Tick(games, next)
    ensures ipc && FindGame(games, sid).Some? ==>
      r.next == next + WaveCalls(games[FindGame(games, sid).value], multiplier)
  {
    match FindGame(games, sid)
    case None =>
      assert forall g | g in games :: g.Sid() != sid;
      Tick(games, next)
    case Some(i) =>
      assert games[i] in games;
      if !ipc then
        WithoutMembers(games, sid);
        Tick(Without(games, sid), next)
      else
        var (h, n) := NewWave(games[i], multiplier, spawner, next);
        NewWaveGrows(games[i], multiplier, spawner, next);
        assert forall g | g in games[i := h] :: g in games || g == h;
        Tick(games[i := h], n)
  }

  /** With the spawners reachable, the first game of the system gets its
      wave's ids from the calls numbered `next` on; nothing else changes. */
  lemma AdvanceIds(games: seq<Game>, sid: SystemId, multiplier: nat, spawner: nat -> SpawnId, next: nat)
    requires Ranged(games) && FindGame(games, sid).Some?
    ensures var i := FindGame(games, sid).value;
      Advance(games, sid, true, multiplier, spawner, next).games
        == games[i := WithWave(games[i], multiplier, spawner, next)]
  {
    var i := FindGame(games, sid).value;
    assert games[i] in games;
  }

  /** WaveTimer's loop over the pending list, in order; duplicates in the
      list start the wave once per occurrence. */
  function AdvanceAll(games: seq<Game>, pending: seq<SystemId>, ipc: bool, multiplier: nat, spawner: nat -> SpawnId, next: nat): (r: Tick)
    requires Ranged(games)
    ensures Ranged(r.games)
    ensures !ipc ==> r.next == next && forall g :: g in r.games <==> g in games && g.Sid() !in pending
    ensures ipc ==> |r.games| == |games|
    decreases |pending|
  {
    if |pending| == 0 then Tick(games, next)
    else
      var t := Advance(games, pending[0], ipc, multiplier, spawner, next);
      assert pending == [pending[0]] + pending[1..];
      AdvanceAll(t.games, pending[1..], ipc, multiplier, spawner, t.next)
  }

  /** The spawner calls WaveTimer makes with the spawners reachable: one
      NewWave on the first game of each queued system that has a game, once
      per occurrence in the queue. */
  function QueueCalls(games: seq<Game>, pending: seq<SystemId>, multiplier: nat): nat
  {
    if |pending| == 0 then 0
    else
      (match FindGame(games, pending[0])
       case None => 0
       case Some(i) => WaveCalls(games[i], multiplier))
      + QueueCalls(games, pending[1..], multiplier)
  }

  /** Same systems and wave numbers, position by position. */
  predicate SameShape(a: seq<Game>, b: seq<Game>)
  {
    |a| == |b| && forall k | 0 <= k < |a| :: a[k].system == b[k].system && a[k].waveNumber == b[k].waveNumber
  }

  lemma {:induction false} FindGameShape(a: seq<Game>, b: seq<Game>, sid: SystemId)
    requires SameShape(a, b)
    ensures FindGame(a, sid) == FindGame(b, sid)
    decreases |a|
  {
    if |a| > 0 {
      assert SameShape(a[1..], b[1..]) by {
        forall k | 0 <= k < |a| - 1
          ensures a[1..][k].system == b[1..][k].system && a[1..][k].waveNumber == b[1..][k].waveNumber
        {
          assert a[1..][k] == a[k + 1] && b[1..][k] == b[k + 1];
        }
      }
      FindGameShape(a[1..], b[1..], sid);
    }
  }

  /** The call count of a queue depends only on the games' systems and wave
      numbers, which NewWave does not change. */
  lemma {:induction false} QueueCallsShape(a: seq<Game>, b: seq<Game>, pending: seq<SystemId>, multiplier: nat)
    requires SameShape(a, b)
    ensures QueueCalls(a, pending, multiplier) == QueueCalls(b, pending, multiplier)
    decreases |pending|
  {
    if |pending| > 0 {
      FindGameShape(a, b, pending[0]);
      QueueCallsShape(a, b, pending[1..], multiplier);
    }
  }

  /** With the spawners reachable, WaveTimer advances the call counter by
      exactly the calls of the NewWaves it starts, one queue entry after the
      other, so each wave's ids come from calls no other wave uses. */
  lemma {:induction false} AdvanceAllCalls(games: seq<Game>, pending: seq<SystemId>, multiplier: nat, spawner: nat -> SpawnId, next: nat)
    requires Ranged(games)
    ensures AdvanceAll(games, pending, true, multiplier, spawner, next).next == next + QueueCalls(games, pending, multiplier)
    decreases |pending|
  {
    if |pending| > 0 {
      var t := Advance(games, pending[0], true, multiplier, spawner, next);
      assert SameShape(games, t.games) by {
        forall k | 0 <= k < |games|
          ensures games[k].system == t.games[k].system && games[k].waveNumber == t.games[k].waveNumber
        {
          assert games[k] in games;
        }
      }
      AdvanceAllCalls(t.games, pending[1..], multiplier, spawner, t.next);
      QueueCallsShape(games, t.games, pending[1..], multiplier);
    }
  }

  /** A queue of one system is one Advance. */
  lemma AdvanceAllOne(games: seq<Game>, sid: SystemId, ipc: bool, multiplier: nat, spawner: nat -> SpawnId, next: nat)
    requires Ranged(games)
    ensures AdvanceAll(games, [sid], ipc, multiplier, spawner, next) == Advance(games, sid, ipc, multiplier, spawner, next)
  {
    var t := Advance(games, sid, ipc, multiplier, spawner, next);
    assert [sid][1..] == [];
    assert AdvanceAll(t.games, [], ipc, multiplier, spawner, t.next) == t;
  }

  /** The loop over `p + q` is the loop over `p`, then the loop over `q` on
      the games and from the counter `p` leaves: each queued system's wave
      takes the calls right after those of the entries before it. */
  lemma {:induction false} AdvanceAllAppend(games: seq<Game>, p: seq<SystemId>, q: seq<SystemId>, ipc: bool, multiplier: nat, spawner: nat -> SpawnId, next: nat)
    requires Ranged(games)
    ensures var t := AdvanceAll(games, p, ipc, multiplier, spawner, next);
      AdvanceAll(games, p + q, ipc, multiplier, spawner, next) == AdvanceAll(t.games, q, ipc, multiplier, spawner, t.next)
    decreases |p|
  {
    if |p| == 0 {
      assert p + q == q;
    } else {
      ConsAppend(p, q);
      var t := Advance(games, p[0], ipc, multiplier, spawner, next);
      AdvanceAllAppend(t.games, p[1..], q, ipc, multiplier, spawner, t.next);
    }
  }

  /** WaveTimer: the queued waves are started and the queue is emptied. */
  function WaveTimer(reg: Registry, ipc: bool, multiplier: nat, spawner: nat -> SpawnId, next: nat): (r: Timed)
    requires Ranged(reg.games)
    ensures r.reg.pending == []
    ensures !ipc ==> forall g :: g in r.reg.games <==> g in reg.games && g.Sid() !in reg.pending
    ensures ipc ==> |r.reg.games| == |reg.games|
    ensures !ipc ==> r.next == next
    ensures ipc ==> r.next == next + QueueCalls(reg.games, reg.pending, multiplier)
  {
    AdvanceAllCalls(reg.games, reg.pending, multiplier, spawner, next);
    var t := AdvanceAll(reg.games, reg.pending, ipc, multiplier, spawner, next);
    Timed(Registry(t.games, []), t.next)
  }

  /** One queued system with one game per system: that system's game grows
      by one wave, every other game is left as it was, and the systems stay
      unique. */
  lemma AdvanceGrows(games: seq<Game>, sid: SystemId, multiplier: nat, spawner: nat -> SpawnId, next: nat)
    requires Ranged(games) && UniqueSystems(games)
    ensures var t := Advance(games, sid, true, multiplier, spawner, next).games;
      && UniqueSystems(t)
      && forall k | 0 <= k < |games| ::
        && t[k].Sid() == games[k].Sid()
        && t[k].started == games[k].started
        && Grown(games[k], t[k], if games[k].Sid() == sid then 1 else 0, multiplier)
  {
    var t := Advance(games, sid, true, multiplier, spawner, next).games;
    forall k | 0 <= k < |games|
      ensures Grown(games[k], t[k], if games[k].Sid() == sid then 1 else 0, multiplier)
    {
      assert games[k] in games;
      if games[k].Sid() == sid {
        assert FindGame(games, sid) == Some(k);
      } else {
        GrownRefl(games[k], multiplier);
      }
    }
    forall a, b | 0 <= a < b < |t|
      ensures t[a].Sid() != t[b].Sid()
    {
      assert t[a].Sid() == games[a].Sid() && t[b].Sid() == games[b].Sid();
    }
  }

  /** With the spawners reachable and one game per system, WaveTimer grows
      each game by one wave per occurrence of its system in the queue and
      changes nothing else about it. */
  lemma {:induction false} AdvanceAllGrows(games: seq<Game>, pending: seq<SystemId>, multiplier: nat, spawner: nat -> SpawnId, next: nat)
    requires Ranged(games) && UniqueSystems(games)
    ensures var r := AdvanceAll(games, pending, true, multiplier, spawner, next).games;
      && |r| == |games|
      && forall k | 0 <= k < |games| ::
        && r[k].Sid() == games[k].Sid()
        && r[k].started == games[k].started
        && Grown(games[k], r[k], multiset(pending)[games[k].Sid()], multiplier)
    decreases |pending|
  {
    var r := AdvanceAll(games, pending, true, multiplier, spawner, next).games;
    if |pending| == 0 {
      forall k | 0 <= k < |games|
        ensures Grown(games[k], r[k], 0, multiplier)
      {
        assert games[k] in games;
        GrownRefl(games[k], multiplier);
      }
    } else {
      var sid := pending[0];
      var t := Advance(games, sid, true, multiplier, spawner, next);
      assert pending == [sid] + pending[1..];
      AdvanceGrows(games, sid, multiplier, spawner, next);
      AdvanceAllGrows(t.games, pending[1..], multiplier, spawner, t.next);
      assert r == AdvanceAll(t.games, pending[1..], true, multiplier, spawner, t.next).games;
      forall k | 0 <= k < |games|
        ensures Grown(games[k], r[k], multiset(pending)[games[k].Sid()], multiplier)
      {
        GrownQueue(games[k], t.games[k], r[k], pending, multiplier);
      }
    }
  }

  /** Growth by the head of the queue, then by the rest, is growth by the
      whole queue. */
  lemma GrownQueue(a: Game, b: Game, c: Game, pending: seq<SystemId>, multiplier: nat)
    requires |pending| > 0
    requires Grown(a, b, if a.Sid() == pending[0] then 1 else 0, multiplier)
    requires Grown(b, c, multiset(pending[1..])[a.Sid()], multiplier)
    ensures Grown(a, c, multiset(pending)[a.Sid()], multiplier)
  {
    var here := if a.Sid() == pending[0] then 1 else 0;
    assert pending == [pending[0]] + pending[1..];
    assert multiset(pending)[a.Sid()] == here + multiset(pending[1..])[a.Sid()];
    GrownTrans(a, b, c, here, multiset(pending[1..])[a.Sid()], multiplier);
  }

  /** AdvanceAllGrows for the registry: with the spawners reachable, each
      game of a valid registry gets one new wave per occurrence of its system
      in the pending list. */
  lemma WaveTimerGrows(reg: Registry, multiplier: nat, spawner: nat -> SpawnId, next: nat)
    requires Valid(reg)
    ensures Ranged(reg.games)
    ensures var r := WaveTimer(reg, true, multiplier, spawner, next).reg;
      && r.pending == []
      && |r.games| == |reg.games|
      && forall k | 0 <= k < |reg.games| ::
        && r.games[k].Sid() == reg.games[k].Sid()
        && r.games[k].started == reg.games[k].started
        && Grown(reg.games[k], r.games[k], multiset(reg.pending)[reg.games[k].Sid()], multiplier)
  {
    assert forall g | g in reg.games :: Live(g);
    AdvanceAllGrows(reg.games, reg.pending, multiplier, spawner, next);
  }

  /** WaveTimer keeps the registry invariant. */
  lemma AdvanceValid(games: seq<Game>, sid: SystemId, ipc: bool, multiplier: nat, spawner: nat -> SpawnId, next: nat)
    requires ValidGames(games)
    ensures Ranged(games)
    ensures ValidGames(Advance(games, sid, ipc, multiplier, spawner, next).games)
  {
    assert forall g | g in games :: Live(g);
    match FindGame(games, sid)
    case None =>
    case Some(i) =>
      if !ipc {
        EndGameValid(Registry(games, []), sid);
      } else {
        var h := NewWave(games[i], multiplier, spawner, next).0;
        assert games[i] in games;
        assert Refines(games[i], h);
        UpdateShrinks(games, i, h);
        ShrinksValid(games, games[i := h]);
      }
  }

  lemma {:induction false} AdvanceAllValid(games: seq<Game>, pending: seq<SystemId>, ipc: bool, multiplier: nat, spawner: nat -> SpawnId, next: nat)
    requires ValidGames(games)
    ensures Ranged(games)
    ensures ValidGames(AdvanceAll(games, pending, ipc, multiplier, spawner, next).games)
    decreases |pending|
  {
    assert forall g | g in games :: Live(g);
    if |pending| > 0 {
      AdvanceValid(games, pending[0], ipc, multiplier, spawner, next);
      var t := Advance(games, pending[0], ipc, multiplier, spawner, next);
      AdvanceAllValid(t.games, pending[1..], ipc, multiplier, spawner, t.next);
    }
  }

  lemma WaveTimerValid(reg: Registry, ipc: bool, multiplier: nat, spawner: nat -> SpawnId, next: nat)
    requires Valid(reg)
    ensures Ranged(reg.games)
    ensures Valid(WaveTimer(reg, ipc, multiplier, spawner, next).reg)
  {
    AdvanceAllValid(reg.games, reg.pending, ipc, multiplier, spawner, next);
  }
}
