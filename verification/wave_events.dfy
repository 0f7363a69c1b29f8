/** The engine hooks that change running games: a solar or ship destroyed
    (BaseDestroyed, ShipDestroyed) and a player leaving (Disqualify, called
    from the DisConnect, BaseEnter and PlayerLaunch hooks) in
    wave_defence/WaveDefence.cpp. */
module WaveEvents {
  import opened SeqUtil
  import opened WaveState
  import opened WaveFlow

  /** Which of a game's two spawn lists an event concerns. */
  datatype SpawnKind = Npc | Solar

  function Tracked(g: Game, kind: SpawnKind): seq<SpawnId>
  {
    match kind
    case Npc => g.spawnedNpcs
    case Solar => g.spawnedSolars
  }

  /** Every occurrence of `id` erased from the list of the given kind. */
  function Untrack(g: Game, kind: SpawnKind, id: SpawnId): (h: Game)
    ensures h.system == g.system && h.members == g.members && h.groupId == g.groupId
    ensures h.waveNumber == g.waveNumber && h.started == g.started
    ensures kind == Npc ==> h.spawnedSolars == g.spawnedSolars
    ensures kind == Solar ==> h.spawnedNpcs == g.spawnedNpcs
  {
    match kind
    case Npc => g.(spawnedNpcs := RemoveAll(g.spawnedNpcs, id))
    case Solar => g.(spawnedSolars := RemoveAll(g.spawnedSolars, id))
  }

  /** The list of the kind loses exactly the occurrences of `id`, in order
      (erase of remove_if); the other list is left as it was. */
  lemma UntrackLists(g: Game, kind: SpawnKind, id: SpawnId)
    ensures Tracked(Untrack(g, kind, id), kind) == RemoveAll(Tracked(g, kind), id)
    ensures var other := if kind == Npc then Solar else Npc;
      Tracked(Untrack(g, kind, id), other) == Tracked(g, other)
  {
  }

  /** Both spawn lists are empty: the condition on which a hook calls EndWave. */
  predicate Cleared(g: Game)
  {
    |g.spawnedNpcs| == 0 && |g.spawnedSolars| == 0
  }

  /** EndWave's own preconditions (`waves.at(waveNumber)`, and the leader
      when the reward goes to a single player). */
  predicate Endable(g: Game)
  {
    g.waveNumber < |g.system.waves| && (g.groupId == 0 ==> |g.members| > 0)
  }

  /** What one pass of the hooks' loop does to one game: what is left of it
      (None: EndWave finished it), whether its system is queued for the next
      wave, and the reward paid, if any. */
  datatype Hit = Hit(left: Option<Game>, queued: bool, payout: Option<Payout>)

  /** The id is erased; a game whose two lists are then both empty has its
      wave ended, whether or not it held the id, has started, or is already
      queued. */
  function HitGame(g: Game, kind: SpawnKind, id: SpawnId): (r: Hit)
    requires Cleared(Untrack(g, kind, id)) ==> Endable(g)
    ensures var h := Untrack(g, kind, id);
      !Cleared(h) ==> r == Hit(Some(h), false, None)
    ensures var h := Untrack(g, kind, id);
      Cleared(h) ==>
        && r.payout.Some? && r.payout.value.amount == g.system.waves[g.waveNumber].reward
        && (r.payout.value.LeaderCash? <==> g.groupId == 0)
        && (r.payout.value.LeaderCash? ==> r.payout.value.player == g.members[0])
        && (r.payout.value.GroupReward? ==> r.payout.value.groupId == g.groupId)
        && r.queued == r.left.Some?
        && (r.left.Some? <==> g.waveNumber + 1 < |g.system.waves|)
        && (r.left.Some? ==> r.left.value == h.(waveNumber := g.waveNumber + 1))
    ensures r.left.Some? ==> r.left.value.Sid() == g.Sid() && id !in Tracked(r.left.value, kind)
    ensures r.queued ==> r.left.Some?
  {
    var h := Untrack(g, kind, id);
    if !Cleared(h) then Hit(Some(h), false, None)
    else
      var e := EndWave(h);
      Hit(e.survivor, e.survivor.Some?, Some(e.payout))
  }

  /** The games that survive a destruction event, the systems it queues for a
      new wave, and the rewards it pays, each in game order. */
  datatype Swept = Swept(games: seq<Game>, pending: seq<SystemId>, payouts: seq<Payout>)

  /** The hooks' loop over `games`, taken over a snapshot of the list: every
      game is hit once, in order. A game EndWave finishes is dropped (the
      source's EndGame erases it from the vector the loop is iterating). */
  function Sweep(games: seq<Game>, kind: SpawnKind, id: SpawnId): (r: Swept)
    requires forall g | g in games && Cleared(Untrack(g, kind, id)) :: Endable(g)
    ensures forall g | g in r.games :: id !in Tracked(g, kind)
    ensures |r.games| <= |games|
    decreases |games|
  {
    if |games| == 0 then Swept([], [], [])
    else
      assert games[0] in games;
      var x := HitGame(games[0], kind, id);
      var rest := Sweep(games[1..], kind, id);
      Swept(
        OptSeq(x.left) + rest.games,
        (if x.queued then [games[0].Sid()] else []) + rest.pending,
        OptSeq(x.payout) + rest.payouts)
  }

  /** A sweep neither creates games nor queues a system it had no game for. */
  lemma {:induction false} SweepSids(games: seq<Game>, kind: SpawnKind, id: SpawnId)
    requires forall g | g in games && Cleared(Untrack(g, kind, id)) :: Endable(g)
    ensures Sids(Sweep(games, kind, id).games) <= Sids(games)
    ensures forall s | s in Sweep(games, kind, id).pending :: s in Sids(games)
    decreases |games|
  {
    if |games| > 0 {
      var g := games[0];
      assert games == [g] + games[1..];
      assert g in games;
      SetsCons(g, games[1..]);
      SweepSids(games[1..], kind, id);
      var x := HitGame(g, kind, id);
      if x.left.Some? {
        SetsCons(x.left.value, Sweep(games[1..], kind, id).games);
      }
    }
  }

  /** The registry and the payouts after one hook call. */
  datatype Step = Step(reg: Registry, payouts: seq<Payout>)

  function Destroyed(reg: Registry, kind: SpawnKind, id: SpawnId): (r: Step)
    requires forall g | g in reg.games && Cleared(Untrack(g, kind, id)) :: Endable(g)
    ensures forall g | g in r.reg.games :: id !in Tracked(g, kind)
    ensures |r.reg.pending| >= |reg.pending| && r.reg.pending[..|reg.pending|] == reg.pending
  {
    var s := Sweep(reg.games, kind, id);
    Step(Registry(s.games, reg.pending + s.pending), s.payouts)
  }

  /** BaseDestroyed: a solar was destroyed. */
  function BaseDestroyed(reg: Registry, id: SpawnId): (r: Step)
    requires forall g | g in reg.games && Cleared(Untrack(g, Solar, id)) :: Endable(g)
    ensures forall g | g in r.reg.games :: id !in g.spawnedSolars
    ensures |r.reg.pending| >= |reg.pending| && r.reg.pending[..|reg.pending|] == reg.pending
  {
    Destroyed(reg, Solar, id)
  }

  /** ShipDestroyed: a player ship returns before the loop; any other ship is
      erased from the npc lists. */
  function ShipDestroyed(reg: Registry, isPlayer: bool, id: SpawnId): (r: Step)
    requires !isPlayer ==> forall g | g in reg.games && Cleared(Untrack(g, Npc, id)) :: Endable(g)
    ensures isPlayer ==> r == Step(reg, [])
    ensures !isPlayer ==> forall g | g in r.reg.games :: id !in g.spawnedNpcs
  {
    if isPlayer then Step(reg, []) else Destroyed(reg, Npc, id)
  }

  /** The first game in the given system, if any. */
  function GameIn(games: seq<Game>, sid: SystemId): Option<Game>
  {
    match FindGame(games, sid)
    case None => None
    case Some(i) => Some(games[i])
  }

  lemma GameInCons(o: Option<Game>, rest: seq<Game>, sid: SystemId)
    ensures GameIn(OptSeq(o) + rest, sid) ==
      if o.Some? && o.value.Sid() == sid then o else GameIn(rest, sid)
  {
    var all := OptSeq(o) + rest;
    if o.None? {
      assert all == rest;
    } else {
      assert all[0] == o.value;
      assert all[1..] == rest;
      if o.value.Sid() != sid {
        match FindGame(rest, sid)
        case None =>
        case Some(k) => assert all[k + 1] == rest[k];
      }
    }
  }

  /** One unfolding of Sweep, as a fact about its parts. */
  lemma SweepCons(games: seq<Game>, kind: SpawnKind, id: SpawnId)
    requires forall g | g in games && Cleared(Untrack(g, kind, id)) :: Endable(g)
    requires |games| > 0
    ensures games[0] in games
    ensures var x := HitGame(games[0], kind, id);
      var rest := Sweep(games[1..], kind, id);
      && Sweep(games, kind, id).games == OptSeq(x.left) + rest.games
      && (games[0].Sid() in Sweep(games, kind, id).pending <==> x.queued || games[0].Sid() in rest.pending)
      && forall s :: s != games[0].Sid() ==> (s in Sweep(games, kind, id).pending <==> s in rest.pending)
  {
    assert games[0] in games;
  }

  /** With one game per system, what the event leaves in each game's system
      is exactly what hitting that game alone leaves, and the system is
      queued exactly when that hit queues it. */
  lemma {:induction false} SweepPerGame(games: seq<Game>, kind: SpawnKind, id: SpawnId, i: nat)
    requires UniqueSystems(games)
    requires forall g | g in games && Cleared(Untrack(g, kind, id)) :: Endable(g)
    requires i < |games|
    ensures games[i] in games
    ensures GameIn(Sweep(games, kind, id).games, games[i].Sid()) == HitGame(games[i], kind, id).left
    ensures games[i].Sid() in Sweep(games, kind, id).pending <==> HitGame(games[i], kind, id).queued
    decreases |games|
  {
    assert games[i] in games;
    SweepCons(games, kind, id);
    var g := games[0];
    var x := HitGame(g, kind, id);
    var rest := Sweep(games[1..], kind, id);
    if i == 0 {
      HeadUnique(games);
      SweepSids(games[1..], kind, id);
      GameInCons(x.left, rest.games, g.Sid());
    } else {
      UniqueTail(games);
      assert games[1..][i - 1] == games[i];
      SweepPerGame(games[1..], kind, id, i - 1);
      assert g.Sid() != games[i].Sid();
      GameInCons(x.left, rest.games, games[i].Sid());
    }
  }

  lemma HeadUnique(games: seq<Game>)
    requires UniqueSystems(games) && 0 < |games|
    ensures games[0].Sid() !in Sids(games[1..])
  {
    forall k | 0 <= k < |games| - 1
      ensures games[1..][k].Sid() != games[0].Sid()
    {
      assert games[1..][k] == games[k + 1];
    }
  }

  /** A destruction event keeps the registry invariant. */
  lemma {:induction false} SweepShrinks(games: seq<Game>, kind: SpawnKind, id: SpawnId)
    requires forall g | g in games :: Live(g)
    ensures forall g | g in games && Cleared(Untrack(g, kind, id)) :: Endable(g)
    ensures Shrinks(games, Sweep(games, kind, id).games)
    decreases |games|
  {
    forall g | g in games && Cleared(Untrack(g, kind, id))
      ensures Endable(g)
    {
      assert Live(g);
    }
    if |games| > 0 {
      var g := games[0];
      assert g in games && Live(g);
      assert forall x | x in games[1..] :: x in games;
      SweepShrinks(games[1..], kind, id);
      var rest := Sweep(games[1..], kind, id).games;
      var x := HitGame(g, kind, id);
      var res := Sweep(games, kind, id).games;
      if x.left.Some? {
        assert Refines(g, x.left.value);
        assert res[0] == x.left.value && res[1..] == rest;
      } else {
        assert res == rest;
      }
    }
  }

  lemma DestroyedValid(reg: Registry, kind: SpawnKind, id: SpawnId)
    requires Valid(reg)
    ensures forall g | g in reg.games && Cleared(Untrack(g, kind, id)) :: Endable(g)
    ensures Valid(Destroyed(reg, kind, id).reg)
  {
    SweepShrinks(reg.games, kind, id);
    ShrinksValid(reg.games, Sweep(reg.games, kind, id).games);
  }

  /** A destruction event on a valid registry, game by game: each system's
      game becomes what HitGame leaves of it (None: ended), its system is
      queued iff HitGame queues it, and no system without a game appears. */
  lemma DestroyedEffect(reg: Registry, kind: SpawnKind, id: SpawnId)
    requires Valid(reg)
    ensures forall g | g in reg.games && Cleared(Untrack(g, kind, id)) :: Endable(g)
    ensures var r := Destroyed(reg, kind, id).reg;
      && Sids(r.games) <= Sids(reg.games)
      && (forall s | s in r.pending[|reg.pending|..] :: s in Sids(reg.games))
      && forall k | 0 <= k < |reg.games| ::
        && GameIn(r.games, reg.games[k].Sid()) == HitGame(reg.games[k], kind, id).left
        && (reg.games[k].Sid() in r.pending[|reg.pending|..] <==> HitGame(reg.games[k], kind, id).queued)
  {
    SweepShrinks(reg.games, kind, id);
    SweepSids(reg.games, kind, id);
    var r := Destroyed(reg, kind, id).reg;
    assert r.pending[|reg.pending|..] == Sweep(reg.games, kind, id).pending;
    forall k | 0 <= k < |reg.games|
      ensures GameIn(r.games, reg.games[k].Sid()) == HitGame(reg.games[k], kind, id).left
      ensures reg.games[k].Sid() in r.pending[|reg.pending|..] <==> HitGame(reg.games[k], kind, id).queued
    {
      SweepPerGame(reg.games, kind, id, k);
    }
  }

  /** The reward a live game is paid when its wave ends: its leader gets the
      current wave's reward (a live game has no group id). */
  function LeaderReward(g: Game): Payout
    requires Live(g)
  {
    LeaderCash(g.members[0], g.system.waves[g.waveNumber].reward)
  }

  /** Reference for the rewards of a destruction event: in game order, one
      leader reward for each game whose two lists are empty once `id` is
      erased, and nothing for the other games. */
  function Rewards(games: seq<Game>, kind: SpawnKind, id: SpawnId): seq<Payout>
    requires forall g | g in games :: Live(g)
  {
    if |games| == 0 then []
    else
      assert games[0] in games;
      (if Cleared(Untrack(games[0], kind, id)) then [LeaderReward(games[0])] else [])
        + Rewards(games[1..], kind, id)
  }

  /** The payout of one hit is the game's leader reward when it is cleared,
      and nothing otherwise. */
  lemma HitPayout(g: Game, kind: SpawnKind, id: SpawnId)
    requires Live(g)
    ensures Cleared(Untrack(g, kind, id)) ==> Endable(g)
    ensures OptSeq(HitGame(g, kind, id).payout)
      == if Cleared(Untrack(g, kind, id)) then [LeaderReward(g)] else []
  {
  }

  lemma {:induction false} SweepPayouts(games: seq<Game>, kind: SpawnKind, id: SpawnId)
    requires forall g | g in games :: Live(g)
    ensures forall g | g in games && Cleared(Untrack(g, kind, id)) :: Endable(g)
    ensures Sweep(games, kind, id).payouts == Rewards(games, kind, id)
    decreases |games|
  {
    if |games| > 0 {
      assert games[0] in games;
      assert forall g | g in games[1..] :: g in games;
      HitPayout(games[0], kind, id);
      SweepPayouts(games[1..], kind, id);
    }
  }

  /** Reference for the systems a destruction event queues: in game order,
      the system of each game whose two lists are empty once `id` is erased
      and that has a wave left after the current one, once per such game. */
  function Queued(games: seq<Game>, kind: SpawnKind, id: SpawnId): seq<SystemId>
  {
    if |games| == 0 then []
    else
      var g := games[0];
      (if Cleared(Untrack(g, kind, id)) && g.waveNumber + 1 < |g.system.waves| then [g.Sid()] else [])
        + Queued(games[1..], kind, id)
  }

  lemma {:induction false} SweepQueued(games: seq<Game>, kind: SpawnKind, id: SpawnId)
    requires forall g | g in games && Cleared(Untrack(g, kind, id)) :: Endable(g)
    ensures Sweep(games, kind, id).pending == Queued(games, kind, id)
    decreases |games|
  {
    if |games| > 0 {
      assert games[0] in games;
      assert forall g | g in games[1..] :: g in games;
      SweepQueued(games[1..], kind, id);
    }
  }

  lemma {:induction false} QueuedSids(games: seq<Game>, kind: SpawnKind, id: SpawnId)
    ensures forall s | s in Queued(games, kind, id) :: s in Sids(games)
    decreases |games|
  {
    if |games| > 0 {
      QueuedSids(games[1..], kind, id);
      assert games == [games[0]] + games[1..];
      SetsCons(games[0], games[1..]);
    }
  }

  /** With one game per system, each game's system is queued exactly once
      when hitting that game queues it, and not at all otherwise. */
  lemma {:induction false} QueuedOnce(games: seq<Game>, kind: SpawnKind, id: SpawnId, k: nat)
    requires UniqueSystems(games)
    requires forall g | g in games && Cleared(Untrack(g, kind, id)) :: Endable(g)
    requires k < |games|
    ensures games[k] in games
    ensures multiset(Queued(games, kind, id))[games[k].Sid()]
      == if HitGame(games[k], kind, id).queued then 1 else 0
    decreases k
  {
    var g := games[0];
    var sid := games[k].Sid();
    var rest := Queued(games[1..], kind, id);
    assert g in games && games[k] in games;
    assert multiset(Queued(games, kind, id))[sid]
      == multiset(if Cleared(Untrack(g, kind, id)) && g.waveNumber + 1 < |g.system.waves| then [g.Sid()] else [])[sid]
        + multiset(rest)[sid];
    if k == 0 {
      HeadUnique(games);
      QueuedSids(games[1..], kind, id);
      assert multiset(rest)[sid] == 0;
    } else {
      UniqueTail(games);
      assert games[1..][k - 1] == games[k];
      assert forall x | x in games[1..] :: x in games;
      QueuedOnce(games[1..], kind, id, k - 1);
    }
  }

  /** A destruction event appends to the pending list, after the entries
      already there, exactly the systems Queued names: each game whose wave
      ends and that has another wave is queued once, in game order. */
  lemma DestroyedQueued(reg: Registry, kind: SpawnKind, id: SpawnId)
    requires forall g | g in reg.games && Cleared(Untrack(g, kind, id)) :: Endable(g)
    ensures Destroyed(reg, kind, id).reg.pending == reg.pending + Queued(reg.games, kind, id)
  {
    SweepQueued(reg.games, kind, id);
  }

  /** The rewards a destruction event pays, in game order: exactly one per
      game whose two lists end up empty, to that game's leader, at the reward
      of the wave it was on. */
  lemma DestroyedPayouts(reg: Registry, kind: SpawnKind, id: SpawnId)
    requires Valid(reg)
    ensures forall g | g in reg.games && Cleared(Untrack(g, kind, id)) :: Endable(g)
    ensures Destroyed(reg, kind, id).payouts == Rewards(reg.games, kind, id)
  {
    SweepPayouts(reg.games, kind, id);
  }

  /** The wave of a game that never held the destroyed id still ends when
      both its lists are empty: a game that has not started yet, or one
      waiting for its next wave, is paid and advanced by any npc kill. */
  lemma StrayKillEndsWave(g: Game, id: SpawnId)
    requires Live(g) && Cleared(g) && id !in g.spawnedNpcs
    ensures Cleared(Untrack(g, Npc, id))
    ensures HitGame(g, Npc, id).payout.Some?
    ensures HitGame(g, Npc, id).left.Some? ==> HitGame(g, Npc, id).left.value.waveNumber == g.waveNumber + 1
  {
  }

  // ---------------------------------------------------------------------------
  // Disqualify

  /** The source's loop from game `i` on: the first occurrence of the client
      is erased from each game listing it; a game left without members is
      ended and the loop returns at once. */
  function DisqualifyFrom(reg: Registry, client: ClientId, i: nat): (r: Registry)
    ensures r.pending == reg.pending
    ensures (forall k | i <= k < |reg.games| :: client !in reg.games[k].members) ==> r == reg
    decreases |reg.games| - i
  {
    if i >= |reg.games| then reg
    else
      var g := reg.games[i];
      if client !in g.members then DisqualifyFrom(reg, client, i + 1)
      else
        var h := g.(members := RemoveFirst(g.members, client));
        var reg' := reg.(games := reg.games[i := h]);
        if |h.members| == 0 then EndGame(reg', g.Sid())
        else DisqualifyFrom(reg', client, i + 1)
  }

  /** Disqualify: a client in no game changes nothing. */
  function Disqualify(reg: Registry, client: ClientId): (r: Registry)
    ensures r.pending == reg.pending
    ensures client !in Players(reg.games) ==> r == reg
  {
    assert client !in Players(reg.games) ==> forall k | 0 <= k < |reg.games| :: client !in reg.games[k].members by {
      if client !in Players(reg.games) {
        forall k | 0 <= k < |reg.games|
          ensures client !in reg.games[k].members
        {
          assert reg.games[k] in reg.games;
        }
      }
    }
    DisqualifyFrom(reg, client, 0)
  }

  lemma {:induction false} DisqualifySkip(reg: Registry, client: ClientId, j: nat, i: nat)
    requires j <= i < |reg.games|
    requires forall k | j <= k < i :: client !in reg.games[k].members
    ensures DisqualifyFrom(reg, client, j) == DisqualifyFrom(reg, client, i)
    decreases i - j
  {
    if j < i {
      DisqualifySkip(reg, client, j + 1, i);
    }
  }

  /** For a member of game i: exactly that entry leaves the member list, and
      the game is removed (everything else kept in order) iff the list is
      then empty. */
  lemma DisqualifyMember(reg: Registry, client: ClientId, i: nat)
    requires Valid(reg)
    requires i < |reg.games| && client in reg.games[i].members
    ensures var g := reg.games[i];
      var h := g.(members := RemoveFirst(g.members, client));
      && (|g.members| == 1 ==> Disqualify(reg, client).games == reg.games[..i] + reg.games[i + 1..])
      && (|g.members| > 1 ==> Disqualify(reg, client).games == reg.games[i := h])
  {
    var g := reg.games[i];
    var h := g.(members := RemoveFirst(g.members, client));
    var reg' := reg.(games := reg.games[i := h]);
    forall k | 0 <= k < i
      ensures client !in reg.games[k].members
    {
      assert Disjoint(reg.games[k].members, reg.games[i].members);
    }
    DisqualifySkip(reg, client, 0, i);
    if |h.members| == 0 {
      assert UniqueSystems(reg'.games) by {
        forall a, b | 0 <= a < b < |reg'.games|
          ensures reg'.games[a].Sid() != reg'.games[b].Sid()
        {
          assert reg'.games[a].Sid() == reg.games[a].Sid();
          assert reg'.games[b].Sid() == reg.games[b].Sid();
        }
      }
      EndGameRemovesOne(reg', i);
      assert reg'.games[..i] == reg.games[..i];
      assert reg'.games[i + 1..] == reg.games[i + 1..];
    } else {
      forall k | i + 1 <= k < |reg'.games|
        ensures client !in reg'.games[k].members
      {
        assert reg'.games[k] == reg.games[k];
        assert Disjoint(reg.games[i].members, reg.games[k].members);
      }
    }
  }

  /** Disqualify keeps the registry invariant and leaves the client in no game. */
  lemma DisqualifyValid(reg: Registry, client: ClientId)
    requires Valid(reg)
    ensures Valid(Disqualify(reg, client))
    ensures client !in Players(Disqualify(reg, client).games)
  {
    if client in Players(reg.games) {
      var g0, p :| g0 in reg.games && p in g0.members && p == client;
      var i :| 0 <= i < |reg.games| && reg.games[i] == g0;
      DisqualifyMember(reg, client, i);
      if |g0.members| == 1 {
        DisqualifyLast(reg, client, i);
      } else {
        DisqualifyStays(reg, client, i);
      }
    }
  }

  /** The client was the game's only member: the game is ended. */
  lemma DisqualifyLast(reg: Registry, client: ClientId, i: nat)
    requires Valid(reg)
    requires i < |reg.games| && client in reg.games[i].members && |reg.games[i].members| == 1
    requires Disqualify(reg, client).games == reg.games[..i] + reg.games[i + 1..]
    ensures Valid(Disqualify(reg, client))
    ensures client !in Players(Disqualify(reg, client).games)
  {
    var r := Disqualify(reg, client);
    var g := reg.games[i];
    EndGameRemovesOne(reg, i);
    EndGameValid(reg, g.Sid());
    assert r.games == EndGame(reg, g.Sid()).games;
    forall k | 0 <= k < |r.games|
      ensures client !in r.games[k].members
    {
      var k' := if k < i then k else k + 1;
      assert r.games[k] == reg.games[k'];
      if k' < i {
        assert Disjoint(reg.games[k'].members, reg.games[i].members);
      } else {
        assert Disjoint(reg.games[i].members, reg.games[k'].members);
      }
    }
  }

  /** Other members remain: exactly the client's entry leaves the game. */
  lemma DisqualifyStays(reg: Registry, client: ClientId, i: nat)
    requires Valid(reg)
    requires i < |reg.games| && client in reg.games[i].members && |reg.games[i].members| > 1
    requires var g := reg.games[i];
      Disqualify(reg, client).games == reg.games[i := g.(members := RemoveFirst(g.members, client))]
    ensures Valid(Disqualify(reg, client))
    ensures client !in Players(Disqualify(reg, client).games)
  {
    var r := Disqualify(reg, client);
    var g := reg.games[i];
    assert g in reg.games && Live(g);
    var h := g.(members := RemoveFirst(g.members, client));
    RemoveFirstNoDup(g.members, client);
    assert Refines(g, h);
    UpdateShrinks(reg.games, i, h);
    ShrinksValid(reg.games, r.games);
    forall k | 0 <= k < |r.games|
      ensures client !in r.games[k].members
    {
      if k < i {
        assert Disjoint(reg.games[k].members, reg.games[i].members);
      } else if k > i {
        assert Disjoint(reg.games[i].members, reg.games[k].members);
      }
    }
  }

  /** Disqualifying twice is the same as once. */
  lemma DisqualifyIdempotent(reg: Registry, client: ClientId)
    requires Valid(reg)
    ensures Disqualify(Disqualify(reg, client), client) == Disqualify(reg, client)
  {
    DisqualifyValid(reg, client);
  }

  /** The three player hooks that call Disqualify. PlayerLaunch is one of
      them, so undocking also removes a player from the game. */
  datatype PlayerEvent = DisConnect | BaseEnter | PlayerLaunch

  /** Whichever of the three hooks fires, the player is in no game afterwards. */
  function OnPlayerEvent(reg: Registry, event: PlayerEvent, client: ClientId): (r: Registry)
    requires Valid(reg)
    ensures Valid(r) && client !in Players(r.games)
    ensures r.pending == reg.pending
  {
    DisqualifyValid(reg, client);
    Disqualify(reg, client)
  }
}
