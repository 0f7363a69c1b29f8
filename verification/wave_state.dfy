/** The wave-defence plugin's state: the configured star systems, the global
    list of running games and the list of systems waiting for their next wave
    (wave_defence/WaveDefence.cpp), plus the registry invariant every
    transition keeps. */
module WaveState {
  import opened SeqUtil

  type ClientId = nat
  type SystemId = nat
  type SpawnId = nat
  /** Archetype nickname handed to the npc or solar spawner. */
  type Nickname = string

  /** One configured wave: fixed npcs, npcs repeated `npcMultiplier` times,
      the reward and the solars (voice lines are presentation only). */
  datatype Wave = Wave(npcs: seq<Nickname>, variableNpcs: seq<Nickname>, reward: nat, solars: seq<Nickname>)

  /** A star system that hosts a game, copied into the game at creation. */
  datatype StarSystem = StarSystem(systemId: SystemId, waves: seq<Wave>)

  /** One running game. `members[0]` is the leader. */
  datatype Game = Game(
    system: StarSystem,
    members: seq<ClientId>,
    groupId: nat,
    waveNumber: nat,
    started: bool,
    spawnedNpcs: seq<SpawnId>,
    spawnedSolars: seq<SpawnId>)
  {
    function Sid(): SystemId { system.systemId }
  }

  /** `games` is the global vector of games; `pending` is systemsPendingNewWave. */
  datatype Registry = Registry(games: seq<Game>, pending: seq<SystemId>)

  /** The parsed configuration the core reads: the configured systems. The
      configured npcMultiplier reaches the timers as their `multiplier`
      parameter. */
  datatype Config = Config(systems: seq<StarSystem>)

  /** A reward handed to the group primitive or paid to the leader. */
  datatype Payout = GroupReward(groupId: nat, amount: nat) | LeaderCash(player: ClientId, amount: nat)

  function Sids(games: seq<Game>): set<SystemId>
  {
    set g | g in games :: g.Sid()
  }

  /** Every client listed as a member of some game. */
  function Players(games: seq<Game>): set<ClientId>
  {
    set g, p | g in games && p in g.members :: p
  }

  predicate Disjoint(a: seq<ClientId>, b: seq<ClientId>)
  {
    forall p :: p in a ==> p !in b
  }

  /** At most one game per star system. */
  predicate UniqueSystems(games: seq<Game>)
  {
    forall i, j :: 0 <= i < j < |games| ==> games[i].Sid() != games[j].Sid()
  }

  /** A client is a member of at most one game. */
  predicate DisjointMembers(games: seq<Game>)
  {
    forall i, j :: 0 <= i < j < |games| ==> Disjoint(games[i].members, games[j].members)
  }

  /** What holds of each game in the registry: it has a leader, no member
      twice, a wave index `waves.at` accepts, and the group id NewGame never
      writes still at its default 0. */
  predicate Live(g: Game)
  {
    && |g.members| > 0
    && NoDup(g.members)
    && g.waveNumber < |g.system.waves|
    && g.groupId == 0
  }

  predicate ValidGames(games: seq<Game>)
  {
    && UniqueSystems(games)
    && DisjointMembers(games)
    && forall g | g in games :: Live(g)
  }

  predicate Valid(reg: Registry)
  {
    ValidGames(reg.games)
  }

  /** Every configured system has at least one wave, so a fresh game's
      `waves.at(0)` is in range. */
  predicate ConfigOk(config: Config)
  {
    forall s | s in config.systems :: |s.waves| > 0
  }

  /** Index of the first game in the given system (std::ranges::find_if). */
  function FindGame(games: seq<Game>, sid: SystemId): (r: Option<nat>)
    ensures r.None? <==> sid !in Sids(games)
    ensures r.Some? ==> r.value < |games| && games[r.value].Sid() == sid
    ensures r.Some? ==> forall j :: 0 <= j < r.value ==> games[j].Sid() != sid
  {
    if |games| == 0 then None
    else if games[0].Sid() == sid then Some(0)
    else
      assert games == [games[0]] + games[1..];
      match FindGame(games[1..], sid)
      case None => None
      case Some(i) => Some(i + 1)
  }

  /** The games outside the given system, in their original order. */
  function Without(games: seq<Game>, sid: SystemId): seq<Game>
  {
    if |games| == 0 then []
    else if games[0].Sid() == sid then Without(games[1..], sid)
    else [games[0]] + Without(games[1..], sid)
  }

  /** A game survives iff it is outside the system. */
  lemma {:induction false} WithoutMembers(games: seq<Game>, sid: SystemId)
    ensures forall g :: g in Without(games, sid) <==> g in games && g.Sid() != sid
    decreases |games|
  {
    if |games| > 0 {
      assert games == [games[0]] + games[1..];
      WithoutMembers(games[1..], sid);
    }
  }

  /** EndGame's registry effect: every game of the system is erased; the
      success announcement is presentation only. */
  function EndGame(reg: Registry, sid: SystemId): (r: Registry)
    ensures r.pending == reg.pending
    ensures sid !in Sids(r.games)
    ensures forall g :: g in r.games <==> g in reg.games && g.Sid() != sid
  {
    WithoutMembers(reg.games, sid);
    reg.(games := Without(reg.games, sid))
  }

  /** With one game per system, ending a game splices exactly that game out
      and keeps every other game in order. */
  lemma EndGameRemovesOne(reg: Registry, i: nat)
    requires UniqueSystems(reg.games)
    requires i < |reg.games|
    ensures EndGame(reg, reg.games[i].Sid()).games == reg.games[..i] + reg.games[i + 1..]
  {
    var games := reg.games;
    forall k | 0 <= k < |games| && k != i
      ensures games[k].Sid() != games[i].Sid()
    {
      if k < i {
        assert games[k].Sid() != games[i].Sid();
      } else {
        assert games[i].Sid() != games[k].Sid();
      }
    }
    WithoutSplice(games, i);
  }

  /** Ending the system of game i, when no other game is in it, splices
      game i out. */
  lemma {:induction false} WithoutSplice(games: seq<Game>, i: nat)
    requires i < |games|
    requires forall k | 0 <= k < |games| && k != i :: games[k].Sid() != games[i].Sid()
    ensures Without(games, games[i].Sid()) == games[..i] + games[i + 1..]
    decreases |games|
  {
    var sid := games[i].Sid();
    var t := games[1..];
    WithoutStep(games, sid);
    if i == 0 {
      forall k | 0 <= k < |t|
        ensures t[k].Sid() != sid
      {
        assert t[k] == games[k + 1];
      }
      WithoutAbsent(t, sid);
      assert games[..0] + games[1..] == t;
    } else {
      forall k | 0 <= k < |t| && k != i - 1
        ensures t[k].Sid() != t[i - 1].Sid()
      {
        assert t[k] == games[k + 1] && t[i - 1] == games[i];
      }
      WithoutSplice(t, i - 1);
      assert games[0].Sid() != sid;
      assert t[i - 1] == games[i];
      assert games[..i] == [games[0]] + t[..i - 1];
      assert games[i + 1..] == t[i..];
      assert [games[0]] + (t[..i - 1] + t[i..]) == ([games[0]] + t[..i - 1]) + t[i..];
    }
  }

  /** One step of Without. */
  lemma WithoutStep(games: seq<Game>, sid: SystemId)
    requires |games| > 0
    ensures Without(games, sid) ==
      if games[0].Sid() == sid then Without(games[1..], sid) else [games[0]] + Without(games[1..], sid)
  {
  }

  lemma UniqueTail(games: seq<Game>)
    requires |games| > 0 && UniqueSystems(games)
    ensures UniqueSystems(games[1..])
  {
    forall i, j | 0 <= i < j < |games| - 1
      ensures games[1..][i].Sid() != games[1..][j].Sid()
    {
      assert games[1..][i] == games[i + 1] && games[1..][j] == games[j + 1];
    }
  }

  /** Ending a game in a system that has none changes nothing. */
  lemma {:induction false} WithoutAbsent(games: seq<Game>, sid: SystemId)
    requires forall k | 0 <= k < |games| :: games[k].Sid() != sid
    ensures Without(games, sid) == games
    decreases |games|
  {
    if |games| > 0 {
      WithoutStep(games, sid);
      assert games[0].Sid() != sid;
      forall k | 0 <= k < |games| - 1
        ensures games[1..][k].Sid() != sid
      {
        assert games[1..][k] == games[k + 1];
      }
      WithoutAbsent(games[1..], sid);
      assert [games[0]] + games[1..] == games;
    }
  }

  /** Ending a game keeps the registry invariant. */
  lemma EndGameValid(reg: Registry, sid: SystemId)
    requires Valid(reg)
    ensures Valid(EndGame(reg, sid))
  {
    WithoutShrinks(reg.games, sid);
    ShrinksValid(reg.games, EndGame(reg, sid).games);
  }

  // ---------------------------------------------------------------------------
  // Shrinking sweeps keep the invariant.

  /** `h` is what an operation leaves of `g`: same system and group, members
      drawn from g's, and still live. */
  predicate Refines(g: Game, h: Game)
  {
    && h.system == g.system
    && (forall p :: p in h.members ==> p in g.members)
    && Live(h)
  }

  /** `res` arises from `orig` by dropping some games and refining the rest,
      in order. */
  predicate Shrinks(orig: seq<Game>, res: seq<Game>)
    decreases |orig|
  {
    if |orig| == 0 then |res| == 0
    else
      || Shrinks(orig[1..], res)
      || (|res| > 0 && Refines(orig[0], res[0]) && Shrinks(orig[1..], res[1..]))
  }

  lemma {:induction false} ValidCons(h: Game, rest: seq<Game>)
    ensures ValidGames([h] + rest) <==>
      && Live(h)
      && h.Sid() !in Sids(rest)
      && (forall p :: p in h.members ==> p !in Players(rest))
      && ValidGames(rest)
  {
    var all := [h] + rest;
    assert all[1..] == rest;
    assert forall k :: 0 <= k < |rest| ==> all[k + 1] == rest[k];
    if ValidGames(all) {
      forall p | p in h.members
        ensures p !in Players(rest)
      {
        forall k | 0 <= k < |rest|
          ensures p !in rest[k].members
        {
          assert Disjoint(all[0].members, all[k + 1].members);
        }
      }
      forall k | 0 <= k < |rest|
        ensures rest[k].Sid() != h.Sid()
      {
        assert all[0].Sid() != all[k + 1].Sid();
      }
      forall i, j | 0 <= i < j < |rest|
        ensures rest[i].Sid() != rest[j].Sid() && Disjoint(rest[i].members, rest[j].members)
      {
        assert all[i + 1] == rest[i] && all[j + 1] == rest[j];
      }
    }
    if && Live(h)
       && h.Sid() !in Sids(rest)
       && (forall p :: p in h.members ==> p !in Players(rest))
       && ValidGames(rest)
    {
      forall i, j | 0 <= i < j < |all|
        ensures all[i].Sid() != all[j].Sid() && Disjoint(all[i].members, all[j].members)
      {
        if i == 0 {
          assert all[j] == rest[j - 1] && all[j] in rest;
          forall p | p in h.members
            ensures p !in all[j].members
          {
            assert p !in Players(rest);
          }
        } else {
          assert all[i] == rest[i - 1] && all[j] == rest[j - 1];
        }
      }
    }
  }

  lemma {:induction false} ShrinksSubsets(orig: seq<Game>, res: seq<Game>)
    requires Shrinks(orig, res)
    ensures Sids(res) <= Sids(orig)
    ensures Players(res) <= Players(orig)
    decreases |orig|
  {
    if |orig| > 0 {
      assert orig == [orig[0]] + orig[1..];
      SetsCons(orig[0], orig[1..]);
      if Shrinks(orig[1..], res) {
        ShrinksSubsets(orig[1..], res);
      } else {
        ShrinksSubsets(orig[1..], res[1..]);
        assert res == [res[0]] + res[1..];
        SetsCons(res[0], res[1..]);
      }
    }
  }

  lemma SetsCons(h: Game, rest: seq<Game>)
    ensures Sids([h] + rest) == {h.Sid()} + Sids(rest)
    ensures Players([h] + rest) == (set p | p in h.members) + Players(rest)
  {
    var all := [h] + rest;
    assert forall g :: g in all <==> g == h || g in rest;
  }

  /** Dropping and refining games never breaks the registry invariant. */
  lemma {:induction false} ShrinksValid(orig: seq<Game>, res: seq<Game>)
    requires ValidGames(orig)
    requires Shrinks(orig, res)
    ensures ValidGames(res)
    decreases |orig|
  {
    if |orig| > 0 {
      assert orig == [orig[0]] + orig[1..];
      ValidCons(orig[0], orig[1..]);
      if Shrinks(orig[1..], res) {
        ShrinksValid(orig[1..], res);
      } else {
        ShrinksValid(orig[1..], res[1..]);
        ShrinksSubsets(orig[1..], res[1..]);
        assert res == [res[0]] + res[1..];
        ValidCons(res[0], res[1..]);
      }
    }
  }

  lemma {:induction false} ShrinksRefl(games: seq<Game>)
    requires forall g | g in games :: Live(g)
    ensures Shrinks(games, games)
    decreases |games|
  {
    if |games| > 0 {
      assert games[0] in games;
      ShrinksRefl(games[1..]);
    }
  }

  lemma {:induction false} UpdateShrinks(games: seq<Game>, i: nat, h: Game)
    requires forall g | g in games :: Live(g)
    requires i < |games|
    requires Refines(games[i], h)
    ensures Shrinks(games, games[i := h])
    decreases |games|
  {
    assert games[0] in games;
    if i == 0 {
      ShrinksRefl(games[1..]);
      assert games[i := h][1..] == games[1..];
    } else {
      UpdateShrinks(games[1..], i - 1, h);
      assert games[i := h][1..] == games[1..][i - 1 := h];
    }
  }

  lemma {:induction false} WithoutShrinks(games: seq<Game>, sid: SystemId)
    requires forall g | g in games :: Live(g)
    ensures Shrinks(games, Without(games, sid))
    decreases |games|
  {
    if |games| > 0 {
      assert games[0] in games;
      WithoutShrinks(games[1..], sid);
    }
  }
}
