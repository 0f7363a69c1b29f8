/** The `/wave` command: admission checks and creation of a game
    (NewGame and PlayerChecks in wave_defence/WaveDefence.cpp). */
module WaveLobby {
  import opened SeqUtil
  import opened WaveState

  /** What the game engine reports at the moment of the command. */
  datatype World = World(
    systemOf: ClientId -> SystemId,  // pub::Player::GetSystem
    hasShip: ClientId -> bool,       // pub::Player::GetShip gave a non-zero ship
    active: seq<ClientId>,           // every player Players.traverse_active visits
    groupId: nat,                    // Players.GetGroupID of the requester, 0 if none
    groupList: seq<ClientId>)        // StoreMemberList of that group

  /** PlayerChecks' verdict; each failure has its own message in the source. */
  datatype Eligibility = Eligible | WrongSystem | NotInSpace | AlreadyPlaying

  /** Why NewGame returned early. */
  datatype Rejection =
    | AlreadyRunning
    | NoGameHere
    | Bystanders
    | Ineligible(member: ClientId, reason: Eligibility)

  /** Per-member eligibility, checked in the source's order: system, ship,
      membership of any existing game. The system compared is the member's
      own. */
  function PlayerChecks(games: seq<Game>, world: World, member: ClientId, sid: SystemId): (e: Eligibility)
    ensures e == Eligible <==>
      world.systemOf(member) == sid && world.hasShip(member) && member !in Players(games)
    ensures e == WrongSystem <==> world.systemOf(member) != sid
    ensures e == NotInSpace <==> world.systemOf(member) == sid && !world.hasShip(member)
    ensures e == AlreadyPlaying ==> member in Players(games)
  {
    if world.systemOf(member) != sid then WrongSystem
    else if !world.hasShip(member) then NotInSpace
    else if InSomeGame(games, member) then AlreadyPlaying
    else Eligible
  }

  /** The loop over `games` searching each member list. */
  function InSomeGame(games: seq<Game>, member: ClientId): (b: bool)
    ensures b <==> member in Players(games)
  {
    if |games| == 0 then false
    else
      assert games == [games[0]] + games[1..];
      SetsCons(games[0], games[1..]);
      member in games[0].members || InSomeGame(games[1..], member)
  }

  /** The members a new game gets: the requester's group, or the requester. */
  function Candidates(world: World, client: ClientId): (r: seq<ClientId>)
    ensures world.groupId == 0 ==> r == [client]
    ensures world.groupId != 0 ==> r == world.groupList
    ensures |r| == 0 <==> world.groupId != 0 && |world.groupList| == 0
  {
    if world.groupId != 0 then world.groupList else [client]
  }

  /** First candidate (in list order) failing PlayerChecks, with its reason. */
  function FirstIneligible(games: seq<Game>, world: World, cands: seq<ClientId>, sid: SystemId): (r: Option<(ClientId, Eligibility)>)
    ensures r.None? <==> forall k | 0 <= k < |cands| :: PlayerChecks(games, world, cands[k], sid) == Eligible
    ensures r.Some? ==> exists k | 0 <= k < |cands| ::
      && cands[k] == r.value.0
      && r.value.1 == PlayerChecks(games, world, cands[k], sid)
      && r.value.1 != Eligible
      && forall j | 0 <= j < k :: PlayerChecks(games, world, cands[j], sid) == Eligible
  {
    if |cands| == 0 then None
    else
      var e := PlayerChecks(games, world, cands[0], sid);
      if e != Eligible then Some((cands[0], e))
      else
        var rest := FirstIneligible(games, world, cands[1..], sid);
        assert forall k | 0 <= k < |cands| - 1 :: cands[1..][k] == cands[k + 1];
        if rest.Some? then
          var k :| 0 <= k < |cands| - 1 && cands[1..][k] == rest.value.0
            && rest.value.1 == PlayerChecks(games, world, cands[1..][k], sid) && rest.value.1 != Eligible
            && forall j | 0 <= j < k :: PlayerChecks(games, world, cands[1..][j], sid) == Eligible;
          assert forall j | 0 <= j < k + 1 :: PlayerChecks(games, world, cands[j], sid) == Eligible by {
            forall j | 0 <= j < k + 1
              ensures PlayerChecks(games, world, cands[j], sid) == Eligible
            {
              if j > 0 { assert cands[j] == cands[1..][j - 1]; }
            }
          }
          rest
        else rest
  }

  /** The first configured system with the given id (the loop that breaks on a match). */
  function FindSystem(systems: seq<StarSystem>, sid: SystemId): (r: Option<StarSystem>)
    ensures r.None? <==> forall s | s in systems :: s.systemId != sid
    ensures r.Some? ==> r.value in systems && r.value.systemId == sid
    ensures r.Some? ==> exists k | 0 <= k < |systems| ::
      systems[k] == r.value && forall j | 0 <= j < k :: systems[j].systemId != sid
  {
    if |systems| == 0 then None
    else if systems[0].systemId == sid then Some(systems[0])
    else
      assert systems == [systems[0]] + systems[1..];
      var r := FindSystem(systems[1..], sid);
      if r.Some? then
        var k :| 0 <= k < |systems| - 1 && systems[1..][k] == r.value
          && forall j | 0 <= j < k :: systems[1..][j].systemId != sid;
        assert systems[k + 1] == systems[1..][k];
        assert forall j | 0 <= j < k + 1 :: systems[j].systemId != sid by {
          forall j | 0 <= j < k + 1
            ensures systems[j].systemId != sid
          {
            if j > 0 { assert systems[j] == systems[1..][j - 1]; }
          }
        }
        r
      else r
  }

  /** The bystander check as the source writes it: it rejects as soon as any
      active player is in a system OTHER than the requester's (including
      players far away), not when a stranger shares the requester's system. */
  function SomeoneElsewhere(world: World, sid: SystemId): (b: bool)
    ensures b <==> exists p | p in world.active :: world.systemOf(p) != sid
  {
    ElsewhereFrom(world, sid, 0)
  }

  /** The traversal of the active players from position `i`, returning on the
      first one found in another system. */
  function ElsewhereFrom(world: World, sid: SystemId, i: nat): (b: bool)
    requires i <= |world.active|
    ensures b <==> exists k | i <= k < |world.active| :: world.systemOf(world.active[k]) != sid
    decreases |world.active| - i
  {
    if i == |world.active| then false
    else if world.systemOf(world.active[i]) != sid then true
    else ElsewhereFrom(world, sid, i + 1)
  }

  /** The game NewGame pushes. Its groupId is never written, so it keeps the
      default 0 even when the members came from a group. */
  function FreshGame(system: StarSystem, members: seq<ClientId>): Game
  {
    Game(system, members, 0, 0, false, [], [])
  }

  /** The `/wave` command. Either a rejection (the registry is left as it
      was) or the registry with one new game appended. */
  function NewGame(reg: Registry, config: Config, world: World, client: ClientId): (r: Result<Registry, Rejection>)
    ensures var sid := world.systemOf(client);
      r == Err(AlreadyRunning) <==> sid in Sids(reg.games)
    ensures var sid := world.systemOf(client);
      r == Err(NoGameHere) <==>
        sid !in Sids(reg.games) && (sid == 0 || forall s | s in config.systems :: s.systemId != sid)
    ensures var sid := world.systemOf(client);
      r == Err(Bystanders) <==>
        && sid !in Sids(reg.games) && sid != 0 && (exists s | s in config.systems :: s.systemId == sid)
        && SomeoneElsewhere(world, sid)
    ensures var sid := world.systemOf(client);
      r.Ok? <==>
        && sid !in Sids(reg.games) && sid != 0
        && (exists s | s in config.systems :: s.systemId == sid)
        && !SomeoneElsewhere(world, sid)
        && forall m | m in Candidates(world, client) :: PlayerChecks(reg.games, world, m, sid) == Eligible
    ensures r.Err? && r.error.Ineligible? ==>
      && r.error.member in Candidates(world, client)
      && r.error.reason == PlayerChecks(reg.games, world, r.error.member, world.systemOf(client))
      && r.error.reason != Eligible
    ensures r.Err? && r.error.Ineligible? ==>
      FirstIneligible(reg.games, world, Candidates(world, client), world.systemOf(client))
        == Some((r.error.member, r.error.reason))
    ensures r.Ok? ==>
      && r.value.pending == reg.pending
      && |r.value.games| == |reg.games| + 1
      && r.value.games[..|reg.games|] == reg.games
      && var g := r.value.games[|reg.games|];
         && g.Sid() == world.systemOf(client)
         && g.system in config.systems
         && g.system == FindSystem(config.systems, world.systemOf(client)).value
         && g.members == Candidates(world, client)
         && g.waveNumber == 0 && !g.started && g.groupId == 0
         && g.spawnedNpcs == [] && g.spawnedSolars == []
  {
    var sid := world.systemOf(client);
    if InSomeSystem(reg.games, sid) then Err(AlreadyRunning)
    else
      match FindSystem(config.systems, sid)
      case None => Err(NoGameHere)
      case Some(system) =>
        // an unmatched game keeps the default system id 0, which is the test the source makes
        if system.systemId == 0 then Err(NoGameHere)
        else if SomeoneElsewhere(world, sid) then Err(Bystanders)
        else
          var cands := Candidates(world, client);
          match FirstIneligible(reg.games, world, cands, sid)
          case Some((m, why)) => Err(Ineligible(m, why))
          case None =>
            Ok(Registry(reg.games + [FreshGame(system, cands)], reg.pending))
  }

  /** The loop over `games` comparing system ids. */
  function InSomeSystem(games: seq<Game>, sid: SystemId): (b: bool)
    ensures b <==> sid in Sids(games)
  {
    FindGame(games, sid).Some?
  }

  /** A successful NewGame keeps the registry invariant: at most one game per
      system and no client in two games. Needs a configuration whose systems
      have waves and a group list that is non-empty and lists nobody twice. */
  lemma NewGameValid(reg: Registry, config: Config, world: World, client: ClientId)
    requires Valid(reg)
    requires ConfigOk(config)
    requires world.groupId != 0 ==> |world.groupList| > 0 && NoDup(world.groupList)
    requires NewGame(reg, config, world, client).Ok?
    ensures Valid(NewGame(reg, config, world, client).value)
  {
    var r := NewGame(reg, config, world, client).value;
    var g := r.games[|reg.games|];
    var sid := world.systemOf(client);
    assert r.games == reg.games + [g];
    forall p | p in g.members
      ensures p !in Players(reg.games)
    {
      assert PlayerChecks(reg.games, world, p, sid) == Eligible;
    }
    AppendValid(reg.games, g);
  }

  lemma AppendValid(games: seq<Game>, g: Game)
    requires ValidGames(games)
    requires Live(g)
    requires g.Sid() !in Sids(games)
    requires forall p | p in g.members :: p !in Players(games)
    ensures ValidGames(games + [g])
  {
    var all := games + [g];
    forall i, j | 0 <= i < j < |all|
      ensures all[i].Sid() != all[j].Sid() && Disjoint(all[i].members, all[j].members)
    {
      assert all[i] == games[i] && all[i] in games;
      if j == |games| {
        assert all[j] == g;
        forall p | p in all[i].members
          ensures p !in g.members
        {
          assert p in Players(games);
        }
      } else {
        assert all[j] == games[j];
      }
    }
    assert forall h | h in all :: h in games || h == g;
  }
}
