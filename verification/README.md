# Wave defence and NPC bounty: a Dafny model

This project models two plugins of an FLHook server (Freelancer).

**Wave defence.** A group of players starts a game in a star system with `/wave`. The plugin then spawns waves of NPCs and solars. When every spawned object of a wave is destroyed, the wave ends: its reward is paid, and the next wave is queued for a timer. The game ends after the last wave. A player who disconnects, docks or undocks is removed from the game.

The model keeps the plugin's global state as an immutable `Registry`:

- `games`: one `Game` per system. Each game has its star system, its members (the first one is the leader), its group id, its wave number, a started flag, and the ids of its spawned NPCs and solars.
- `pending`: the systems queued for their next wave.

Each entry point is a pure function from the registry to the next registry. The engine is an input:

- `World` gives each player's system, whether they are in space, the active players, and the requester's group.
- `spawner(n)` is the id the spawner plugin hands out on call number `n`.
- `ipc` says whether the spawner plugins are reachable.
- `multiplier` is the configured `npcMultiplier`; the timers and NewWave take it as a parameter, and `Config` keeps only the systems.

**NPC bounty.** When a player kills a ship, the killer may be paid the bounty listed for that ship's name. The model covers:

- the guards;
- the extraction of the ship name from the archetype's model path (everything after the last `\`, cut before the first `.cmp`);
- the first-match lookup in the bounty table.

String positions use a 32-bit `size_t`, so `npos + 1` wraps to 0. That is how a path without a backslash keeps its whole text.

The modules are:

- `SeqUtil`: Option/Result and the two vector erase idioms.
- `WaveState`: the registry, its invariant `Valid` and EndGame.
- `WaveLobby`: PlayerChecks and NewGame.
- `WaveFlow`: NewWave and EndWave.
- `WaveEvents`: the destruction hooks and Disqualify.
- `WaveTimers`: GameTimer and WaveTimer.
- `NpcBounty`.

The invariant `Valid` has four parts:

- at most one game per system;
- no client in two games;
- every game has a leader, no duplicate members, and a wave index `waves.at` accepts;
- every game has group id 0, because NewGame never writes it.

Every operation is proved to keep `Valid`.

Four places where the code does something unexpected are modelled as written and commented where they occur:

- The bystander check rejects a `/wave` command when any active player is in a *different* system from the requester's.
- NewGame never sets `groupId`, so rewards always go to the leader.
- PlayerLaunch disqualifies the player too.
- A destruction event ends the wave of *every* game whose two lists are both empty. That includes games that never held the destroyed id, games not yet started, and games already waiting for their next wave (`WaveEvents.StrayKillEndsWave`).

## Model

| member | source | states |
|---|---|---|
| SeqUtil.RemoveAll | wave_defence/WaveDefence.cpp:400-402 | `erase(remove_if(...))`: the value is gone, and every other element keeps its multiplicity; a list without it is unchanged |
| SeqUtil.RemoveAllConcat | wave_defence/WaveDefence.cpp:429-431 | removing distributes over concatenation, so the survivors keep their relative order |
| SeqUtil.RemoveFirst | wave_defence/WaveDefence.cpp:447-457 | `erase(find(...))` removes exactly one element when the value occurs and none otherwise |
| SeqUtil.RemoveFirstAt | wave_defence/WaveDefence.cpp:447-457 | the erased element is the first occurrence, and the rest are spliced together in order |
| SeqUtil.RemoveFirstNoDup | wave_defence/WaveDefence.cpp:447-457 | in a member list without duplicates, erasing the client removes it entirely, adds nobody and keeps the list duplicate-free |
| WaveState.FindGame | wave_defence/WaveDefence.cpp:363-365 | `find_if` on the system id: the index of the first game in that system, or none exactly when no game is in it |
| WaveState.WithoutMembers | wave_defence/WaveDefence.cpp:172-173 | `remove_if` on the system id: a game survives iff its system differs from the one ended |
| WaveState.EndGame | wave_defence/WaveDefence.cpp:153-174 | every game of the system is removed, no other game is touched, and the pending list is unchanged |
| WaveState.EndGameRemovesOne | wave_defence/WaveDefence.cpp:172-173 | with one game per system, ending game i splices exactly that game out and keeps the others in order |
| WaveState.WithoutAbsent | wave_defence/WaveDefence.cpp:172-173 | ending a system that has no game changes nothing |
| WaveState.EndGameValid | wave_defence/WaveDefence.cpp:153-174 | EndGame keeps the registry invariant |
| WaveState.ShrinksValid | wave_defence/WaveDefence.cpp:398-407 | dropping games and refining the rest (same system, members drawn from the old ones, still live) keeps the invariant |
| WaveLobby.PlayerChecks | wave_defence/WaveDefence.cpp:115-148 | a member is eligible iff it is in the given system, has a ship and is in no game; each failure is reported in the source's order (system, ship, membership) |
| WaveLobby.InSomeGame | wave_defence/WaveDefence.cpp:138-145 | the membership loop answers exactly "is a member of some game" |
| WaveLobby.FirstIneligible | wave_defence/WaveDefence.cpp:309-313 | none iff every candidate passes; otherwise the first failing candidate in list order, with its reason |
| WaveLobby.FindSystem | wave_defence/WaveDefence.cpp:265-273 | none iff no configured system has the id; otherwise the system at the first position with that id, with no earlier system having it |
| WaveLobby.InSomeSystem | wave_defence/WaveDefence.cpp:254-261 | the duplicate check answers exactly "some game runs in this system" |
| WaveLobby.NewGame | wave_defence/WaveDefence.cpp:247-318 | each rejection happens exactly when the source's check fails, in the source's order (game already running, no configured system or id 0, someone in another system, an ineligible member) and leaves the registry as it was. The ineligible member reported is the first failing candidate, with its reason; success appends exactly one game in the requester's system, after the unchanged old games. The new game holds the system FindSystem picks (the first configured match) and has the group list (or the requester alone) as members, wave 0, not started, group id 0 and empty spawn lists |
| WaveLobby.Candidates | wave_defence/WaveDefence.cpp:295-306 | the members of a new game are the requester's group list when the requester has a group id, and the requester alone otherwise; the list is empty only when the requester has a group id and the stored group list is empty |
| WaveLobby.SomeoneElsewhere | wave_defence/WaveDefence.cpp:281-293 | the bystander check, as the source writes it, holds iff some active player is in a system other than the requester's, even a player far away. `ElsewhereFrom`, the traversal that returns on the first such player, holds iff one exists from its position on. NewGame rejects with Bystanders exactly then |
| WaveLobby.NewGameValid | wave_defence/WaveDefence.cpp:295-317 | a successful NewGame keeps one game per system and no client in two games |
| WaveFlow.SpawnEach | wave_defence/WaveDefence.cpp:201-204 | one spawner call per archetype, in list order, with the ids recorded in call order |
| WaveFlow.SpawnRoundsCount | wave_defence/WaveDefence.cpp:207-213 | the multiplier loop makes multiplier times list-length consecutive spawner calls |
| WaveFlow.NewWave | wave_defence/WaveDefence.cpp:179-220 | the game gains, after its old ids, the npc ids of the spawner calls numbered from the counter on (npcs + multiplier * variableNpcs of them) and the solar ids of the calls right after; nothing else about the game changes, and the counter moves past exactly those calls |
| WaveFlow.EndWave | wave_defence/WaveDefence.cpp:323-355 | the wave's reward is paid to the group iff the game has a group id, otherwise to the leader; the wave number rises by exactly one; the game survives iff a wave is left |
| WaveEvents.Untrack | wave_defence/WaveDefence.cpp:400-402 | removing the id leaves the game's system, members, group, wave number, start flag and the list of the other kind unchanged |
| WaveEvents.UntrackLists | wave_defence/WaveDefence.cpp:400-402 | the list of the given kind loses exactly the occurrences of the id and keeps the rest in order; the other list is unchanged |
| WaveEvents.HitGame | wave_defence/WaveDefence.cpp:398-407 | one loop pass on one game: the id is erased, and the wave ends iff both lists are then empty. Ending it pays the current wave's reward to the leader, or to the group when the game has a group id. It also advances the wave, and either queues the game or finishes it |
| WaveEvents.Sweep | wave_defence/WaveDefence.cpp:398-407 | after the loop no surviving game tracks the id, and no game is added |
| WaveEvents.SweepSids | wave_defence/WaveDefence.cpp:398-407 | the loop creates no game and queues only systems that had a game |
| WaveEvents.SweepPerGame | wave_defence/WaveDefence.cpp:398-407 | with one game per system, each system ends up exactly as one loop pass leaves its game, and is queued exactly when that pass queues it |
| WaveEvents.Destroyed | wave_defence/WaveDefence.cpp:396-437 | the id is gone from every surviving game; the pending list is only extended |
| WaveEvents.SweepPayouts | wave_defence/WaveDefence.cpp:329-338 | the loop's rewards are, in game order, one leader reward per game whose two lists end up empty, and nothing for the other games |
| WaveEvents.SweepQueued | wave_defence/WaveDefence.cpp:351-354 | the systems the loop queues are, in game order, one entry per game whose two lists end up empty with a wave left after the current one, and none for any other game |
| WaveEvents.QueuedOnce | wave_defence/WaveDefence.cpp:351-354 | with one game per system, game k's system occurs in that queue once if its loop pass queues it and not at all otherwise |
| WaveEvents.DestroyedQueued | wave_defence/WaveDefence.cpp:351-354 | a destruction event appends exactly those queued systems, in game order, after the old pending list |
| WaveEvents.DestroyedPayouts | wave_defence/WaveDefence.cpp:329-338 | on a valid registry, a destruction event pays, in game order, each cleared game's leader the reward of the wave it was on, and pays no one else |
| WaveEvents.BaseDestroyed | wave_defence/WaveDefence.cpp:396-408 | the solar id is gone from every game; the old pending entries are kept in front |
| WaveEvents.ShipDestroyed | wave_defence/WaveDefence.cpp:416-437 | a player ship changes nothing and pays nothing; any other ship's id is gone from every npc list |
| WaveEvents.SweepShrinks | wave_defence/WaveDefence.cpp:398-407 | every game whose wave ends has a wave and a leader, and the loop only drops or refines games |
| WaveEvents.DestroyedValid | wave_defence/WaveDefence.cpp:396-437 | both destruction hooks keep the registry invariant |
| WaveEvents.DestroyedEffect | wave_defence/WaveDefence.cpp:396-437 | on a valid registry, each system's game after the hook is what one loop pass leaves of it (ended: no game); its system is newly queued iff that pass queued it; no other system appears |
| WaveEvents.StrayKillEndsWave | wave_defence/WaveDefence.cpp:427-436 | a game that never held the killed npc, with both lists empty, still has its wave ended and paid |
| WaveEvents.DisqualifyFrom | wave_defence/WaveDefence.cpp:445-477 | the loop from game i keeps the pending list, and is a no-op when no later game lists the client |
| WaveEvents.Disqualify | wave_defence/WaveDefence.cpp:442-478 | disqualifying a client in no game changes nothing |
| WaveEvents.DisqualifyMember | wave_defence/WaveDefence.cpp:447-470 | for a member of game i, the game is removed (others kept in order) iff the client was its only member; otherwise exactly that entry leaves the member list |
| WaveEvents.DisqualifyValid | wave_defence/WaveDefence.cpp:442-478 | Disqualify keeps the invariant and leaves the client in no game |
| WaveEvents.DisqualifyIdempotent | wave_defence/WaveDefence.cpp:442-478 | disqualifying twice is the same as once |
| WaveEvents.OnPlayerEvent | wave_defence/WaveDefence.cpp:481-494 | after a disconnect, a dock or a launch the player is in no game, the invariant holds and the pending list is kept |
| WaveTimers.NewWaveGrows | wave_defence/WaveDefence.cpp:201-220 | NewWave keeps the old spawn ids in front and adds exactly one wave's worth of ids |
| WaveTimers.StartOne | wave_defence/WaveDefence.cpp:377-387 | one loop pass: a started game is untouched and makes no spawner call. Otherwise, with unreachable spawners the game is ended and no call is made; with reachable spawners it is flagged started and gets exactly one wave of ids, drawn from the spawner calls numbered from the counter on, and the counter moves past those calls |
| WaveTimers.StartAll | wave_defence/WaveDefence.cpp:375-388 | every game left is started. Spawners unreachable: exactly the games already started are left, and no spawner call is made. Spawners reachable: no game is dropped, and the counter moves past exactly one wave's spawner calls per game that had not started |
| WaveTimers.StartAllReachable | wave_defence/WaveDefence.cpp:375-388 | spawners reachable: game k stays at position k. A started game is unchanged; any other is started with one wave spawned |
| WaveTimers.StartAllOne | wave_defence/WaveDefence.cpp:375-388 | the loop over a single game is that game's pass |
| WaveTimers.StartAllAppend | wave_defence/WaveDefence.cpp:375-388 | the loop over `a + b` is the loop over `a`, then the loop over `b` from the counter `a` leaves |
| WaveTimers.StartAllAt | wave_defence/WaveDefence.cpp:375-388 | spawners reachable: the game after the games `a` comes out exactly as its own pass leaves it, run from the counter the games `a` leave (next plus their calls), so its new ids are the calls right after those of every earlier game |
| WaveTimers.GameTimer | wave_defence/WaveDefence.cpp:373-389 | the same for the registry, including the spawner call count; the pending list is untouched |
| WaveTimers.GameTimerValid | wave_defence/WaveDefence.cpp:373-389 | GameTimer keeps the registry invariant |
| WaveTimers.Advance | wave_defence/WaveDefence.cpp:363-365 | one queued system: spawners unreachable, that system's game is ended and nothing else; reachable, only the first game in that system grows by one wave, and the counter moves past exactly that wave's spawner calls. A system with no game changes nothing |
| WaveTimers.AdvanceIds | wave_defence/WaveDefence.cpp:363-365 | spawners reachable: the first game in the queued system gets the ids of the spawner calls numbered from the counter on, and every other game is unchanged |
| WaveTimers.AdvanceAll | wave_defence/WaveDefence.cpp:362-366 | unreachable spawners end exactly the games whose system is queued; reachable, no game is added or removed |
| WaveTimers.AdvanceAllCalls | wave_defence/WaveDefence.cpp:362-366 | spawners reachable: the counter moves past one wave's spawner calls per queue entry whose system has a game, counted on that game's current wave (NewWave does not move the wave number, so a repeated entry spawns the same wave again) |
| WaveTimers.AdvanceAllOne | wave_defence/WaveDefence.cpp:362-366 | the loop over a queue of one system is one Advance |
| WaveTimers.AdvanceAllAppend | wave_defence/WaveDefence.cpp:362-366 | the loop over `p + q` is the loop over `p`, then the loop over `q` on the games and from the counter `p` leaves |
| WaveTimers.WaveTimer | wave_defence/WaveDefence.cpp:360-368 | the pending list is always left empty; unreachable spawners end exactly the queued games and make no spawner call; reachable, the counter moves past the calls AdvanceAllCalls counts |
| WaveTimers.AdvanceAllGrows | wave_defence/WaveDefence.cpp:362-366 | with one game per system, each game grows by one wave per occurrence of its system in the queue, and nothing else about it changes |
| WaveTimers.WaveTimerGrows | wave_defence/WaveDefence.cpp:360-368 | the same for a valid registry, with the queue emptied |
| WaveTimers.WaveTimerValid | wave_defence/WaveDefence.cpp:360-368 | WaveTimer keeps the registry invariant |
| NpcBounty.FindLastOf | npc_bounty/NpcBounty.cpp:80 | `find_last_of('\\')`: npos iff there is no backslash, otherwise the index of a backslash with none after it |
| NpcBounty.Find | npc_bounty/NpcBounty.cpp:84 | `find(".cmp")`: npos iff there is no occurrence, otherwise the first occurrence |
| NpcBounty.SuffixAfterLast | npc_bounty/NpcBounty.cpp:80-82 | the result is a suffix of the path with no backslash, and the whole path when it has no backslash (npos + 1 wraps to 0) |
| NpcBounty.CutAtExt | npc_bounty/NpcBounty.cpp:84-88 | the result is a prefix with no ".cmp" in it, and the whole string when there is no ".cmp" |
| NpcBounty.AfterLastSepIs | npc_bounty/NpcBounty.cpp:80-82 | the `find_last_of`/`substr` cut equals the recursive definition "everything after the last backslash" |
| NpcBounty.BeforeExtIs | npc_bounty/NpcBounty.cpp:84-88 | the `find`/`substr` cut equals the recursive definition "everything before the first .cmp" |
| NpcBounty.ExtractShipName | npc_bounty/NpcBounty.cpp:79-88 | the extracted name contains no backslash and no ".cmp", and is no longer than the path |
| NpcBounty.ExtractShipNameSpec | npc_bounty/NpcBounty.cpp:79-88 | the extraction equals the reference cuts: the suffix after the last backslash (the whole path if there is none, since npos + 1 wraps to 0), then the prefix before the first ".cmp" (the whole suffix if there is none) |
| NpcBounty.ExtractShipNameIdempotent | npc_bounty/NpcBounty.cpp:79-88 | extracting from an extracted name changes nothing |
| NpcBounty.LookupBounty | npc_bounty/NpcBounty.cpp:102-116 | the price of the first entry whose name matches, or none iff no entry matches |
| NpcBounty.ClaimBounty | npc_bounty/NpcBounty.cpp:42-117 | there is a claim iff all of these hold: kill is non-zero, the inflictor is a player with id at most 9999999, the target is not too friendly, the table can be read, and some entry names the ship. The claim goes to the inflictor, at the price of the first matching entry |
| NpcBounty.ClaimByName | npc_bounty/NpcBounty.cpp:79-116 | two archetype paths with the same extracted name get the same claim |

## Left out

- Presentation is not modelled: mission texts, chat messages, music, voice lines (`SendComm`), the universe announcement and `RelocateClient`. They only talk to players or move ships.
- `LoadSettings` is not modelled. It parses JSON and hashes nicknames with a foreign function; the model takes the parsed `Config` as input.
- `CreateNpc` and `CreateSolar` are foreign calls into other plugins. They are replaced by the `spawner` function and the `ipc` flag.
- Reputation, attitude and location calls are not modelled: `GetRep`, `SetAttitude`, `GetGroupFeelingsTowards` and `GetLocation`. They return engine floats. The bounty hook's comparison with -0.75 is the boolean `tooFriendly`.
- `RewardMembers`, `DelMember` and `AddCash` are not modelled. A wave's reward is returned as a `Payout` value, and a bounty as a `Claim`.
- Reading `bounties.json` and parsing it is not modelled. The table is an `Option` input, None when the file cannot be opened. Prices are unbounded naturals rather than the `uint` the JSON is converted to.
- `jos_animations/JosAnimations.cpp` is not part of this model. It only forwards a solar-spawn call.
- Plugin registration (`ExportPluginInfo`) and the unused `enableBountyHunt` setting are not modelled.
- The header that declares `Game`, `Wave` and `System` is not part of this model. Their fields are taken from their uses in wave_defence/WaveDefence.cpp. Positions and voice lines are omitted.
- WaveEvents.Sweep: a game that EndWave finishes is dropped from a snapshot of the loop, rather than erased from the vector being iterated. Iterating an erased vector is undefined in the source. `WaveState.EndGameRemovesOne` shows that erasing by system id drops exactly that game when systems are unique.
- WaveTimers.StartAll: the same snapshot reading applies to GameTimer when NewWave ends a game because the spawners are unreachable.
- WaveTimers.Advance: a queued system with no game is a no-op. The source dereferences the end iterator there, which is undefined.
- WaveEvents.Destroyed: requires every game that the hook would end to have a wave in range and a leader. `WaveEvents.DestroyedValid` shows that any valid registry meets this.
- WaveLobby.NewGameValid: requires the requester's group list to be non-empty and free of duplicates. The source assumes this of `StoreMemberList` without checking it. It also requires `ConfigOk`, meaning every configured system has at least one wave. The source reads `waves.at(0)` of the copied system without checking this.
- NpcBounty.ExtractShipName: requires the path to be shorter than `npos`, which every string on the 32-bit server is. Embedded NUL characters are not modelled; the source's `std::string` is built from a C string.
- Engine lookups that return a result are assumed to succeed. Where one fails, its `.value()` throws, and the model does not represent that:
  - NpcBounty.ClaimBounty: predicts a claim for the first matching entry. There the source first calls `GetAffiliation` and `GetRep` and takes their `.value()`, which throws before `AddCash` if the lookup failed (npc_bounty/NpcBounty.cpp:109-110).
  - WaveFlow.EndWave: pays the leader. There the source takes `.value()` of `GetCharacterNameByID`, which throws before `waveNumber++` and before the caller queues the game (wave_defence/WaveDefence.cpp:336-337).
  - The same applies to the character-name lookups in the messages of PlayerChecks.
- WaveTimers.StartAllReachable: states each game's position, start flag and id counts, not which spawner calls its new ids come from. `WaveTimers.StartAllAt` states that, with `WaveTimers.StartOne`'s exact result.
- WaveTimers.GameTimer: states that every game is started and the total call count, not which calls each game's new ids come from. `WaveTimers.StartAllAt` and `WaveTimers.StartAllAppend` state that for the loop GameTimer runs.
- WaveTimers.AdvanceAllGrows: states each game's growth per queue entry, not which calls the new ids come from. `WaveTimers.AdvanceAllAppend`, `WaveTimers.AdvanceAllOne` and `WaveTimers.AdvanceIds` state that, one queue entry at a time.
- WaveTimers.WaveTimerGrows: the same as AdvanceAllGrows, for the registry.
- WaveLobby.PlayerChecks: follows the code, which reads the system of the member being checked, not the requester's.
