/** Starting and ending a wave of one game (NewWave and EndWave in
    wave_defence/WaveDefence.cpp), reduced to their effect on the game record.
    Each CreateNpc / CreateSolar call is numbered by a running counter and the
    spawner's answer to call number n is `spawner(n)`. */
module WaveFlow {
  import opened SeqUtil
  import opened WaveState

  /** The ids handed out by calls start, start+1, ..., start+n-1. */
  function Ids(spawner: nat -> SpawnId, start: nat, n: nat): (r: seq<SpawnId>)
    ensures |r| == n
  {
    seq(n, k requires 0 <= k < n => spawner(start + k))
  }

  lemma IdsSplit(spawner: nat -> SpawnId, start: nat, n: nat, m: nat)
    ensures Ids(spawner, start, n) + Ids(spawner, start + n, m) == Ids(spawner, start, n + m)
  {
  }

  /** A spawn loop's result: the ids in call order and the next call number. */
  datatype Batch = Batch(ids: seq<SpawnId>, next: nat)

  /** One spawn call per archetype, in list order. */
  function SpawnEach(archetypes: seq<Nickname>, spawner: nat -> SpawnId, next: nat): (b: Batch)
    ensures b.ids == Ids(spawner, next, |archetypes|)
    ensures b.next == next + |archetypes|
  {
    if |archetypes| == 0 then Batch([], next)
    else
      var rest := SpawnEach(archetypes[1..], spawner, next + 1);
      IdsSplit(spawner, next, 1, |archetypes| - 1);
      Batch([spawner(next)] + rest.ids, rest.next)
  }

  /** The variable npcs: the whole list spawned `rounds` times over. */
  function SpawnRounds(archetypes: seq<Nickname>, rounds: nat, spawner: nat -> SpawnId, next: nat): (b: Batch)
    decreases rounds
  {
    if rounds == 0 then Batch([], next)
    else
      var once := SpawnEach(archetypes, spawner, next);
      var rest := SpawnRounds(archetypes, rounds - 1, spawner, once.next);
      Batch(once.ids + rest.ids, rest.next)
  }

  /** `rounds` passes over the list make rounds * |list| consecutive calls. */
  lemma {:induction false} SpawnRoundsCount(archetypes: seq<Nickname>, rounds: nat, spawner: nat -> SpawnId, next: nat)
    ensures SpawnRounds(archetypes, rounds, spawner, next).ids == Ids(spawner, next, rounds * |archetypes|)
    ensures SpawnRounds(archetypes, rounds, spawner, next).next == next + rounds * |archetypes|
    decreases rounds
  {
    if rounds > 0 {
      var n := |archetypes|;
      SpawnRoundsCount(archetypes, rounds - 1, spawner, next + n);
      IdsSplit(spawner, next, n, (rounds - 1) * n);
      assert n + (rounds - 1) * n == rounds * n;
    }
  }

  /** NewWave's spawn loops with the spawner reachable: the wave's fixed npcs, then
      `multiplier` rounds of its variable npcs, then its solars. The ids are
      appended to the game's lists (which are not cleared first). */
  function SpawnWave(g: Game, multiplier: nat, spawner: nat -> SpawnId, next: nat): (r: Batch)
    requires g.waveNumber < |g.system.waves|
  {
    var w := g.system.waves[g.waveNumber];
    var fixed := SpawnEach(w.npcs, spawner, next);
    var variable := SpawnRounds(w.variableNpcs, multiplier, spawner, fixed.next);
    var solars := SpawnEach(w.solars, spawner, variable.next);
    Batch(fixed.ids + variable.ids + solars.ids, solars.next)
  }

  /** Number of npcs a wave spawns. */
  function NpcCount(w: Wave, multiplier: nat): nat
  {
    |w.npcs| + multiplier * |w.variableNpcs|
  }

  /** The npc spawner calls one NewWave makes on a game: one per npc of the
      current wave, the variable npcs counted `multiplier` times. A game past
      its last wave gets none (NewWave is never called on one). */
  function NpcCalls(g: Game, multiplier: nat): nat
  {
    if g.waveNumber < |g.system.waves| then NpcCount(g.system.waves[g.waveNumber], multiplier) else 0
  }

  /** The solar spawner calls one NewWave makes on a game. */
  function SolarCalls(g: Game): nat
  {
    if g.waveNumber < |g.system.waves| then |g.system.waves[g.waveNumber].solars| else 0
  }

  /** All spawner calls one NewWave makes on a game. */
  function WaveCalls(g: Game, multiplier: nat): nat
  {
    NpcCalls(g, multiplier) + SolarCalls(g)
  }

  /** `g` with its current wave's npc ids drawn from the calls numbered `at`
      on, and its solar ids from the calls right after them. */
  function WithWave(g: Game, multiplier: nat, spawner: nat -> SpawnId, at: nat): Game
  {
    var n := NpcCalls(g, multiplier);
    g.(spawnedNpcs := g.spawnedNpcs + Ids(spawner, at, n),
       spawnedSolars := g.spawnedSolars + Ids(spawner, at + n, SolarCalls(g)))
  }

  /** NewWave's effect on the game when the spawner is reachable: the game
      with its wave's ids drawn from the calls numbered `next` on, and the
      counter moved past exactly those calls. */
  function NewWave(g: Game, multiplier: nat, spawner: nat -> SpawnId, next: nat): (r: (Game, nat))
    requires g.waveNumber < |g.system.waves|
    ensures r == (WithWave(g, multiplier, spawner, next), next + WaveCalls(g, multiplier))
  {
    var w := g.system.waves[g.waveNumber];
    var b := SpawnWave(g, multiplier, spawner, next);
    SpawnRoundsCount(w.variableNpcs, multiplier, spawner, next + |w.npcs|);
    IdsSplit(spawner, next, |w.npcs|, multiplier * |w.variableNpcs|);
    var n := NpcCount(w, multiplier);
    IdsSplit(spawner, next, n, |w.solars|);
    assert b.ids == Ids(spawner, next, n) + Ids(spawner, next + n, |w.solars|);
    assert b.ids[..n] == Ids(spawner, next, n);
    assert b.ids[n..] == Ids(spawner, next + n, |w.solars|);
    // the first n ids are the npcs', the rest the solars'
    (g.(spawnedNpcs := g.spawnedNpcs + b.ids[..n], spawnedSolars := g.spawnedSolars + b.ids[n..]), b.next)
  }

  /** What EndWave leaves of a game (None: the game was ended) and the reward
      it pays out. */
  datatype WaveEnd = WaveEnd(survivor: Option<Game>, payout: Payout)

  /** EndWave: pay the wave's reward (to the group if the game has a group id,
      else to the leader), advance the wave number, and end the game if no
      wave is left. Queuing the next wave is done by the caller. */
  function EndWave(g: Game): (r: WaveEnd)
    requires g.waveNumber < |g.system.waves|
    requires g.groupId == 0 ==> |g.members| > 0
    ensures r.payout.amount == g.system.waves[g.waveNumber].reward
    ensures r.payout.LeaderCash? <==> g.groupId == 0
    ensures r.payout.LeaderCash? ==> r.payout.player == g.members[0]
    ensures r.payout.GroupReward? ==> r.payout.groupId == g.groupId
    ensures r.survivor.Some? <==> g.waveNumber + 1 < |g.system.waves|
    ensures r.survivor.Some? ==>
      r.survivor.value == g.(waveNumber := g.waveNumber + 1) && r.survivor.value.waveNumber < |g.system.waves|
  {
    var reward := g.system.waves[g.waveNumber].reward;
    var payout := if g.groupId != 0 then GroupReward(g.groupId, reward) else LeaderCash(g.members[0], reward);
    var next := g.(waveNumber := g.waveNumber + 1);
    if next.waveNumber >= |g.system.waves| then WaveEnd(None, payout)
    else WaveEnd(Some(next), payout)
  }
}
