/** The bounty decision of npc_bounty/NpcBounty.cpp: when a ship dies, the
    killing player is paid the price listed for that ship's name in the
    bounty table. The ship name is cut out of the archetype's model path
    with `std::string` searches, modelled here with the 32-bit `size_t` of
    the server, so that `npos + 1` wraps to 0. */
module NpcBounty {
  import opened SeqUtil

  /** 2^32: `size_t` arithmetic is modulo this. */
  const SizeMod: nat := 0x1_0000_0000
  /** `std::string::npos`, the largest `size_t`. */
  const NPos: nat := SizeMod - 1
  /** The largest inflictor id the hook accepts as a player id. */
  const MaxPlayerId: nat := 9999999
  /** The extension cut off the model file name. */
  const CmpExt: string := ".cmp"

  /** A string the server can hold: every index differs from `npos`. */
  predicate Addressable(s: string)
  {
    |s| < NPos
  }

  /** `pat` occurs in `s` starting at `i`. */
  predicate OccursAt(s: string, pat: string, i: nat)
  {
    i + |pat| <= |s| && s[i..i + |pat|] == pat
  }

  /** `s.find_last_of(c)`: the index of the last `c`, or `npos`. */
  function FindLastOf(s: string, c: char): (r: nat)
    requires Addressable(s)
    ensures r == NPos || r < |s|
    ensures r == NPos <==> c !in s
    ensures r < |s| ==> s[r] == c && c !in s[r + 1..]
  {
    if |s| == 0 then NPos
    else if s[|s| - 1] == c then |s| - 1
    else
      var r := FindLastOf(s[..|s| - 1], c);
      assert s == s[..|s| - 1] + [s[|s| - 1]];
      if r == NPos then NPos
      else
        assert s[r + 1..] == s[..|s| - 1][r + 1..] + [s[|s| - 1]];
        r
  }

  /** `s.find(pat)`: the first index where `pat` occurs, or `npos`. */
  function Find(s: string, pat: string): (r: nat)
    requires Addressable(s)
    ensures r == NPos || r + |pat| <= |s|
    ensures r != NPos ==> OccursAt(s, pat, r)
    ensures forall j | 0 <= j <= |s| && j < r :: !OccursAt(s, pat, j)
    ensures r == NPos <==> forall j | 0 <= j <= |s| :: !OccursAt(s, pat, j)
  {
    FindFrom(s, pat, 0)
  }

  function FindFrom(s: string, pat: string, i: nat): (r: nat)
    requires Addressable(s) && i <= |s|
    requires forall j | 0 <= j < i :: !OccursAt(s, pat, j)
    ensures r == NPos || i <= r <= |s| - |pat|
    ensures r != NPos ==> OccursAt(s, pat, r)
    ensures forall j | 0 <= j <= |s| && j < r :: !OccursAt(s, pat, j)
    ensures r == NPos <==> forall j | 0 <= j <= |s| :: !OccursAt(s, pat, j)
    decreases |s| - i
  {
    if i + |pat| > |s| then
      assert forall j | i <= j <= |s| :: !OccursAt(s, pat, j);
      NPos
    else if s[i..i + |pat|] == pat then
      assert OccursAt(s, pat, i);
      i
    else FindFrom(s, pat, i + 1)
  }

  /** `s.substr(s.find_last_of('\\') + 1)`: the text after the last
      backslash. With no backslash, `npos + 1` wraps to 0 and the whole
      string is kept. */
  function SuffixAfterLast(s: string): (r: string)
    requires Addressable(s)
    ensures '\\' !in r
    ensures |r| <= |s| && r == s[|s| - |r|..]
    ensures '\\' !in s ==> r == s
  {
    var k := FindLastOf(s, '\\');
    WrapStart(k);
    s[(k + 1) % SizeMod..]
  }

  /** The text before the first ".cmp", or all of it when there is none. */
  function CutAtExt(s: string): (r: string)
    requires Addressable(s)
    ensures forall j | 0 <= j <= |r| :: !OccursAt(r, CmpExt, j)
    ensures |r| <= |s| && r == s[..|r|]
    ensures (forall j | 0 <= j <= |s| :: !OccursAt(s, CmpExt, j)) ==> r == s
  {
    var ext := Find(s, CmpExt);
    if ext != NPos then
      BeforeFirstClean(s, CmpExt);
      s[..ext]
    else s
  }

  /** The ship name as the hook extracts it: the part after the last
      backslash (all of it when there is none), cut before the first ".cmp"
      when there is one. */
  function ExtractShipName(path: string): (r: string)
    requires Addressable(path)
    ensures '\\' !in r
    ensures forall j | 0 <= j <= |r| :: !OccursAt(r, CmpExt, j)
    ensures |r| <= |path|
  {
    var tail := SuffixAfterLast(path);
    var r := CutAtExt(tail);
    assert forall i | 0 <= i < |r| :: r[i] == tail[i];
    r
  }

  /** The part before the first occurrence of a pattern contains none. */
  lemma BeforeFirstClean(s: string, pat: string)
    requires Addressable(s) && |pat| > 0 && Find(s, pat) != NPos
    ensures forall j | 0 <= j <= Find(s, pat) :: !OccursAt(s[..Find(s, pat)], pat, j)
  {
    var r := s[..Find(s, pat)];
    forall j | 0 <= j <= |r|
      ensures !OccursAt(r, pat, j)
    {
      if j + |pat| <= |r| {
        assert r[j..j + |pat|] == s[j..j + |pat|];
        assert !OccursAt(s, pat, j);
      }
    }
  }

  // ---------------------------------------------------------------------------
  // Reference definitions of the two cuts, by recursion on the string.

  /** What follows the last backslash; the whole string if it has none. */
  function AfterLastSep(s: string): string
    decreases |s|
  {
    if |s| == 0 then []
    else if s[|s| - 1] == '\\' then []
    else AfterLastSep(s[..|s| - 1]) + [s[|s| - 1]]
  }

  /** What precedes the first ".cmp"; the whole string if it has none. */
  function BeforeExt(s: string): string
    decreases |s|
  {
    if |s| < |CmpExt| then s
    else if s[..|CmpExt|] == CmpExt then []
    else [s[0]] + BeforeExt(s[1..])
  }

  /** `npos + 1` wraps to 0 in 32-bit `size_t`; any other index just steps. */
  lemma WrapStart(k: nat)
    requires k == NPos || k < NPos
    ensures (k + 1) % SizeMod == if k == NPos then 0 else k + 1
  {
  }

  lemma {:induction false} AfterLastSepIs(s: string)
    requires Addressable(s)
    ensures AfterLastSep(s) == SuffixAfterLast(s)
    decreases |s|
  {
    if |s| > 0 && s[|s| - 1] != '\\' {
      var init := s[..|s| - 1];
      AfterLastSepIs(init);
      AfterLastSepStep(s);
    } else {
      WrapStart(FindLastOf(s, '\\'));
    }
  }

  /** A last character other than a backslash moves the cut point nowhere:
      the suffix grows by that character. */
  lemma AfterLastSepStep(s: string)
    requires Addressable(s) && |s| > 0 && s[|s| - 1] != '\\'
    ensures var init := s[..|s| - 1];
      SuffixAfterLast(s) == SuffixAfterLast(init) + [s[|s| - 1]]
  {
    var init := s[..|s| - 1];
    var k := FindLastOf(init, '\\');
    assert FindLastOf(s, '\\') == k;
    WrapStart(k);
    var start := if k == NPos then 0 else k + 1;
    assert s[start..] == init[start..] + [s[|s| - 1]];
  }

  /** Searching a string that does not start with the pattern is searching
      its tail, shifted by one. */
  lemma FindShift(s: string, pat: string)
    requires Addressable(s) && 0 < |s| && !OccursAt(s, pat, 0)
    ensures var e := Find(s[1..], pat);
      Find(s, pat) == if e == NPos then NPos else e + 1
  {
    var t := s[1..];
    var e := Find(s, pat);
    var e' := Find(t, pat);
    forall j | 0 <= j <= |t|
      ensures OccursAt(t, pat, j) <==> OccursAt(s, pat, j + 1)
    {
      OccursShift(s, pat, j);
    }
    if e' != NPos {
      assert OccursAt(s, pat, e' + 1);
      assert e != NPos && e <= e' + 1;
      assert OccursAt(t, pat, e - 1);
    } else {
      forall j | 0 <= j <= |s|
        ensures !OccursAt(s, pat, j)
      {
        if j > 0 {
          assert !OccursAt(t, pat, j - 1);
        }
      }
    }
  }

  lemma OccursShift(s: string, pat: string, j: nat)
    requires 0 < |s| && j < |s|
    ensures OccursAt(s[1..], pat, j) <==> OccursAt(s, pat, j + 1)
  {
    var t := s[1..];
    if j + |pat| <= |t| {
      assert t[j..j + |pat|] == s[j + 1..j + 1 + |pat|] by {
        forall m | j <= m < j + |pat|
          ensures t[m] == s[m + 1]
        {
        }
      }
    }
  }

  lemma {:induction false} BeforeExtIs(s: string)
    requires Addressable(s)
    ensures BeforeExt(s) == CutAtExt(s)
    decreases |s|
  {
    if |s| < |CmpExt| {
      assert forall j | 0 <= j <= |s| :: !OccursAt(s, CmpExt, j);
    } else if s[..|CmpExt|] == CmpExt {
      assert OccursAt(s, CmpExt, 0);
    } else {
      var t := s[1..];
      BeforeExtIs(t);
      FindShift(s, CmpExt);
      var e' := Find(t, CmpExt);
      if e' != NPos {
        assert s[..e' + 1] == [s[0]] + t[..e'];
      } else {
        assert s == [s[0]] + t;
      }
    }
  }

  /** The extraction agrees with the two reference cuts applied in turn. */
  lemma ExtractShipNameSpec(path: string)
    requires Addressable(path)
    ensures ExtractShipName(path) == BeforeExt(AfterLastSep(path))
  {
    AfterLastSepIs(path);
    BeforeExtIs(SuffixAfterLast(path));
  }

  /** An extracted name has nothing left to cut: extracting again changes
      nothing. */
  lemma ExtractShipNameIdempotent(path: string)
    requires Addressable(path)
    ensures Addressable(ExtractShipName(path))
    ensures ExtractShipName(ExtractShipName(path)) == ExtractShipName(path)
  {
    var r := ExtractShipName(path);
    assert SuffixAfterLast(r) == r;
  }

  // ---------------------------------------------------------------------------
  // The claim.

  /** One entry of the bounty table: a ship name and its price. */
  datatype BountyEntry = BountyEntry(shipName: string, bounty: nat)

  /** Some entry of the table carries the name. */
  predicate Listed(table: seq<BountyEntry>, name: string)
  {
    exists e | e in table :: e.shipName == name
  }

  /** `price` is the bounty of the first entry carrying the name. */
  predicate FirstPrice(table: seq<BountyEntry>, name: string, price: nat)
  {
    exists i | 0 <= i < |table| ::
      && table[i].shipName == name && table[i].bounty == price
      && forall j | 0 <= j < i :: table[j].shipName != name
  }

  /** The loop over the table that pays on the first name match and breaks. */
  function LookupBounty(table: seq<BountyEntry>, name: string): (r: Option<nat>)
    ensures r.None? <==> !Listed(table, name)
    ensures r.Some? ==> FirstPrice(table, name, r.value)
  {
    if |table| == 0 then None
    else if table[0].shipName == name then Some(table[0].bounty)
    else
      var r := LookupBounty(table[1..], name);
      assert table == [table[0]] + table[1..];
      if r.Some? then
        var k :| 0 <= k < |table| - 1
          && table[1..][k].shipName == name && table[1..][k].bounty == r.value
          && forall j | 0 <= j < k :: table[1..][j].shipName != name;
        assert table[k + 1] == table[1..][k];
        assert forall j | 0 <= j < k + 1 :: table[j].shipName != name by {
          forall j | 0 <= j < k + 1
            ensures table[j].shipName != name
          {
            if j > 0 { assert table[j] == table[1..][j - 1]; }
          }
        }
        r
      else r
  }

  /** What the engine reports about a destroyed ship. */
  datatype Kill = Kill(
    kill: nat,               // the hook's `kill` argument
    inflictorIsPlayer: bool, // DamageList::is_inflictor_a_player
    inflictor: nat,          // DamageList::get_inflictor_owner_player
    tooFriendly: bool,       // the player's feeling towards the ship's faction is above -0.75
    shipArch: string)        // the archetype's model path, e.g. "ships\\li_elite.cmp"

  /** A payment to the killer. */
  datatype Claim = Claim(player: nat, amount: nat)

  /** The kill qualifies for a bounty before the table is read. */
  predicate Qualifies(k: Kill)
  {
    k.kill != 0 && k.inflictorIsPlayer && k.inflictor <= MaxPlayerId && !k.tooFriendly
  }

  /** ShipDestroyed's decision. `table` is None when the bounty file cannot
      be opened. At most one claim, paid to the inflictor at the price of the
      first entry named like the ship. */
  function ClaimBounty(k: Kill, table: Option<seq<BountyEntry>>): (r: Option<Claim>)
    requires Addressable(k.shipArch)
    ensures var name := ExtractShipName(k.shipArch);
      && (r.Some? <==> Qualifies(k) && table.Some? && Listed(table.value, name))
      && (r.Some? ==> r.value.player == k.inflictor && FirstPrice(table.value, name, r.value.amount))
  {
    if k.kill == 0 || !k.inflictorIsPlayer || k.inflictor > MaxPlayerId then None
    else if k.tooFriendly then None
    else
      var name := ExtractShipName(k.shipArch);
      match table
      case None => None
      case Some(t) =>
        match LookupBounty(t, name)
        case None => None
        case Some(price) => Some(Claim(k.inflictor, price))
  }

  /** The claim depends on the ship only through its extracted name: two
      archetype paths with the same name pay the same. */
  lemma ClaimByName(k: Kill, path: string, table: Option<seq<BountyEntry>>)
    requires Addressable(k.shipArch) && Addressable(path)
    ensures ExtractShipName(path) == ExtractShipName(k.shipArch) ==>
      ClaimBounty(k.(shipArch := path), table) == ClaimBounty(k, table)
  {
  }
}
