/** The database queries: lottery seed expansion and winner selection, the
    SON (sidechain operator node) deregistration bookkeeping, the SON
    deregistration proposal and the last irreversible block number.
    Hashing is abstracted: a hash is given as its eight 32-bit words. */
module DbGetter {
  import opened Results
  import opened Bytes
  import opened ProtocolTypes

  /** A sha256 digest read as eight `uint32_t` words. */
  type HashWords = s: seq<u32> | |s| == 8 witness [0, 0, 0, 0, 0, 0, 0, 0]

  type u8 = x: int | 0 <= x < 0x100

  const Two32: int := 0x1_0000_0000

  // ---------------------------------------------------------------------
  // get_seeds

  lemma EightDivMod(s: int, ss: int)
    requires 0 <= s && 0 <= ss < 8
    ensures (8 * s + ss) / 8 == s && (8 * s + ss) % 8 == ss
  {
  }

  /** The 64 seeds a salted hash expands to: seed `8*s + ss` is word `ss` of
      the sub-hash of word `s`. */
  function SeedsOf(saltedHash: HashWords, subHash: u32 -> HashWords): (seeds: seq<u32>)
    ensures |seeds| == 64
  {
    seq(64, i requires 0 <= i < 64 => subHash(saltedHash[i / 8])[i % 8])
  }

  /** `get_seeds`: `saltedHash` is the hash of the generator seed salted with
      the asset instance; `subHash(w)` is the hash of the decimal text of `w`
      salted again. Seed `8*s + ss` is word `ss` of the sub-hash of word `s`. */
  method GetSeeds(saltedHash: HashWords, subHash: u32 -> HashWords, countWinners: u8)
    returns (r: Result<seq<u32>>)
    ensures r.Ok? <==> countWinners <= 64
    ensures r.Ok? ==> |r.value| == 64
    ensures r.Ok? ==> forall i :: 0 <= i < |r.value| ==> r.value[i] == subHash(saltedHash[i / 8])[i % 8]
    ensures r.Ok? ==> r.value == SeedsOf(saltedHash, subHash)
  {
    if countWinners > 64 {
      return Err("count_winners <= 64");
    }
    var result: seq<u32> := [];
    var s := 0;
    while s < 8
      invariant 0 <= s <= 8
      invariant |result| == 8 * s
      invariant forall i :: 0 <= i < |result| ==> result[i] == subHash(saltedHash[i / 8])[i % 8]
    {
      var subSeeds := subHash(saltedHash[s]);
      var ss := 0;
      while ss < 8
        invariant 0 <= ss <= 8
        invariant |result| == 8 * s + ss
        invariant forall i :: 0 <= i < |result| ==> result[i] == subHash(saltedHash[i / 8])[i % 8]
      {
        EightDivMod(s, ss);
        result := result + [subSeeds[ss]];
        ss := ss + 1;
      }
      s := s + 1;
    }
    return Ok(result);
  }

  // ---------------------------------------------------------------------
  // get_winner_numbers

  predicate Distinct(s: seq<int>)
  {
    forall i, j :: 0 <= i < j < |s| ==> s[i] != s[j]
  }

  function Min(a: int, b: int): int { if a < b then a else b }

  /** The winner a seed draws: the seed modulo the member count, stored in a
      variable `width` values wide (256 for the `uint8_t` of the code). */
  function WinnerNum(seed: u32, countMembers: u32, width: nat): (w: nat)
    requires countMembers > 0 && width > 0
    ensures w < countMembers && w < width
  {
    (seed % countMembers) % width
  }

  /** The collision step: gcc's linear congruential constants in 32-bit
      unsigned arithmetic, then the upper 16 bits. */
  function NextSeed(seed: u32): (next: u32)
    ensures next < 0x1_0000
  {
    ((seed * 1103515245 + 12345) % Two32) / 65536
  }

  /** `NextSeed` applied `j` times: the chain of seeds a collision walks. */
  function Iterate(seed: u32, j: nat): u32
    decreases j
  {
    if j == 0 then seed else Iterate(NextSeed(seed), j - 1)
  }

  /** A winner found by the collision loop, and the fuel left afterwards. */
  datatype Settled = Settled(winner: nat, fuelLeft: nat)

  /** The collision loop for one seed: the first winner along the seed's
      chain that has not been drawn yet, one unit of `fuel` per redraw;
      `None` when the fuel runs out before such a winner turns up. */
  function Settle(seed: u32, drawn: seq<nat>, countMembers: u32, width: nat, fuel: nat): (r: Option<Settled>)
    requires countMembers > 0 && width > 0
    ensures r.Some? ==> r.value.fuelLeft <= fuel && r.value.winner !in drawn
    ensures r.Some? ==> r.value.winner == WinnerNum(Iterate(seed, fuel - r.value.fuelLeft), countMembers, width)
    ensures r.Some? ==> forall j :: 0 <= j < fuel - r.value.fuelLeft ==>
                          WinnerNum(Iterate(seed, j), countMembers, width) in drawn
    ensures r.None? ==> forall j :: 0 <= j <= fuel ==> WinnerNum(Iterate(seed, j), countMembers, width) in drawn
    decreases fuel
  {
    var w := WinnerNum(seed, countMembers, width);
    if w !in drawn then Some(Settled(w, fuel))
    else if fuel == 0 then None
    else Settle(NextSeed(seed), drawn, countMembers, width, fuel - 1)
  }

  const FuelExhausted: string := "collision loop did not settle within the fuel bound"

  /** The draw from seed `k` on, with `drawn` the winners so far: each seed
      adds the winner its collision loop settles on, until `countWinners`
      are drawn or the seeds run out. The only failure is running out of
      fuel. */
  function Draw(seeds: seq<u32>, k: nat, drawn: seq<nat>, countMembers: u32, countWinners: nat,
                width: nat, fuel: nat): (r: Result<seq<nat>>)
    requires k <= |seeds| && countMembers > 0 && width > 0
    ensures r.Err? ==> r == Err(FuelExhausted)
    ensures r.Ok? ==> drawn <= r.value
    decreases |seeds| - k
  {
    if k == |seeds| || |drawn| >= countWinners then Ok(drawn)
    else match Settle(seeds[k], drawn, countMembers, width, fuel)
      case None => Err(FuelExhausted)
      case Some(s) => Draw(seeds, k + 1, drawn + [s.winner], countMembers, countWinners, width, s.fuelLeft)
  }

  /** The winners of the first `n` seeds, each drawn without a redraw. */
  function FirstDraws(seeds: seq<u32>, n: nat, countMembers: u32, width: nat): (w: seq<nat>)
    requires n <= |seeds| && countMembers > 0 && width > 0
    ensures |w| == n
  {
    seq(n, i requires 0 <= i < n => WinnerNum(seeds[i], countMembers, width))
  }

  /** When the first `countWinners` seeds draw different winners, no redraw
      happens: the draw succeeds whatever the fuel, and winner `i` is
      seed `i` modulo the member count. */
  lemma {:induction false} NoCollisionDraw(seeds: seq<u32>, k: nat, countMembers: u32, countWinners: nat,
                                           width: nat, fuel: nat)
    requires k <= countWinners <= |seeds| && countMembers > 0 && width > 0
    requires forall i, j :: 0 <= i < j < countWinners ==>
               WinnerNum(seeds[i], countMembers, width) != WinnerNum(seeds[j], countMembers, width)
    ensures Draw(seeds, k, FirstDraws(seeds, k, countMembers, width), countMembers, countWinners, width, fuel)
              == Ok(FirstDraws(seeds, countWinners, countMembers, width))
    decreases countWinners - k
  {
    var drawn := FirstDraws(seeds, k, countMembers, width);
    if k < countWinners {
      var w := WinnerNum(seeds[k], countMembers, width);
      assert w !in drawn by {
        forall i | 0 <= i < k ensures drawn[i] != w {
          assert drawn[i] == WinnerNum(seeds[i], countMembers, width);
        }
      }
      assert drawn + [w] == FirstDraws(seeds, k + 1, countMembers, width);
      NoCollisionDraw(seeds, k + 1, countMembers, countWinners, width, fuel);
    }
  }

  /** The `while( std::find(...) )` loop of one seed, proved against
      `Settle`. */
  method Redraw(seed: u32, drawn: seq<nat>, countMembers: u32, width: nat, fuel: nat)
    returns (r: Option<Settled>)
    requires countMembers > 0 && width > 0
    ensures r == Settle(seed, drawn, countMembers, width, fuel)
  {
    var current := seed;
    var remaining := fuel;
    var winnerNum := WinnerNum(current, countMembers, width);
    while winnerNum in drawn
      invariant winnerNum == WinnerNum(current, countMembers, width)
      invariant Settle(seed, drawn, countMembers, width, fuel)
                  == Settle(current, drawn, countMembers, width, remaining)
      decreases remaining
    {
      if remaining == 0 {
        return None;
      }
      remaining := remaining - 1;
      current := NextSeed(current);
      winnerNum := WinnerNum(current, countMembers, width);
    }
    return Some(Settled(winnerNum, remaining));
  }

  /** The drawing loop shared by the code as written and the corrected
      version: one winner per seed, redrawn from the next pseudo-random seed
      while it collides with an earlier winner. Each redraw spends one unit
      of `fuel`. */
  method SelectWinners(seeds: seq<u32>, countMembers: u32, countWinners: nat, width: nat, fuel: nat)
    returns (r: Result<seq<nat>>)
    requires |seeds| == 64 && 0 < countWinners <= 64 && countWinners <= countMembers && width > 0
    ensures r == Draw(seeds, 0, [], countMembers, countWinners, width, fuel)
    ensures r.Ok? ==> |r.value| == countWinners && Distinct(r.value)
    ensures r.Ok? ==> forall i :: 0 <= i < |r.value| ==> r.value[i] < Min(countMembers, width)
    ensures r.Ok? ==> r.value[0] == WinnerNum(seeds[0], countMembers, width)
  {
    var result: seq<nat> := [];
    var remaining := fuel;
    var k := 0;
    while k < |seeds| && |result| < countWinners
      invariant 0 <= k <= |seeds| && |result| == k && |result| <= countWinners
      invariant Draw(seeds, 0, [], countMembers, countWinners, width, fuel)
                  == Draw(seeds, k, result, countMembers, countWinners, width, remaining)
      invariant Distinct(result)
      invariant forall i :: 0 <= i < |result| ==> result[i] < Min(countMembers, width)
      invariant |result| > 0 ==> result[0] == WinnerNum(seeds[0], countMembers, width)
    {
      var settled := Redraw(seeds[k], result, countMembers, width, remaining);
      if settled.None? {
        return Err(FuelExhausted);
      }
      var winnerNum := settled.value.winner;
      assert k == 0 ==> winnerNum == WinnerNum(seeds[0], countMembers, width);
      result := result + [winnerNum];
      remaining := settled.value.fuelLeft;
      k := k + 1;
    }
    // The closing `FC_ASSERT( result.size() == count_winners )` cannot fail.
    assert |result| == countWinners;
    return Ok(result);
  }

  /** The number of winners actually drawn: never more than the members. */
  function ClampedWinners(countMembers: u32, countWinners: u8): nat
  {
    if countMembers < countWinners then countMembers else countWinners
  }

  /** `get_winner_numbers` as written: the winner is held in a `uint8_t`, so
      each entry is truncated to 8 bits. */
  method GetWinnerNumbers(saltedHash: HashWords, subHash: u32 -> HashWords,
                          countMembers: u32, countWinners: u8, fuel: nat)
    returns (r: Result<seq<nat>>)
    ensures ClampedWinners(countMembers, countWinners) == 0 ==> r == Ok([])
    ensures ClampedWinners(countMembers, countWinners) > 64 ==> r.Err?
    ensures r.Ok? ==> |r.value| == ClampedWinners(countMembers, countWinners) && Distinct(r.value)
    ensures r.Ok? ==> forall i :: 0 <= i < |r.value| ==> r.value[i] < Min(countMembers, 256)
    ensures r.Ok? && |r.value| > 0 ==>
              r.value[0] == WinnerNum(subHash(saltedHash[0])[0], countMembers, 256)
    ensures 0 < ClampedWinners(countMembers, countWinners) <= 64 ==>
              r == Draw(SeedsOf(saltedHash, subHash), 0, [], countMembers,
                        ClampedWinners(countMembers, countWinners), 256, fuel)
  {
    var count := ClampedWinners(countMembers, countWinners);
    if count == 0 {
      return Ok([]);
    }
    var seeds := GetSeeds(saltedHash, subHash, count);
    if seeds.Err? {
      return Err(seeds.reason);
    }
    r := SelectWinners(seeds.value, countMembers, count, 256, fuel);
  }

  /** `get_winner_numbers` as evidently intended: the winner keeps all 32
      bits, so every member can be drawn. */
  method GetWinnerNumbersIntended(saltedHash: HashWords, subHash: u32 -> HashWords,
                                  countMembers: u32, countWinners: u8, fuel: nat)
    returns (r: Result<seq<nat>>)
    ensures ClampedWinners(countMembers, countWinners) == 0 ==> r == Ok([])
    ensures ClampedWinners(countMembers, countWinners) > 64 ==> r.Err?
    ensures r.Ok? ==> |r.value| == ClampedWinners(countMembers, countWinners) && Distinct(r.value)
    ensures r.Ok? ==> forall i :: 0 <= i < |r.value| ==> r.value[i] < countMembers
    ensures r.Ok? && |r.value| > 0 ==> r.value[0] == subHash(saltedHash[0])[0] % countMembers
    ensures 0 < ClampedWinners(countMembers, countWinners) <= 64 ==>
              r == Draw(SeedsOf(saltedHash, subHash), 0, [], countMembers,
                        ClampedWinners(countMembers, countWinners), Two32, fuel)
  {
    var count := ClampedWinners(countMembers, countWinners);
    if count == 0 {
      return Ok([]);
    }
    var seeds := GetSeeds(saltedHash, subHash, count);
    if seeds.Err? {
      return Err(seeds.reason);
    }
    r := SelectWinners(seeds.value, countMembers, count, Two32, fuel);
  }

  /** With 300 members, a first seed of 299 draws member 43 as written but
      member 299 as intended; members 256 to 299 can never win. */
  lemma WinnerNumberTruncated()
    ensures WinnerNum(299, 300, 256) == 43
    ensures WinnerNum(299, 300, Two32) == 299
  {
  }

  /** For memberships of at most 256 the truncation is invisible. */
  lemma SmallMembershipUnaffected(seed: u32, countMembers: u32)
    requires 0 < countMembers <= 256
    ensures WinnerNum(seed, countMembers, 256) == WinnerNum(seed, countMembers, Two32) == seed % countMembers
  {
  }

  // ---------------------------------------------------------------------
  // SON queries

  datatype SonProposalType = SonDeregisterProposal | SonReportDownProposal

  datatype SonProposal = SonProposal(proposalType: SonProposalType, sonId: nat)

  /** Only `in_maintenance` is distinguished among the `son_status` values. */
  datatype SonStatus = InMaintenance | OtherStatus

  /** A SON with its status and the `last_down_timestamp` of its statistics
      object (seconds since the epoch). */
  datatype Son = Son(id: nat, status: SonStatus, lastDownTimestamp: int)

  /** The son ids named by the proposals of type `t`. */
  function ProposedSons(proposals: seq<SonProposal>, t: SonProposalType): set<nat>
  {
    if proposals == [] then {}
    else
      var last := proposals[|proposals| - 1];
      ProposedSons(proposals[..|proposals| - 1], t) + (if last.proposalType == t then {last.sonId} else {})
  }

  lemma {:induction false} ProposedSonsMembers(proposals: seq<SonProposal>, t: SonProposalType, son: nat)
    ensures son in ProposedSons(proposals, t) <==>
            exists i :: 0 <= i < |proposals| && proposals[i].proposalType == t && proposals[i].sonId == son
  {
    if proposals != [] {
      var init := proposals[..|proposals| - 1];
      ProposedSonsMembers(init, t, son);
      if son in ProposedSons(init, t) {
        var i :| 0 <= i < |init| && init[i].proposalType == t && init[i].sonId == son;
        assert proposals[i] == init[i];
      }
      if exists i :: 0 <= i < |proposals| && proposals[i].proposalType == t && proposals[i].sonId == son {
        var i :| 0 <= i < |proposals| && proposals[i].proposalType == t && proposals[i].sonId == son;
        if i < |init| {
          assert init[i] == proposals[i];
        }
      }
    }
  }

  /** The loop shared by `get_sons_being_deregistered` and
      `get_sons_being_reported_down` over the proposal index. */
  method SonsWithProposalType(proposals: seq<SonProposal>, t: SonProposalType) returns (ret: set<nat>)
    ensures ret == ProposedSons(proposals, t)
  {
    ret := {};
    var i := 0;
    while i < |proposals|
      invariant 0 <= i <= |proposals|
      invariant ret == ProposedSons(proposals[..i], t)
    {
      assert proposals[..i + 1][..i] == proposals[..i];
      if proposals[i].proposalType == t {
        ret := ret + {proposals[i].sonId};
      }
      i := i + 1;
    }
    assert proposals[..i] == proposals;
  }

  /** `get_sons_being_deregistered`: the sons named by a deregister proposal. */
  method GetSonsBeingDeregistered(proposals: seq<SonProposal>) returns (ret: set<nat>)
    ensures forall son :: son in ret <==>
              exists i :: 0 <= i < |proposals| && proposals[i].proposalType == SonDeregisterProposal
                          && proposals[i].sonId == son
  {
    ret := SonsWithProposalType(proposals, SonDeregisterProposal);
    forall son ensures son in ret <==>
      exists i :: 0 <= i < |proposals| && proposals[i].proposalType == SonDeregisterProposal
                  && proposals[i].sonId == son
    {
      ProposedSonsMembers(proposals, SonDeregisterProposal, son);
    }
  }

  /** `get_sons_being_reported_down`: the sons named by a report-down proposal. */
  method GetSonsBeingReportedDown(proposals: seq<SonProposal>) returns (ret: set<nat>)
    ensures forall son :: son in ret <==>
              exists i :: 0 <= i < |proposals| && proposals[i].proposalType == SonReportDownProposal
                          && proposals[i].sonId == son
  {
    ret := SonsWithProposalType(proposals, SonReportDownProposal);
    forall son ensures son in ret <==>
      exists i :: 0 <= i < |proposals| && proposals[i].proposalType == SonReportDownProposal
                  && proposals[i].sonId == son
    {
      ProposedSonsMembers(proposals, SonReportDownProposal, son);
    }
  }

  /** A SON may be deregistered once it is in maintenance and has been down
      for at least the deregistration time. */
  predicate ReadyToDeregister(son: Son, headBlockTime: int, sonDeregisterTime: int)
  {
    son.status == InMaintenance && headBlockTime - son.lastDownTimestamp >= sonDeregisterTime
  }

  function ReadySons(sons: seq<Son>, headBlockTime: int, sonDeregisterTime: int): set<nat>
  {
    if sons == [] then {}
    else
      var last := sons[|sons| - 1];
      ReadySons(sons[..|sons| - 1], headBlockTime, sonDeregisterTime)
        + (if ReadyToDeregister(last, headBlockTime, sonDeregisterTime) then {last.id} else {})
  }

  lemma {:induction false} ReadySonsMembers(sons: seq<Son>, headBlockTime: int, sonDeregisterTime: int, id: nat)
    ensures id in ReadySons(sons, headBlockTime, sonDeregisterTime) <==>
            exists i :: 0 <= i < |sons| && sons[i].id == id && ReadyToDeregister(sons[i], headBlockTime, sonDeregisterTime)
  {
    if sons != [] {
      var init := sons[..|sons| - 1];
      ReadySonsMembers(init, headBlockTime, sonDeregisterTime, id);
      if id in ReadySons(init, headBlockTime, sonDeregisterTime) {
        var i :| 0 <= i < |init| && init[i].id == id && ReadyToDeregister(init[i], headBlockTime, sonDeregisterTime);
        assert sons[i] == init[i];
      }
      if exists i :: 0 <= i < |sons| && sons[i].id == id && ReadyToDeregister(sons[i], headBlockTime, sonDeregisterTime) {
        var i :| 0 <= i < |sons| && sons[i].id == id && ReadyToDeregister(sons[i], headBlockTime, sonDeregisterTime);
        if i < |init| {
          assert init[i] == sons[i];
        }
      }
    }
  }

  /** `get_sons_to_be_deregistered`: one pass over the SON index collecting
      the ids of the sons ready to be deregistered. */
  method GetSonsToBeDeregistered(sons: seq<Son>, headBlockTime: int, sonDeregisterTime: int) returns (ret: set<nat>)
    ensures ret == ReadySons(sons, headBlockTime, sonDeregisterTime)
    ensures forall id :: id in ret <==>
              exists i :: 0 <= i < |sons| && sons[i].id == id && ReadyToDeregister(sons[i], headBlockTime, sonDeregisterTime)
  {
    ret := {};
    var i := 0;
    while i < |sons|
      invariant 0 <= i <= |sons|
      invariant ret == ReadySons(sons[..i], headBlockTime, sonDeregisterTime)
    {
      assert sons[..i + 1][..i] == sons[..i];
      if sons[i].status == InMaintenance && headBlockTime - sons[i].lastDownTimestamp >= sonDeregisterTime {
        ret := ret + {sons[i].id};
      }
      i := i + 1;
    }
    assert sons[..i] == sons;
    forall id ensures id in ret <==>
      exists i :: 0 <= i < |sons| && sons[i].id == id && ReadyToDeregister(sons[i], headBlockTime, sonDeregisterTime)
    {
      ReadySonsMembers(sons, headBlockTime, sonDeregisterTime, id);
    }
  }

  /** The by-id lookup of the SON index. */
  function FindSon(sons: seq<Son>, id: nat): (r: Option<Son>)
    ensures r.Some? ==> r.value in sons && r.value.id == id
    ensures r.None? ==> forall i :: 0 <= i < |sons| ==> sons[i].id != id
  {
    if sons == [] then None
    else if sons[0].id == id then Some(sons[0])
    else FindSon(sons[1..], id)
  }

  /** Ids are unique in the SON index. */
  predicate UniqueIds(sons: seq<Son>)
  {
    forall i, j :: 0 <= i < j < |sons| ==> sons[i].id != sons[j].id
  }

  /** `is_son_dereg_valid`: fails for an unknown SON, otherwise tells whether
      that SON is ready to be deregistered. */
  function IsSonDeregValid(sons: seq<Son>, headBlockTime: int, sonDeregisterTime: int, sonId: nat): (r: Result<bool>)
    ensures r.Err? <==> forall i :: 0 <= i < |sons| ==> sons[i].id != sonId
    ensures r.Ok? ==> exists i :: 0 <= i < |sons| && sons[i].id == sonId
                        && (r.value <==> ReadyToDeregister(sons[i], headBlockTime, sonDeregisterTime))
  {
    match FindSon(sons, sonId)
    case None => Err("son != son_idx.end()")
    case Some(son) => Ok(ReadyToDeregister(son, headBlockTime, sonDeregisterTime))
  }

  /** The single check agrees with the bulk query: a known SON passes it
      exactly when it is among the sons to be deregistered. */
  lemma DeregValidAgreesWithBulk(sons: seq<Son>, headBlockTime: int, sonDeregisterTime: int, sonId: nat)
    requires UniqueIds(sons)
    ensures IsSonDeregValid(sons, headBlockTime, sonDeregisterTime, sonId).Ok? ==>
            (IsSonDeregValid(sons, headBlockTime, sonDeregisterTime, sonId).value
             <==> sonId in ReadySons(sons, headBlockTime, sonDeregisterTime))
  {
    ReadySonsMembers(sons, headBlockTime, sonDeregisterTime, sonId);
  }

  // ---------------------------------------------------------------------
  // create_son_deregister_proposal

  datatype SonDeleteOperation = SonDeleteOperation(sonId: nat, payer: nat)

  datatype ProposalCreateOperation = ProposalCreateOperation(
    feePayingAccount: nat, proposedOps: seq<SonDeleteOperation>, expirationTime: u32)

  /** The wide (64-bit) product `block_interval * |active witnesses| * 3`
      before it is stored in 32 bits. */
  function WideLifetime(blockInterval: u8, activeWitnessCount: nat): nat
  {
    (blockInterval * activeWitnessCount * 3) % 0x1_0000_0000_0000_0000
  }

  lemma NarrowingTwice(x: nat)
    ensures x % 0x1_0000_0000_0000_0000 % Two32 == x % Two32
  {
    var q := x / 0x1_0000_0000_0000_0000;
    var r := x % 0x1_0000_0000_0000_0000;
    assert x == q * 0x1_0000_0000_0000_0000 + r;
    assert q * 0x1_0000_0000_0000_0000 == (q * 0x1_0000_0000) * Two32;
  }

  lemma SumMod(h: nat, x: nat)
    ensures (h + x % Two32) % Two32 == (h + x) % Two32
  {
    var q := x / Two32;
    assert h + x == (h + x % Two32) + q * Two32;
  }

  /** `create_son_deregister_proposal`: a proposal holding a single SON
      deletion paid by the SON account, expiring three rounds of the active
      witnesses after the head block. The lifetime is computed in 64 bits
      and stored in 32 bits, and the expiry is a 32-bit sum. */
  function CreateSonDeregisterProposal(sonId: nat, payingSon: nat, sonAccount: nat, headBlockTime: u32,
                                       blockInterval: u8, activeWitnessCount: nat): (p: ProposalCreateOperation)
    ensures p.feePayingAccount == payingSon
    ensures p.proposedOps == [SonDeleteOperation(sonId, sonAccount)]
    ensures p.expirationTime == (headBlockTime + blockInterval * activeWitnessCount * 3) % Two32
  {
    var lifetime: u32 := WideLifetime(blockInterval, activeWitnessCount) % Two32;
    NarrowingTwice(blockInterval * activeWitnessCount * 3);
    SumMod(headBlockTime, blockInterval * activeWitnessCount * 3);
    ProposalCreateOperation(payingSon, [SonDeleteOperation(sonId, sonAccount)],
                            (headBlockTime + lifetime) % Two32)
  }

  /** Without overflow the proposal lives exactly three witness rounds. */
  lemma ProposalLifetime(sonId: nat, payingSon: nat, sonAccount: nat, headBlockTime: u32,
                         blockInterval: u8, activeWitnessCount: nat)
    requires headBlockTime + blockInterval * activeWitnessCount * 3 < Two32
    ensures CreateSonDeregisterProposal(sonId, payingSon, sonAccount, headBlockTime, blockInterval,
                                        activeWitnessCount).expirationTime
            == headBlockTime + blockInterval * activeWitnessCount * 3
  {
    var total := headBlockTime + blockInterval * activeWitnessCount * 3;
    assert 0 <= total < Two32;
    assert total % Two32 == total;
  }

  // ---------------------------------------------------------------------
  // last_non_undoable_block_num

  /** `last_non_undoable_block_num`: the head block number minus the undo
      history size, in unsigned arithmetic. */
  function LastNonUndoableBlockNum(headBlockNum: u32, undoSize: nat): (n: u32)
    ensures (n + undoSize - headBlockNum) % Two32 == 0
    ensures undoSize <= headBlockNum ==> n == headBlockNum - undoSize
  {
    (headBlockNum - undoSize) % Two32
  }
}
