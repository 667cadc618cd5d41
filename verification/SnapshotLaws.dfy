/** What a built snapshot contains, when it verifies, and what verification guarantees. */
module SnapshotLaws {
  import opened Counting
  import opened Text
  import opened JsNumbers
  import opened Snapshot

  // ----- Voters, excluded items and failures partition the supply

  function ExcludedOf(provider: Provider, n: nat): seq<int> {
    if n == 0 then []
    else ExcludedOf(provider, n - 1) + (if Query(provider, n - 1).Excluded? then [n - 1] else [])
  }

  /** The indices of the voters among the first n items. */
  function VoterIndices(provider: Provider, n: nat): seq<int> {
    if n == 0 then []
    else VoterIndices(provider, n - 1) + (if Query(provider, n - 1).Vote? then [n - 1] else [])
  }

  lemma {:induction false} VotersByIndex(provider: Provider, n: nat)
    ensures var ks, vs := VoterIndices(provider, n), VotersOf(provider, n);
            |ks| == |vs| && forall k :: 0 <= k < |ks| ==> 0 <= ks[k] < n && Query(provider, ks[k]) == Vote(vs[k].owner) && vs[k] == OneVoter(ks[k], vs[k].owner)
  {
    if n > 0 { VotersByIndex(provider, n - 1); }
  }

  /** Voters, excluded items and failures are exactly the indices below n with that outcome. */
  lemma {:induction false} Partition(provider: Provider, n: nat, i: int)
    ensures i in VoterIndices(provider, n) <==> 0 <= i < n && Query(provider, i).Vote?
    ensures i in ExcludedOf(provider, n) <==> 0 <= i < n && Query(provider, i).Excluded?
    ensures i in FailedOf(provider, n) <==> 0 <= i < n && Query(provider, i).Failed?
  {
    if n > 0 { Partition(provider, n - 1, i); }
  }

  /** With the sizes adding up to n, each index is listed once. */
  lemma {:induction false} PartitionSizes(provider: Provider, n: nat)
    ensures |VotersOf(provider, n)| + |ExcludedOf(provider, n)| + |FailedOf(provider, n)| == n
  {
    if n > 0 { PartitionSizes(provider, n - 1); }
  }

  // ----- A built snapshot verifies exactly when nothing failed

  ghost predicate OwnersParse(parses: string -> bool, provider: Provider, n: nat) {
    forall i :: 0 <= i < n && Query(provider, i).Vote? ==> parses(Query(provider, i).owner)
  }

  lemma OwnersParseIff(parses: string -> bool, provider: Provider, n: nat)
    ensures OwnersParse(parses, provider, n) <==>
            forall k :: 0 <= k < |VotersOf(provider, n)| ==> parses(VotersOf(provider, n)[k].owner)
  {
    var vs := VotersOf(provider, n);
    VotersByIndex(provider, n);
    if OwnersParse(parses, provider, n) {
      forall k | 0 <= k < |vs| ensures parses(vs[k].owner) {
        var i := VoterIndices(provider, n)[k];
        assert Query(provider, i).Vote?;
      }
    }
    if forall k :: 0 <= k < |vs| ==> parses(vs[k].owner) {
      forall i | 0 <= i < n && Query(provider, i).Vote? ensures parses(Query(provider, i).owner) {
        var k := VoterAt(provider, n, i);
        assert parses(vs[k].owner);
      }
    }
  }

  lemma BuiltVoters(provider: Provider, n: nat)
    ensures DistinctIndices(VotersOf(provider, n))
    ensures forall k :: 0 <= k < |VotersOf(provider, n)| ==>
              0.0 <= VotersOf(provider, n)[k].nftIndex < n as real && VotersOf(provider, n)[k].votingPower == 1.0
  {}

  lemma GoodVotersIff(parses: string -> bool, voters: seq<Voter>)
    requires forall k :: 0 <= k < |voters| ==> 0.0 <= voters[k].nftIndex < SUPPLY as real && voters[k].votingPower == 1.0
    ensures GoodVoters(parses, voters) <==> forall k :: 0 <= k < |voters| ==> parses(voters[k].owner)
  {
    if GoodVoters(parses, voters) {
      forall k | 0 <= k < |voters| ensures parses(voters[k].owner) { assert GoodVoter(parses, voters[k]); }
    }
  }

  /** The conditions of verifySnapshot on an assembled snapshot, one by one. */
  lemma AssembledVerifiesIff(parses: string -> bool, block: int, collection: string, n: nat, voters: seq<Voter>, failed: seq<int>)
    requires collection != "" && DistinctIndices(voters)
    requires forall k :: 0 <= k < |voters| ==> 0.0 <= voters[k].nftIndex < n as real && voters[k].votingPower == 1.0
    ensures Verified(parses, Assemble(block, collection, n, voters, failed)) <==>
            failed == [] && n == SUPPLY && block > 0 && forall k :: 0 <= k < |voters| ==> parses(voters[k].owner)
  {
    var s := Assemble(block, collection, n, voters, failed);
    assert s.block > 0.0 <==> block > 0;
    assert s.totalSupply == SUPPLY as real <==> n == SUPPLY;
    assert s.voters == Some(voters) && s.totalVotingPower == |voters| as real && s.uniqueOwners == |Owners(voters)| as real;
    assert s.metadata == Some(Metadata(failed == [], Some(failed)));
    if n == SUPPLY { GoodVotersIff(parses, voters); }
  }

  /**
   * The snapshot returned by the tool verifies exactly when no index failed, the
   * supply is 222, the block is positive and every owner text parses back.
   */
  lemma BuiltVerifiesIff(
    parses: string -> bool, provider: Provider, collection: string, n: nat,
    requested: Option<JsNumber>, latest: Option<int>, allowPartial: bool)
    requires Created(parses, provider, collection, n, requested, latest, allowPartial).Success?
    ensures Verified(parses, Created(parses, provider, collection, n, requested, latest, allowPartial).value) <==>
            && FailedOf(provider, n) == [] && n == 222
            && SnapshotBlock(requested, latest).value > 0 && OwnersParse(parses, provider, n)
  {
    var voters, failed := VotersOf(provider, n), FailedOf(provider, n);
    BuiltVoters(provider, n);
    OwnersParseIff(parses, provider, n);
    assert Created(parses, provider, collection, n, requested, latest, allowPartial) ==
           Success(Assemble(SnapshotBlock(requested, latest).value, collection, n, voters, failed));
    AssembledVerifiesIff(parses, SnapshotBlock(requested, latest).value, collection, n, voters, failed);
  }

  lemma {:induction false} VoterAt(provider: Provider, n: nat, i: nat) returns (k: nat)
    requires i < n && Query(provider, i).Vote?
    ensures k < |VotersOf(provider, n)| && VotersOf(provider, n)[k].owner == Query(provider, i).owner
  {
    if i == n - 1 {
      k := |VotersOf(provider, n - 1)|;
    } else {
      k := VoterAt(provider, n - 1, i);
    }
  }

  // ----- What verification guarantees

  /** The voting power of one owner. */
  function PowerOf(owner: string, voters: seq<Voter>): real {
    if voters == [] then 0.0
    else PowerOf(owner, voters[..|voters| - 1]) + (if voters[|voters| - 1].owner == owner then voters[|voters| - 1].votingPower else 0.0)
  }

  function SumPower(owners: seq<string>, voters: seq<Voter>): real {
    if owners == [] then 0.0 else PowerOf(owners[0], voters) + SumPower(owners[1..], voters)
  }

  lemma {:induction false} SumPowerStep(owners: seq<string>, voters: seq<Voter>, v: Voter)
    requires NoRepeats(owners)
    ensures SumPower(owners, voters + [v]) == SumPower(owners, voters) + (if v.owner in owners then v.votingPower else 0.0)
  {
    if owners != [] {
      SumPowerStep(owners[1..], voters, v);
      assert (voters + [v])[..|voters|] == voters;
      assert owners == [owners[0]] + owners[1..];
    }
  }

  lemma {:induction false} SumPowerEmpty(owners: seq<string>)
    ensures SumPower(owners, []) == 0.0
  {
    if owners != [] { SumPowerEmpty(owners[1..]); }
  }

  lemma {:induction false} SumPowerIsCount(owners: seq<string>, voters: seq<Voter>)
    requires NoRepeats(owners) && (forall v :: v in voters ==> v.owner in owners && v.votingPower == 1.0)
    ensures SumPower(owners, voters) == |voters| as real
  {
    if voters == [] {
      SumPowerEmpty(owners);
    } else {
      var n := |voters| - 1;
      assert voters == voters[..n] + [voters[n]];
      SumPowerIsCount(owners, voters[..n]);
      SumPowerStep(owners, voters[..n], voters[n]);
    }
  }

  /** In a verified snapshot the power summed over its owners, in any order, is the stated total. */
  lemma PowerIsConserved(parses: string -> bool, s: Snapshot, owners: seq<string>)
    requires Verified(parses, s) && NoRepeats(owners) && Elements(owners) == Owners(s.voters.value)
    ensures SumPower(owners, s.voters.value) == s.totalVotingPower
    ensures |owners| as real == s.uniqueOwners
  {
    var vs := s.voters.value;
    forall v | v in vs ensures v.owner in owners && v.votingPower == 1.0 {
      var i :| 0 <= i < |vs| && vs[i] == v;
      assert GoodVoter(parses, vs[i]);
      assert v.owner in Owners(vs);
    }
    SumPowerIsCount(owners, vs);
    ElementCount(owners);
  }

  // ----- How many voters

  predicate IntegralIndices(voters: seq<Voter>) {
    forall i :: 0 <= i < |voters| ==> IsInteger(voters[i].nftIndex)
  }

  /** The item numbers of the voters, cut down to integers. */
  function ItemNumbers(voters: seq<Voter>): (r: seq<int>)
    ensures |r| == |voters| && forall i :: 0 <= i < |voters| ==> r[i] == voters[i].nftIndex.Floor
  {
    seq(|voters|, i requires 0 <= i < |voters| => voters[i].nftIndex.Floor)
  }

  lemma {:induction false} DistinctBelow(s: seq<int>, n: nat)
    requires NoRepeats(s) && forall i :: 0 <= i < |s| ==> 0 <= s[i] < n
    ensures |s| <= n
  {
    if s != [] {
      assert n > 0 by { assert 0 <= s[0] < n; }
      if k :| 0 <= k < |s| && s[k] == n - 1 {
        var t := s[..k] + s[k + 1..];
        assert forall i :: 0 <= i < |t| ==> t[i] == if i < k then s[i] else s[i + 1];
        DistinctBelow(t, n - 1);
      } else {
        DistinctBelow(s, n - 1);
      }
    }
  }

  /** Every voter stands for one item of the collection, no two for the same. */
  ghost predicate NamesItems(voters: seq<Voter>, items: seq<int>) {
    && |items| == |voters| && NoRepeats(items)
    && forall i :: 0 <= i < |items| ==> 0 <= items[i] < SUPPLY && items[i] as real == voters[i].nftIndex
  }

  /**
   * The voters of a verified snapshot are distinct items of the collection, at
   * most 222 of them, exactly when the recorded indices are integers.
   */
  lemma VerifiedNamesItemsIff(parses: string -> bool, s: Snapshot)
    requires Verified(parses, s)
    ensures (exists items :: NamesItems(s.voters.value, items)) <==> IntegralIndices(s.voters.value)
    ensures IntegralIndices(s.voters.value) ==> |s.voters.value| <= 222
  {
    var vs := s.voters.value;
    if IntegralIndices(vs) {
      var items := ItemNumbers(vs);
      forall i | 0 <= i < |items| ensures 0 <= items[i] < SUPPLY && items[i] as real == vs[i].nftIndex {
        assert GoodVoter(parses, vs[i]) && IsInteger(vs[i].nftIndex);
      }
      assert NamesItems(vs, items);
      DistinctBelow(items, SUPPLY);
    }
    if items :| NamesItems(vs, items) {
      forall i | 0 <= i < |vs| ensures IsInteger(vs[i].nftIndex) {
        assert items[i] as real == vs[i].nftIndex;
      }
    }
  }

  /** A snapshot built by the tool has integer indices. */
  lemma BuiltIsIntegral(provider: Provider, n: nat)
    ensures IntegralIndices(VotersOf(provider, n))
  {}

  /** 2^32: no JavaScript array is that long, and i / 2^32 is a double for every index i below it. */
  const ARRAY_LIMIT := 0x1_0000_0000

  /** `count` voters with fractional indices below one, each an exact double. */
  function Crowd(owner: string, count: nat): (r: seq<Voter>)
    ensures |r| == count && forall i :: 0 <= i < count ==> r[i] == Voter(i as real / ARRAY_LIMIT as real, owner, 1.0)
  {
    seq(count, i requires 0 <= i < count => Voter(i as real / ARRAY_LIMIT as real, owner, 1.0))
  }

  /** verifySnapshot does not ask for integer indices: any number of voters an array can hold verifies. */
  lemma FractionalCrowdVerifies(parses: string -> bool, owner: string, count: nat)
    requires parses(owner) && 1 <= count < ARRAY_LIMIT
    ensures var s := Snapshot(1.0, "collection", SUPPLY as real, Some(Crowd(owner, count)), count as real, 1.0,
                              Some(Metadata(true, Some([]))));
            Verified(parses, s) && |s.voters.value| == count
  {
    var vs := Crowd(owner, count);
    forall i | 0 <= i < count ensures GoodVoter(parses, vs[i]) { assert vs[i].nftIndex < 1.0; }
    assert Owners(vs) == {owner} by { assert vs[0] in vs; }
  }

  // ----- What a run of the tool returns

  /** The provider's answer for an index is that item of the collection. */
  predicate Answers(provider: Provider, index: int) {
    var r := provider(index);
    r.Item? && r.index == index && r.sameCollection
  }

  /** An item votes when it is initialised and owned, and fails when the provider does not answer for it. */
  lemma QueryMeans(provider: Provider, index: int)
    ensures Query(provider, index).Failed? <==> !Answers(provider, index)
    ensures Query(provider, index).Vote? <==> Answers(provider, index) && provider(index).init && provider(index).owner.Some?
    ensures Query(provider, index).Vote? ==> provider(index).owner == Some(Query(provider, index).owner)
  {}

  /** The least index below n the provider does not answer for. */
  predicate FirstFailure(provider: Provider, n: nat, i: int) {
    0 <= i < n && !Answers(provider, i) && forall j :: 0 <= j < i ==> Answers(provider, j)
  }

  lemma {:induction false} FirstFailed(provider: Provider, n: nat)
    ensures FailedOf(provider, n) == [] <==> forall i :: 0 <= i < n ==> Answers(provider, i)
    ensures FailedOf(provider, n) != [] ==> FirstFailure(provider, n, FailedOf(provider, n)[0])
  {
    if n > 0 {
      var before := FailedOf(provider, n - 1);
      FirstFailed(provider, n - 1);
      QueryMeans(provider, n - 1);
      if before == [] {
        assert FailedOf(provider, n) == if Answers(provider, n - 1) then [] else [n - 1];
      } else {
        assert FailedOf(provider, n)[0] == before[0];
      }
    }
  }

  /** The block asked for: the requested one, a positive safe integer, or else the latest. */
  predicate IsBlock(requested: Option<JsNumber>, latest: Option<int>, block: int) {
    match requested
    case None => latest == Some(block)
    case Some(x) => x == Finite(block as real) && 0 < block < 0x20_0000_0000_0000
  }

  lemma BlockIff(requested: Option<JsNumber>, latest: Option<int>, block: int)
    ensures SnapshotBlock(requested, latest) == Some(block) <==> IsBlock(requested, latest, block)
  {
    if requested.Some? && requested.value == Finite(block as real) { assert requested.value.value.Floor == block; }
  }

  /**
   * The tool returns a snapshot exactly for a readable collection, a block, and
   * answers for every index or permission to go without; otherwise it names what
   * is missing, and an incomplete run its first failing index.
   */
  lemma CreatedIff(
    parses: string -> bool, provider: Provider, collection: string, n: nat,
    requested: Option<JsNumber>, latest: Option<int>, allowPartial: bool)
    ensures var r := Created(parses, provider, collection, n, requested, latest, allowPartial);
            && (r == NoCollection <==> collection == "")
            && (r == BadCollection <==> collection != "" && !parses(collection))
            && (r == BadBlock <==> collection != "" && parses(collection) && forall b :: !IsBlock(requested, latest, b))
            && (r.Incomplete? <==> collection != "" && parses(collection) && (exists b :: IsBlock(requested, latest, b))
                                   && !allowPartial && !(forall i :: 0 <= i < n ==> Answers(provider, i)))
            && (r.Incomplete? ==> FirstFailure(provider, n, r.index))
  {
    FirstFailed(provider, n);
    forall b ensures SnapshotBlock(requested, latest) == Some(b) <==> IsBlock(requested, latest, b) {
      BlockIff(requested, latest, b);
    }
    if SnapshotBlock(requested, latest).Some? { assert IsBlock(requested, latest, SnapshotBlock(requested, latest).value); }
  }

  /** A returned snapshot holds the block and the collection, and for each voting item its owner with one vote, by index. */
  lemma SnapshotHolds(
    parses: string -> bool, provider: Provider, collection: string, n: nat,
    requested: Option<JsNumber>, latest: Option<int>, allowPartial: bool)
    requires Created(parses, provider, collection, n, requested, latest, allowPartial).Success?
    ensures var s := Created(parses, provider, collection, n, requested, latest, allowPartial).value;
            && (exists b: int :: IsBlock(requested, latest, b) && s.block == b as real)
            && s.collection == collection && s.totalSupply == n as real && s.voters.Some?
            && Increasing(s.voters.value) && s.totalVotingPower == |s.voters.value| as real
            && (forall v :: v in s.voters.value <==>
                  exists i :: 0 <= i < n && Answers(provider, i) && provider(i).init && provider(i).owner == Some(v.owner)
                              && v == Voter(i as real, v.owner, 1.0))
  {
    var b := SnapshotBlock(requested, latest).value;
    BlockIff(requested, latest, b);
    VotersIncrease(provider, n);
    forall v: Voter
      ensures v in VotersOf(provider, n) <==>
              exists i :: 0 <= i < n && Answers(provider, i) && provider(i).init && provider(i).owner == Some(v.owner)
                          && v == Voter(i as real, v.owner, 1.0)
    {
      VoterIff(provider, n, v);
    }
  }

  lemma {:induction false} VoterIff(provider: Provider, n: nat, v: Voter)
    ensures v in VotersOf(provider, n) <==>
            exists i :: 0 <= i < n && Answers(provider, i) && provider(i).init && provider(i).owner == Some(v.owner)
                        && v == Voter(i as real, v.owner, 1.0)
  {
    if n > 0 {
      VoterIff(provider, n - 1, v);
      QueryMeans(provider, n - 1);
    }
  }
}
