/**
 * scripts/governance/snapshot.ts: building a voter snapshot from an unreliable
 * provider and verifying one. Numbers of a snapshot are JSON numbers (reals);
 * `parses` says which texts Address.parse accepts.
 */
module Snapshot {
  import opened Text
  import opened JsNumbers

  const SUPPLY := 222

  datatype Voter = Voter(nftIndex: real, owner: string, votingPower: real)

  datatype Metadata = Metadata(complete: bool, failedIndices: Option<seq<int>>)

  datatype Snapshot = Snapshot(
    block: real, collection: string, totalSupply: real, voters: Option<seq<Voter>>,
    totalVotingPower: real, uniqueOwners: real, metadata: Option<Metadata>)

  // ----- Building

  /** The provider's answer for one index at the pinned block: an error, or the item's data. */
  datatype Reply = Unavailable | Item(index: int, sameCollection: bool, init: bool, owner: Option<string>)

  type Provider = int -> Reply

  datatype Outcome = Vote(owner: string) | Excluded | Failed

  function Query(provider: Provider, index: int): Outcome {
    match provider(index)
    case Unavailable => Failed
    case Item(i, same, init, owner) =>
      if i != index || !same then Failed
      else if init && owner.Some? then Vote(owner.value)
      else Excluded
  }

  function OneVoter(index: int, owner: string): Voter { Voter(index as real, owner, 1.0) }

  /** Voters among the first n items. */
  function VotersOf(provider: Provider, n: nat): seq<Voter> {
    if n == 0 then []
    else VotersOf(provider, n - 1) + (if Query(provider, n - 1).Vote? then [OneVoter(n - 1, Query(provider, n - 1).owner)] else [])
  }

  function FailedOf(provider: Provider, n: nat): seq<int> {
    if n == 0 then []
    else FailedOf(provider, n - 1) + (if Query(provider, n - 1).Failed? then [n - 1] else [])
  }

  function Owners(voters: seq<Voter>): set<string> { set v | v in voters :: v.owner }

  /** voters.sort((a, b) => a.nft_index - b.nft_index) */
  function InsertByIndex(v: Voter, vs: seq<Voter>): seq<Voter> {
    if vs == [] || v.nftIndex < vs[0].nftIndex then [v] + vs else [vs[0]] + InsertByIndex(v, vs[1..])
  }

  function SortByIndex(vs: seq<Voter>): seq<Voter> {
    if vs == [] then [] else InsertByIndex(vs[0], SortByIndex(vs[1..]))
  }

  datatype Result<+T> = Success(value: T) | Incomplete(index: int) | NoCollection | BadCollection | BadBlock

  /** The block a snapshot is taken at: the requested seqno, or the provider's latest. */
  function SnapshotBlock(requested: Option<JsNumber>, latest: Option<int>): Option<int> {
    match requested
    case None => latest
    case Some(x) => if !IsSafeInteger(x) || x.value <= 0.0 then None else Some(x.value.Floor)
  }

  ghost predicate Increasing(vs: seq<Voter>) {
    forall i, j :: 0 <= i < j < |vs| ==> vs[i].nftIndex < vs[j].nftIndex
  }

  lemma {:induction false} SortedStays(vs: seq<Voter>)
    requires Increasing(vs)
    ensures SortByIndex(vs) == vs
  {
    if vs != [] {
      SortedStays(vs[1..]);
      if |vs| > 1 { assert vs[1..][0] == vs[1]; }
      assert vs == [vs[0]] + vs[1..];
    }
  }

  lemma {:induction false} VotersIncrease(provider: Provider, n: nat)
    ensures Increasing(VotersOf(provider, n))
    ensures forall v :: v in VotersOf(provider, n) ==> exists i :: 0 <= i < n && v == OneVoter(i, v.owner) && Query(provider, i) == Vote(v.owner)
  {
    if n > 0 {
      VotersIncrease(provider, n - 1);
      var vs := VotersOf(provider, n);
      if Query(provider, n - 1).Vote? {
        var front := VotersOf(provider, n - 1);
        assert vs == front + [OneVoter(n - 1, Query(provider, n - 1).owner)];
        forall i | 0 <= i < |front| ensures front[i].nftIndex < (n - 1) as real {
          assert front[i] in front;
        }
      }
    }
  }

  /** createSnapshot's loop: collects voters, owners and failures; stops at the first failure unless partial is allowed. */
  method CreateSnapshot(
    parses: string -> bool, provider: Provider, collection: string, totalSupply: nat,
    requested: Option<JsNumber>, latest: Option<int>, allowPartial: bool)
    returns (r: Result<Snapshot>)
    ensures r == Created(parses, provider, collection, totalSupply, requested, latest, allowPartial)
  {
    if collection == "" {
      return NoCollection;
    }
    if !parses(collection) {
      return BadCollection;
    }
    var block := SnapshotBlock(requested, latest);
    if block.None? {
      return BadBlock;
    }
    var voters: seq<Voter> := [];
    var ownerSet: set<string> := {};
    var failedIndices: seq<int> := [];
    for index := 0 to totalSupply
      invariant voters == VotersOf(provider, index) && failedIndices == FailedOf(provider, index)
      invariant ownerSet == Owners(voters)
      invariant !allowPartial ==> failedIndices == []
    {
      match Query(provider, index) {
        case Vote(owner) =>
          voters := voters + [OneVoter(index, owner)];
          ownerSet := ownerSet + {owner};
        case Excluded =>
        case Failed =>
          failedIndices := failedIndices + [index];
          if !allowPartial {
            FailedGrows(provider, index + 1, totalSupply);
            return Incomplete(index);
          }
      }
    }
    VotersIncrease(provider, totalSupply);
    SortedStays(voters);
    return Success(Snapshot(
      block.value as real, collection, totalSupply as real, Some(SortByIndex(voters)),
      |voters| as real, |ownerSet| as real, Some(Metadata(failedIndices == [], Some(failedIndices)))));
  }

  lemma {:induction false} FailedGrows(provider: Provider, m: nat, n: nat)
    requires m <= n
    ensures FailedOf(provider, m) <= FailedOf(provider, n)
  {
    if m < n { FailedGrows(provider, m, n - 1); }
  }

  /** The snapshot record for collected voters and failures. */
  function Assemble(block: int, collection: string, totalSupply: nat, voters: seq<Voter>, failed: seq<int>): Snapshot {
    Snapshot(block as real, collection, totalSupply as real, Some(voters),
             |voters| as real, |Owners(voters)| as real, Some(Metadata(failed == [], Some(failed))))
  }

  /** The specification of createSnapshot. */
  function Created(
    parses: string -> bool, provider: Provider, collection: string, totalSupply: nat,
    requested: Option<JsNumber>, latest: Option<int>, allowPartial: bool): Result<Snapshot>
  {
    if collection == "" then NoCollection
    else if !parses(collection) then BadCollection
    else match SnapshotBlock(requested, latest)
      case None => BadBlock
      case Some(block) =>
        var voters, failed := VotersOf(provider, totalSupply), FailedOf(provider, totalSupply);
        if failed != [] && !allowPartial then Incomplete(failed[0])
        else Success(Assemble(block, collection, totalSupply, voters, failed))
  }

  // ----- Verifying

  datatype Problem =
    | InvalidBlock | MissingCollection | WrongSupply | VotersNotArray
    | IndexOutOfRange(voter: nat) | DuplicateIndex(voter: nat) | BadOwner(voter: nat) | BadPower(voter: nat)
    | TotalMismatch | OwnersMismatch | Partial

  /** A voter record that raises no error by itself. */
  predicate GoodVoter(parses: string -> bool, v: Voter) {
    0.0 <= v.nftIndex < SUPPLY as real && parses(v.owner) && v.votingPower == 1.0
  }

  predicate GoodVoters(parses: string -> bool, voters: seq<Voter>) {
    forall i :: 0 <= i < |voters| ==> GoodVoter(parses, voters[i])
  }

  predicate DistinctIndices(voters: seq<Voter>) {
    forall i, j :: 0 <= i < j < |voters| ==> voters[i].nftIndex != voters[j].nftIndex
  }

  /** What a snapshot without errors looks like. */
  predicate Verified(parses: string -> bool, s: Snapshot) {
    && s.block > 0.0 && s.collection != "" && s.totalSupply == SUPPLY as real
    && s.voters.Some?
    && GoodVoters(parses, s.voters.value)
    && DistinctIndices(s.voters.value)
    && s.totalVotingPower == |s.voters.value| as real
    && s.uniqueOwners == |Owners(s.voters.value)| as real
    && s.metadata.Some? && s.metadata.value.complete
    && (s.metadata.value.failedIndices.Some? ==> s.metadata.value.failedIndices.value == [])
  }

  /** The errors one voter record raises, `seen` telling whether its index occurred before. */
  function VoterProblems(parses: string -> bool, i: nat, v: Voter, seen: bool): (r: seq<Problem>)
    ensures r == [] <==> GoodVoter(parses, v) && !seen
  {
    (if v.nftIndex < 0.0 || v.nftIndex >= SUPPLY as real then [IndexOutOfRange(i)] else [])
    + (if seen then [DuplicateIndex(i)] else [])
    + (if !parses(v.owner) then [BadOwner(i)] else [])
    + (if v.votingPower != 1.0 then [BadPower(i)] else [])
  }

  /** The forEach over the voters: errors, seen indices and owners. */
  method CheckVoters(parses: string -> bool, voters: seq<Voter>) returns (errors: seq<Problem>, owners: set<string>)
    ensures errors == [] <==> DistinctIndices(voters) && GoodVoters(parses, voters)
    ensures owners == Owners(voters)
  {
    errors := [];
    owners := {};
    var indices: set<real> := {};
    for i := 0 to |voters|
      invariant indices == set k | 0 <= k < i :: voters[k].nftIndex
      invariant owners == Owners(voters[..i])
      invariant errors == [] <==> DistinctIndices(voters[..i]) && GoodVoters(parses, voters[..i])
    {
      var voter := voters[i];
      errors := errors + VoterProblems(parses, i, voter, voter.nftIndex in indices);
      indices := indices + {voter.nftIndex};
      owners := owners + {voter.owner};
      assert voters[..i + 1] == voters[..i] + [voter];
      DistinctAppend(voters[..i], voter);
      GoodAppend(parses, voters[..i], voter);
    }
    assert voters[..|voters|] == voters;
  }

  lemma GoodAppend(parses: string -> bool, vs: seq<Voter>, v: Voter)
    ensures GoodVoters(parses, vs + [v]) <==> GoodVoters(parses, vs) && GoodVoter(parses, v)
  {
    var all := vs + [v];
    assert all[|vs|] == v && forall i :: 0 <= i < |vs| ==> all[i] == vs[i];
    if GoodVoters(parses, all) {
      forall i | 0 <= i < |vs| ensures GoodVoter(parses, vs[i]) { assert GoodVoter(parses, all[i]); }
    }
  }

  lemma DistinctAppend(vs: seq<Voter>, v: Voter)
    ensures DistinctIndices(vs + [v]) <==> DistinctIndices(vs) && forall k :: 0 <= k < |vs| ==> vs[k].nftIndex != v.nftIndex
  {
    var all := vs + [v];
    if DistinctIndices(all) {
      forall i, j | 0 <= i < j < |vs| ensures vs[i].nftIndex != vs[j].nftIndex { assert all[i] == vs[i] && all[j] == vs[j]; }
      forall k | 0 <= k < |vs| ensures vs[k].nftIndex != v.nftIndex { assert all[k] == vs[k] && all[|vs|] == v; }
    }
  }

  /** verifySnapshot: no error is reported exactly for the snapshots described by Verified. */
  method VerifySnapshot(parses: string -> bool, s: Snapshot) returns (errors: seq<Problem>)
    ensures errors == [] <==> Verified(parses, s)
  {
    errors := [];
    if s.block <= 0.0 {
      errors := errors + [InvalidBlock];
    }
    if s.collection == "" {
      errors := errors + [MissingCollection];
    }
    if s.totalSupply != SUPPLY as real {
      errors := errors + [WrongSupply];
    }
    if s.voters.None? {
      errors := errors + [VotersNotArray];
    } else {
      var problems, owners := CheckVoters(parses, s.voters.value);
      errors := errors + problems;
      if s.totalVotingPower != |s.voters.value| as real {
        errors := errors + [TotalMismatch];
      }
      if s.uniqueOwners != |owners| as real {
        errors := errors + [OwnersMismatch];
      }
    }
    if s.metadata.None? || !s.metadata.value.complete
       || (s.metadata.value.failedIndices.Some? && |s.metadata.value.failedIndices.value| > 0) {
      errors := errors + [Partial];
    }
  }
}
