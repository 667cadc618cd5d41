/**
 * backend/adapters/multisig.ts: the life of a payment proposal. The required
 * number of signatures is a JavaScript number; fractions and NaN are modelled
 * because validateConfig does not exclude them.
 */
module MultiSig {
  import opened Counting
  import opened Text
  import opened JsNumbers
  import opened Validation
  import opened CurrencyLaws

  const MAX_SIGNERS := 3

  datatype Error =
    InvalidThreshold | InsufficientSigners | TooManySigners | DuplicateSigners |
    NotConfigured | InvalidAmount | InvalidRecipient | InvalidStatus | NotSigner | AlreadyApproved

  datatype Result<+T> = Success(value: T) | Failure(error: Error)

  datatype Config = Config(required: JsNumber, signers: seq<string>, isActive: bool)

  datatype Status = Pending | Approved | Rejected | Executed

  datatype Proposal = Proposal(
    recipient: string, amount: string, status: Status,
    approvalCount: nat, requiredApprovals: JsNumber, approvers: seq<string>)

  function Num(n: int): JsNumber { Finite(n as real) }

  /** new Set(signers).size !== signers.length */
  predicate HasDuplicates(s: seq<string>) { |set x | x in s| != |s| }

  function CreateConfig(required: JsNumber, signers: seq<string>): Result<Config> {
    if Lt(required, Num(1)) || Lt(Num(MAX_SIGNERS), required) then Failure(InvalidThreshold)
    else if Lt(Num(|signers|), required) then Failure(InsufficientSigners)
    else if |signers| > MAX_SIGNERS then Failure(TooManySigners)
    else if HasDuplicates(signers) then Failure(DuplicateSigners)
    else Success(Config(required, signers, true))
  }

  function CreateProposal(recipient: string, amount: string, config: Config): Result<Proposal> {
    if !config.isActive then Failure(NotConfigured)
    else if !IsPositiveDecimal(amount) then Failure(InvalidAmount)
    else if Trim(JsSpace, recipient) == "" then Failure(InvalidRecipient)
    else Success(Proposal(recipient, amount, Pending, 0, config.required, []))
  }

  function RecordApproval(p: Proposal, approver: string, config: Config): Result<Proposal> {
    if p.status != Pending then Failure(InvalidStatus)
    else if approver !in config.signers then Failure(NotSigner)
    else if approver in p.approvers then Failure(AlreadyApproved)
    else
      var newCount := p.approvalCount + 1;
      var isApproved := Ge(Num(newCount), p.requiredApprovals);
      Success(p.(approvalCount := newCount, approvers := p.approvers + [approver],
                 status := if isApproved then Approved else Pending))
  }

  function RejectProposal(p: Proposal): Result<Proposal> {
    if p.status != Pending then Failure(InvalidStatus) else Success(p.(status := Rejected))
  }

  function MarkExecuted(p: Proposal): Result<Proposal> {
    if p.status != Approved then Failure(InvalidStatus) else Success(p.(status := Executed))
  }

  // ----- Runs: a failing call throws and leaves the caller with the old proposal

  datatype Action = Approve(who: string) | Reject | Execute

  function Step(c: Config, p: Proposal, a: Action): Result<Proposal> {
    match a
    case Approve(who) => RecordApproval(p, who, c)
    case Reject => RejectProposal(p)
    case Execute => MarkExecuted(p)
  }

  function Run(c: Config, p: Proposal, acts: seq<Action>): Proposal
    decreases |acts|
  {
    if acts == [] then p
    else match Step(c, p, acts[0])
      case Success(q) => Run(c, q, acts[1..])
      case Failure(_) => Run(c, p, acts[1..])
  }

  /** How many calls of the run succeed. */
  function Successes(c: Config, p: Proposal, acts: seq<Action>): nat
    decreases |acts|
  {
    if acts == [] then 0
    else match Step(c, p, acts[0])
      case Success(q) => 1 + Successes(c, q, acts[1..])
      case Failure(_) => Successes(c, p, acts[1..])
  }

  // ----- The invariant

  /** Approvals needed: the threshold rounded up; a NaN threshold can never be met. */
  ghost function Needed(c: Config): nat
    requires ValidConfig(c)
  {
    if c.required.NaN? then |c.signers| + 1 else Ceil(c.required.value)
  }

  ghost predicate ValidConfig(c: Config) {
    && NoRepeats(c.signers) && |c.signers| <= MAX_SIGNERS
    && (c.required.NaN? || (c.required.Finite? && 1.0 <= c.required.value <= |c.signers| as real))
  }

  /** createConfig accepts exactly the configurations with distinct signers and a threshold they can meet, and NaN. */
  lemma CreateConfigIff(required: JsNumber, signers: seq<string>)
    ensures CreateConfig(required, signers).Success? <==> ValidConfig(Config(required, signers, true))
  {
    ElementCount(signers);
  }

  ghost predicate Inv(c: Config, p: Proposal)
    requires ValidConfig(c)
  {
    && NoRepeats(p.approvers) && (forall a :: a in p.approvers ==> a in c.signers)
    && p.approvalCount == |p.approvers| && p.requiredApprovals == c.required
    && (p.status == Pending || p.status == Rejected ==> p.approvalCount < Needed(c))
    && (p.status == Approved || p.status == Executed ==> p.approvalCount == Needed(c))
  }

  lemma CeilSteps(r: real, n: nat)
    ensures (n as real >= r) <==> n >= Ceil(r)
  {}

  /** Every successful step keeps the invariant. */
  lemma StepKeepsInv(c: Config, p: Proposal, a: Action)
    requires ValidConfig(c) && Inv(c, p) && Step(c, p, a).Success?
    ensures Inv(c, Step(c, p, a).value)
  {
    if a.Approve? {
      var q := Step(c, p, a).value;
      assert NoRepeats(q.approvers);
      DistinctWithin(q.approvers, c.signers);
      if c.required.Finite? { CeilSteps(c.required.value, q.approvalCount); }
    }
  }

  /** Over every run of a new proposal under one valid configuration the invariant holds. */
  lemma {:induction false} RunKeepsInv(c: Config, p: Proposal, acts: seq<Action>)
    requires ValidConfig(c) && Inv(c, p)
    ensures Inv(c, Run(c, p, acts))
    decreases |acts|
  {
    if acts != [] {
      match Step(c, p, acts[0])
      case Success(q) =>
        StepKeepsInv(c, p, acts[0]);
        RunKeepsInv(c, q, acts[1..]);
      case Failure(_) =>
        RunKeepsInv(c, p, acts[1..]);
    }
  }

  lemma NewProposalInv(c: Config, recipient: string, amount: string)
    requires ValidConfig(c) && CreateProposal(recipient, amount, c).Success?
    ensures Inv(c, CreateProposal(recipient, amount, c).value)
  {}

  lemma CeilIsExactIff(r: real)
    ensures Ceil(r) as real == r <==> IsInteger(r)
  {
    var m := (-r).Floor;
    assert Ceil(r) == -m;
    if IsInteger(r) {
      var k := r.Floor;
      assert -r == (-k) as real;
      assert m == -k;
    }
    if Ceil(r) as real == r { assert r == (-m) as real; }
  }

  /** An approved or executed proposal carries as many distinct signers as its threshold rounded up, never NaN. */
  lemma ApprovedMeans(c: Config, recipient: string, amount: string, acts: seq<Action>)
    requires ValidConfig(c) && CreateProposal(recipient, amount, c).Success?
    ensures var p := Run(c, CreateProposal(recipient, amount, c).value, acts);
            p.status == Approved || p.status == Executed ==>
              && c.required.Finite? && |Elements(p.approvers)| == Ceil(c.required.value)
              && Elements(p.approvers) <= Elements(c.signers)
              && (p.approvalCount as real == c.required.value <==> IsInteger(c.required.value))
  {
    var p := Run(c, CreateProposal(recipient, amount, c).value, acts);
    NewProposalInv(c, recipient, amount);
    RunKeepsInv(c, CreateProposal(recipient, amount, c).value, acts);
    ElementCount(p.approvers);
    if c.required.Finite? { CeilIsExactIff(c.required.value); }
    DistinctWithin(p.approvers, c.signers);
  }

  // ----- No run is longer than the threshold allows

  ghost function Fuel(c: Config, p: Proposal): nat
    requires ValidConfig(c) && Inv(c, p)
  {
    match p.status
    case Pending => Bound(c) - |p.approvers| + 1
    case Approved => 1
    case _ => 0
  }

  /** The most approvals any run can collect. */
  ghost function Bound(c: Config): nat
    requires ValidConfig(c)
  {
    if c.required.NaN? then |c.signers| else Needed(c)
  }

  lemma {:induction false} SuccessesBounded(c: Config, p: Proposal, acts: seq<Action>)
    requires ValidConfig(c) && Inv(c, p)
    ensures Successes(c, p, acts) <= Fuel(c, p)
    decreases |acts|
  {
    if acts != [] {
      match Step(c, p, acts[0])
      case Success(q) =>
        StepKeepsInv(c, p, acts[0]);
        SuccessesBounded(c, q, acts[1..]);
      case Failure(_) =>
        SuccessesBounded(c, p, acts[1..]);
    }
  }

  /** At most threshold + 1 calls of a run succeed. */
  lemma RunLength(c: Config, recipient: string, amount: string, acts: seq<Action>)
    requires ValidConfig(c) && CreateProposal(recipient, amount, c).Success?
    ensures Successes(c, CreateProposal(recipient, amount, c).value, acts) <= Bound(c) + 1 <= 4
  {
    NewProposalInv(c, recipient, amount);
    SuccessesBounded(c, CreateProposal(recipient, amount, c).value, acts);
    if c.required.Finite? { CeilSteps(c.required.value, |c.signers|); }
  }

  // ----- Progress

  /** Some configured signer can still approve. */
  ghost predicate CanProgress(c: Config, p: Proposal) {
    exists s :: s in c.signers && RecordApproval(p, s, c).Success?
  }

  /** Pigeonhole: below the threshold some signer has not approved yet. */
  lemma PendingCanProgress(c: Config, p: Proposal)
    requires ValidConfig(c) && Inv(c, p) && p.status == Pending && !c.required.NaN?
    ensures CanProgress(c, p)
  {
    CeilSteps(c.required.value, |c.signers|);
    DistinctWithin(p.approvers, c.signers);
    var s :| s in c.signers && s !in p.approvers;
    assert RecordApproval(p, s, c).Success?;
  }

  function ApproveAll(signers: seq<string>): seq<Action> {
    if signers == [] then [] else [Approve(signers[0])] + ApproveAll(signers[1..])
  }

  lemma NextIsNew(a: seq<string>, rest: seq<string>)
    requires rest != [] && NoRepeats(a + rest)
    ensures rest[0] !in a
  {
    forall i | 0 <= i < |a| ensures a[i] != rest[0] {
      assert (a + rest)[i] == a[i] && (a + rest)[|a|] == rest[0];
    }
  }

  lemma {:induction false} NaNNeverApproves(c: Config, p: Proposal, rest: seq<string>)
    requires ValidConfig(c) && c.required.NaN? && Inv(c, p) && p.status == Pending
    requires c.signers == p.approvers + rest
    ensures Run(c, p, ApproveAll(rest)).status == Pending && Run(c, p, ApproveAll(rest)).approvers == c.signers
    decreases |rest|
  {
    if rest == [] {
      assert p.approvers + rest == p.approvers;
    } else {
      var who := rest[0];
      assert c.signers[|p.approvers|] == who;
      NextIsNew(p.approvers, rest);
      var q := RecordApproval(p, who, c).value;
      StepKeepsInv(c, p, Approve(who));
      assert q.approvers + rest[1..] == c.signers;
      NaNNeverApproves(c, q, rest[1..]);
      assert ApproveAll(rest)[1..] == ApproveAll(rest[1..]);
    }
  }

  /**
   * Every pending proposal can still be approved by someone, in all runs, exactly
   * when the threshold is not NaN; with NaN all signers may approve in vain.
   */
  lemma ProgressIffNotNaN(c: Config, recipient: string, amount: string)
    requires ValidConfig(c) && CreateProposal(recipient, amount, c).Success?
    ensures var p := CreateProposal(recipient, amount, c).value;
            (forall acts :: Run(c, p, acts).status == Pending ==> CanProgress(c, Run(c, p, acts))) <==> !c.required.NaN?
  {
    var p := CreateProposal(recipient, amount, c).value;
    NewProposalInv(c, recipient, amount);
    if c.required.NaN? {
      assert c.signers == p.approvers + c.signers;
      NaNNeverApproves(c, p, c.signers);
      assert !CanProgress(c, Run(c, p, ApproveAll(c.signers)));
    } else {
      forall acts | Run(c, p, acts).status == Pending ensures CanProgress(c, Run(c, p, acts)) {
        RunKeepsInv(c, p, acts);
        PendingCanProgress(c, Run(c, p, acts));
      }
    }
  }

  // ----- When each call succeeds, and what it returns

  /** Not empty, and not all white space. */
  ghost predicate NotBlank(s: string) { exists i :: 0 <= i < |s| && !JsSpace(s[i]) }

  /** A configuration holds what it was created with, and is active. */
  lemma CreatedConfig(required: JsNumber, signers: seq<string>)
    requires CreateConfig(required, signers).Success?
    ensures CreateConfig(required, signers).value == Config(required, signers, true)
    ensures |signers| <= 3 && forall i, j :: 0 <= i < j < |signers| ==> signers[i] != signers[j]
  {
    CreateConfigIff(required, signers);
  }

  /** Proposing needs an active configuration, a positive amount and a recipient; the proposal asks for exactly that payment. */
  lemma CreateProposalIff(recipient: string, amount: string, c: Config)
    ensures CreateProposal(recipient, amount, c).Success? <==> c.isActive && PositiveAmount(amount) && NotBlank(recipient)
    ensures CreateProposal(recipient, amount, c).Success? ==>
              var p := CreateProposal(recipient, amount, c).value;
              && p.recipient == recipient && p.amount == amount && p.requiredApprovals == c.required
              && p.status == Pending && p.approvalCount == 0 && p.approvers == []
  {
    PositiveDecimalIff(amount);
    TrimBlankIff(JsSpace, recipient);
  }

  /** The payment a proposal stands for, and what it takes to approve it. */
  predicate SamePayment(p: Proposal, q: Proposal) {
    q.recipient == p.recipient && q.amount == p.amount && q.requiredApprovals == p.requiredApprovals
  }

  /** Approving needs a pending proposal and a configured signer who has not approved; it appends that signer and no more. */
  lemma RecordApprovalIff(p: Proposal, who: string, c: Config)
    ensures RecordApproval(p, who, c).Success? <==> p.status == Pending && who in c.signers && who !in p.approvers
    ensures RecordApproval(p, who, c).Success? ==>
              var q := RecordApproval(p, who, c).value;
              && SamePayment(p, q) && q.approvers == p.approvers + [who] && q.approvalCount == p.approvalCount + 1
              && q.status == (if Ge(Num(p.approvalCount + 1), p.requiredApprovals) then Approved else Pending)
    ensures RecordApproval(p, who, c).Failure? ==>
              RecordApproval(p, who, c).error ==
              if p.status != Pending then InvalidStatus else if who !in c.signers then NotSigner else AlreadyApproved
  {}

  /** Rejecting needs a pending proposal, marking as executed an approved one; both change the status only. */
  lemma ClosingIff(p: Proposal)
    ensures RejectProposal(p) == if p.status == Pending then Success(p.(status := Rejected)) else Failure(InvalidStatus)
    ensures MarkExecuted(p) == if p.status == Approved then Success(p.(status := Executed)) else Failure(InvalidStatus)
  {}

  /** Over every run the payment stays the one that was proposed. */
  lemma {:induction false} RunKeepsPayment(c: Config, p: Proposal, acts: seq<Action>)
    ensures SamePayment(p, Run(c, p, acts))
    decreases |acts|
  {
    if acts != [] {
      match Step(c, p, acts[0])
      case Success(q) => RunKeepsPayment(c, q, acts[1..]);
      case Failure(_) => RunKeepsPayment(c, p, acts[1..]);
    }
  }

  /** What the signers of an approved or executed proposal approved is what was proposed. */
  lemma ApprovedPayment(c: Config, recipient: string, amount: string, acts: seq<Action>)
    requires CreateProposal(recipient, amount, c).Success?
    ensures var p := Run(c, CreateProposal(recipient, amount, c).value, acts);
            p.recipient == recipient && p.amount == amount && p.requiredApprovals == c.required
  {
    CreateProposalIff(recipient, amount, c);
    RunKeepsPayment(c, CreateProposal(recipient, amount, c).value, acts);
  }

  // ----- The approvers and the status of a run, read off its calls

  /** Configured signers in the order of their first approval, up to the first rejection. */
  function Eligible(c: Config, seen: seq<string>, acts: seq<Action>): seq<string>
    decreases |acts|
  {
    if acts == [] then seen
    else match acts[0]
      case Approve(who) => Eligible(c, if who in c.signers && who !in seen then seen + [who] else seen, acts[1..])
      case Reject => seen
      case Execute => Eligible(c, seen, acts[1..])
  }

  lemma {:induction false} EligibleGrows(c: Config, seen: seq<string>, acts: seq<Action>)
    ensures seen <= Eligible(c, seen, acts)
    decreases |acts|
  {
    if acts != [] {
      match acts[0]
      case Approve(who) => EligibleGrows(c, if who in c.signers && who !in seen then seen + [who] else seen, acts[1..]);
      case Reject =>
      case Execute => EligibleGrows(c, seen, acts[1..]);
    }
  }

  /** Once decided, a proposal keeps its approvers, and is never pending or rejected after being approved. */
  lemma {:induction false} DecidedKeeps(c: Config, p: Proposal, acts: seq<Action>)
    requires p.status != Pending
    ensures var q := Run(c, p, acts);
            && q.approvers == p.approvers
            && (p.status == Rejected ==> q.status == Rejected)
            && (p.status == Approved || p.status == Executed ==> q.status == Approved || q.status == Executed)
    decreases |acts|
  {
    if acts != [] {
      match Step(c, p, acts[0])
      case Success(q) => DecidedKeeps(c, q, acts[1..]);
      case Failure(_) => DecidedKeeps(c, p, acts[1..]);
    }
  }

  function FirstOf(s: seq<string>, k: nat): seq<string> { if |s| <= k then s else s[..k] }

  /**
   * The approvers of a run are the first eligible signers, as many as needed; it
   * is approved or executed exactly when there are that many, and otherwise
   * rejected exactly when some call rejects.
   */
  lemma {:induction false} RunReadOff(c: Config, p: Proposal, acts: seq<Action>)
    requires ValidConfig(c) && Inv(c, p) && p.status == Pending
    ensures var q, e := Run(c, p, acts), Eligible(c, p.approvers, acts);
            && q.approvers == FirstOf(e, Needed(c))
            && (q.status == Approved || q.status == Executed <==> |e| >= Needed(c))
            && (q.status == Rejected <==> |e| < Needed(c) && Reject in acts)
    decreases |acts|
  {
    if acts != [] {
      assert acts == [acts[0]] + acts[1..];
      match Step(c, p, acts[0])
      case Success(q) =>
        StepKeepsInv(c, p, acts[0]);
        if q.status == Pending {
          RunReadOff(c, q, acts[1..]);
        } else {
          DecidedKeeps(c, q, acts[1..]);
          if acts[0].Approve? { EligibleGrows(c, q.approvers, acts[1..]); }
        }
      case Failure(_) =>
        RunReadOff(c, p, acts[1..]);
    }
  }
}
