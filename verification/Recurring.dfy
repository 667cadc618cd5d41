/** backend/adapters/recurring.ts: recurring payment mandates. Times are JavaScript dates, in milliseconds. */
module Recurring {
  import opened Text
  import opened JsNumbers
  import opened Validation
  import opened CurrencyLaws

  const MIN_PERIOD_SECONDS := 3600
  const MAX_PERIOD_SECONDS := 365 * 24 * 3600

  /** The last millisecond a JavaScript Date can hold. */
  const MAX_DATE := 8_640_000_000_000_000

  type Instant = t: int | -MAX_DATE <= t <= MAX_DATE

  datatype Date = Invalid | At(ms: Instant)

  function NewDate(ms: int): Date { if -MAX_DATE <= ms <= MAX_DATE then At(ms) else Invalid }

  /** a < b; comparisons with an invalid date are false. */
  predicate Before(a: Date, b: Date) { a.At? && b.At? && a.ms < b.ms }

  /** The dates are the milliseconds up to 100,000,000 days from the epoch. */
  lemma NewDateIff(ms: int)
    ensures NewDate(ms) == if -86_400_000 * 100_000_000 <= ms <= 86_400_000 * 100_000_000 then At(ms) else Invalid
  {}

  datatype Error = InvalidAmount | InvalidPeriod | InvalidMaxExecutions | InvalidStatus

  datatype Result<+T> = Success(value: T) | Failure(error: Error)

  datatype Status = Active | Cancelled | Completed

  datatype Mandate = Mandate(
    amountPerPeriod: string, periodSeconds: int, maxExecutions: int,
    executionCount: nat, status: Status, lastExecutedAt: Option<Instant>)

  datatype Execution = Execution(
    executionNumber: nat, amount: string, txHash: Option<string>, executedAt: Instant, confirmed: bool)

  datatype Recorded = Recorded(mandate: Mandate, execution: Execution)

  function CreateMandate(amount: string, periodSeconds: JsNumber, maxExecutions: JsNumber): Result<Mandate> {
    if !IsPositiveDecimal(amount) then Failure(InvalidAmount)
    else if !IsSafeInteger(periodSeconds) || periodSeconds.value < MIN_PERIOD_SECONDS as real then Failure(InvalidPeriod)
    else if periodSeconds.value > MAX_PERIOD_SECONDS as real then Failure(InvalidPeriod)
    else if !IsSafeInteger(maxExecutions) || maxExecutions.value < 0.0 then Failure(InvalidMaxExecutions)
    else Success(Mandate(amount, periodSeconds.value.Floor, maxExecutions.value.Floor, 0, Active, None))
  }

  function CancelMandate(m: Mandate): Result<Mandate> {
    if m.status != Active then Failure(InvalidStatus) else Success(m.(status := Cancelled))
  }

  function RecordExecution(m: Mandate, txHash: Option<string>, now: Instant): Result<Recorded> {
    if m.status != Active then Failure(InvalidStatus)
    else
      var newCount := m.executionCount + 1;
      var isCompleted := m.maxExecutions > 0 && newCount >= m.maxExecutions;
      Success(Recorded(
        m.(executionCount := newCount, lastExecutedAt := Some(now), status := if isCompleted then Completed else Active),
        Execution(newCount, m.amountPerPeriod, txHash, now, txHash.Some? && txHash.value != "")))
  }

  function PeriodMs(m: Mandate): int { m.periodSeconds * 1000 }

  predicate CanExecute(m: Mandate, now: Instant) {
    if m.status != Active then false
    else if m.maxExecutions > 0 && m.executionCount >= m.maxExecutions then false
    else if m.lastExecutedAt.Some? && Before(At(now), NewDate(m.lastExecutedAt.value + PeriodMs(m))) then false
    else true
  }

  function GetNextExecutionTime(m: Mandate, now: Instant): Option<Date> {
    if m.status != Active then None
    else if m.maxExecutions > 0 && m.executionCount >= m.maxExecutions then None
    else if m.lastExecutedAt.None? then Some(At(now))
    else Some(NewDate(m.lastExecutedAt.value + PeriodMs(m)))
  }

  /** The next execution time exists and is not after now. */
  predicate Due(m: Mandate, now: Instant) {
    var next := GetNextExecutionTime(m, now);
    next.Some? && next.value.At? && next.value.ms <= now
  }

  /** A mandate can be executed when it is due, and otherwise only when its next date is invalid. */
  lemma CanExecuteIffDue(m: Mandate, now: Instant)
    ensures CanExecute(m, now) <==> Due(m, now) || GetNextExecutionTime(m, now) == Some(Invalid)
  {}

  // ----- Runs

  datatype Call = Record(txHash: Option<string>, now: Instant) | Cancel

  /** The mandate and every execution recorded so far. */
  datatype State = State(mandate: Mandate, log: seq<Execution>)

  function Step(s: State, call: Call): State {
    match call
    case Record(tx, now) =>
      (match RecordExecution(s.mandate, tx, now)
       case Success(r) => State(r.mandate, s.log + [r.execution])
       case Failure(_) => s)
    case Cancel =>
      (match CancelMandate(s.mandate)
       case Success(m) => s.(mandate := m)
       case Failure(_) => s)
  }

  function Run(s: State, calls: seq<Call>): State
    decreases |calls|
  {
    if calls == [] then s else Run(Step(s, calls[0]), calls[1..])
  }

  /** canExecute holds, and the next date is a date. */
  predicate MayRecord(m: Mandate, now: Instant) {
    CanExecute(m, now) && GetNextExecutionTime(m, now) != Some(Invalid)
  }

  /** Every record that took effect was made when it might be. */
  predicate Guarded(s: State, calls: seq<Call>)
    decreases |calls|
  {
    calls == [] ||
    ((calls[0].Record? && s.mandate.status == Active ==> MayRecord(s.mandate, calls[0].now))
     && Guarded(Step(s, calls[0]), calls[1..]))
  }

  // ----- The invariant

  /** Consecutive executions are at least one period apart. */
  predicate Spaced(period: int, log: seq<Execution>) {
    forall i :: 0 <= i < |log| - 1 ==> log[i].executedAt + period <= log[i + 1].executedAt
  }

  predicate LogMatches(m: Mandate, log: seq<Execution>) {
    && m.executionCount == |log|
    && (forall i :: 0 <= i < |log| ==> log[i].executionNumber == i + 1 && log[i].amount == m.amountPerPeriod)
    && m.lastExecutedAt == if log == [] then None else Some(log[|log| - 1].executedAt)
  }

  predicate StatusMatches(m: Mandate) {
    m.maxExecutions >= 0 &&
    match m.status
    case Completed => m.maxExecutions > 0 && m.executionCount == m.maxExecutions
    case _ => m.maxExecutions > 0 ==> m.executionCount < m.maxExecutions
  }

  predicate Inv(s: State) {
    && MIN_PERIOD_SECONDS <= s.mandate.periodSeconds <= MAX_PERIOD_SECONDS
    && LogMatches(s.mandate, s.log) && StatusMatches(s.mandate)
  }

  lemma NewMandateInv(amount: string, period: JsNumber, max: JsNumber)
    requires CreateMandate(amount, period, max).Success?
    ensures Inv(State(CreateMandate(amount, period, max).value, []))
  {}

  lemma StepKeepsInv(s: State, call: Call)
    requires Inv(s)
    ensures Inv(Step(s, call))
    ensures PeriodMs(Step(s, call).mandate) == PeriodMs(s.mandate)
  {}

  lemma SpacedAppend(period: int, log: seq<Execution>, e: Execution)
    ensures Spaced(period, log + [e]) <==>
            Spaced(period, log) && (log != [] ==> log[|log| - 1].executedAt + period <= e.executedAt)
  {
    var longer := log + [e];
    if Spaced(period, longer) {
      forall i | 0 <= i < |log| - 1 ensures log[i].executedAt + period <= log[i + 1].executedAt {
        assert longer[i].executedAt + period <= longer[i + 1].executedAt;
      }
      if log != [] { assert longer[|log| - 1].executedAt + period <= longer[|log| - 1 + 1].executedAt; }
    }
  }

  /** A record keeps the spacing exactly when canExecute held and the next date was valid. */
  lemma StepSpacedIff(s: State, call: Call)
    requires Inv(s)
    ensures Spaced(PeriodMs(s.mandate), Step(s, call).log) <==>
            Spaced(PeriodMs(s.mandate), s.log) &&
            (call.Record? && s.mandate.status == Active ==> MayRecord(s.mandate, call.now))
  {
    if call.Record? && s.mandate.status == Active {
      SpacedAppend(PeriodMs(s.mandate), s.log, RecordExecution(s.mandate, call.txHash, call.now).value.execution);
    }
  }

  /** Over every run: numbering without gaps, completion exactly at a positive maximum, and spacing exactly when guarded. */
  lemma {:induction false} RunResult(s: State, calls: seq<Call>)
    requires Inv(s)
    ensures Inv(Run(s, calls))
    ensures Spaced(PeriodMs(s.mandate), Run(s, calls).log) <==> Spaced(PeriodMs(s.mandate), s.log) && Guarded(s, calls)
    decreases |calls|
  {
    if calls != [] {
      StepKeepsInv(s, calls[0]);
      StepSpacedIff(s, calls[0]);
      RunResult(Step(s, calls[0]), calls[1..]);
    }
  }

  /** The run of a new mandate. */
  lemma MandateRun(amount: string, period: JsNumber, max: JsNumber, calls: seq<Call>)
    requires CreateMandate(amount, period, max).Success?
    ensures var m := CreateMandate(amount, period, max).value;
            var end := Run(State(m, []), calls);
            && end.mandate.executionCount == |end.log|
            && (forall i :: 0 <= i < |end.log| ==> end.log[i].executionNumber == i + 1 && end.log[i].amount == end.mandate.amountPerPeriod)
            && (end.mandate.status == Completed <==> end.mandate.maxExecutions > 0 && |end.log| == end.mandate.maxExecutions)
            && (end.mandate.maxExecutions > 0 ==> |end.log| <= end.mandate.maxExecutions)
            && (Spaced(PeriodMs(m), end.log) <==> Guarded(State(m, []), calls))
  {
    NewMandateInv(amount, period, max);
    RunResult(State(CreateMandate(amount, period, max).value, []), calls);
  }

  // ----- The log of a run, read off the calls

  /** The records made before the first cancellation. */
  function Records(calls: seq<Call>): (r: seq<Call>)
    ensures forall i :: 0 <= i < |r| ==> r[i].Record?
  {
    if calls == [] || calls[0].Cancel? then [] else [calls[0]] + Records(calls[1..])
  }

  predicate Exhausts(m: Mandate, n: nat) { m.maxExecutions > 0 && m.executionCount + n >= m.maxExecutions }

  /** How many of n more records a mandate takes. */
  function Taken(m: Mandate, n: nat): (k: nat)
    requires StatusMatches(m)
    ensures k <= n
  {
    if Exhausts(m, n) then m.maxExecutions - m.executionCount else n
  }

  /** A record as the log shows it: confirmed when it carries a transaction hash. */
  function Entry(amount: string, number: nat, call: Call): Execution
    requires call.Record?
  {
    Execution(number, amount, call.txHash, call.now, call.txHash != None && call.txHash != Some(""))
  }

  function Entries(amount: string, first: nat, records: seq<Call>): (r: seq<Execution>)
    requires forall i :: 0 <= i < |records| ==> records[i].Record?
    ensures |r| == |records| && forall i :: 0 <= i < |r| ==> r[i] == Entry(amount, first + i, records[i])
  {
    seq(|records|, i requires 0 <= i < |records| => Entry(amount, first + i, records[i]))
  }

  /** Cancelled and completed mandates never change again. */
  lemma {:induction false} InactiveIsFinal(s: State, calls: seq<Call>)
    requires s.mandate.status != Active
    ensures Run(s, calls) == s
    decreases |calls|
  {
    if calls != [] { InactiveIsFinal(s, calls[1..]); }
  }

  function LogOf(s: State, records: seq<Call>): seq<Execution>
    requires StatusMatches(s.mandate) && forall i :: 0 <= i < |records| ==> records[i].Record?
  {
    s.log + Entries(s.mandate.amountPerPeriod, s.mandate.executionCount + 1, records[..Taken(s.mandate, |records|)])
  }

  function StatusOf(m: Mandate, calls: seq<Call>): Status {
    if Exhausts(m, |Records(calls)|) then Completed else if Cancel in calls then Cancelled else Active
  }

  lemma EntriesCons(amount: string, first: nat, call: Call, rest: seq<Call>)
    requires call.Record? && forall i :: 0 <= i < |rest| ==> rest[i].Record?
    ensures Entries(amount, first, [call] + rest) == [Entry(amount, first, call)] + Entries(amount, first + 1, rest)
  {
    var all := Entries(amount, first, [call] + rest);
    forall i | 0 <= i < |all| ensures all[i] == ([Entry(amount, first, call)] + Entries(amount, first + 1, rest))[i] {
      if i > 0 { assert ([call] + rest)[i] == rest[i - 1]; }
    }
  }

  /** A record uses up the first of the records. */
  lemma LogStep(s: State, call: Call, rest: seq<Call>)
    requires Inv(s) && s.mandate.status == Active && call.Record?
    requires forall i :: 0 <= i < |rest| ==> rest[i].Record?
    ensures StatusMatches(Step(s, call).mandate)
    ensures LogOf(s, [call] + rest) == LogOf(Step(s, call), rest)
  {
    var m, next, records := s.mandate, Step(s, call), [call] + rest;
    var k := Taken(next.mandate, |rest|);
    assert Taken(m, |records|) == k + 1;
    assert records[..k + 1] == [call] + rest[..k];
    assert next.log == s.log + [Entry(m.amountPerPeriod, m.executionCount + 1, call)];
    EntriesCons(m.amountPerPeriod, m.executionCount + 1, call, rest[..k]);
  }

  /**
   * The log and status at the end of a run are those read off its calls: the
   * records before the first cancellation, up to the maximum, in order.
   */
  lemma {:induction false} RunReadOff(s: State, calls: seq<Call>)
    requires Inv(s) && s.mandate.status == Active
    ensures Run(s, calls).log == LogOf(s, Records(calls))
    ensures Run(s, calls).mandate.status == StatusOf(s.mandate, calls)
    decreases |calls|
  {
    if calls != [] {
      var next := Step(s, calls[0]);
      assert calls == [calls[0]] + calls[1..];
      StepKeepsInv(s, calls[0]);
      if calls[0].Record? { LogStep(s, calls[0], Records(calls[1..])); }
      if next.mandate.status == Active { RunReadOff(next, calls[1..]); } else { InactiveIsFinal(next, calls[1..]); }
    }
  }

  // ----- How many executions fit in a window

  /** Executions with from <= time <= to. */
  function CountIn(log: seq<Execution>, from: int, to: int): nat {
    if log == [] then 0
    else
      var last := log[|log| - 1];
      CountIn(log[..|log| - 1], from, to) + (if from <= last.executedAt <= to then 1 else 0)
  }

  lemma {:induction false} SpacedPairs(period: int, log: seq<Execution>, i: nat, j: nat)
    requires Spaced(period, log) && period >= 0 && i < j < |log|
    ensures log[i].executedAt + period <= log[j].executedAt
    decreases j
  {
    if i + 1 < j {
      SpacedPairs(period, log, i, j - 1);
      assert log[j - 1].executedAt + period <= log[j - 1 + 1].executedAt;
    } else {
      assert log[i].executedAt + period <= log[i + 1].executedAt;
    }
  }

  lemma SpacedFront(period: int, log: seq<Execution>)
    requires log != [] && Spaced(period, log)
    ensures Spaced(period, log[..|log| - 1])
  {
    assert log == log[..|log| - 1] + [log[|log| - 1]];
    SpacedAppend(period, log[..|log| - 1], log[|log| - 1]);
  }

  lemma OneMore(k: int, period: int)
    ensures (k - 1) * period + period == k * period
  {}

  lemma {:induction false} LatestInWindow(period: int, log: seq<Execution>, from: int, to: int) returns (j: nat)
    requires Spaced(period, log) && period >= 0 && CountIn(log, from, to) >= 1
    ensures j < |log| && log[j].executedAt <= to
    ensures from + (CountIn(log, from, to) - 1) * period <= log[j].executedAt
  {
    var n := |log| - 1;
    var front := log[..n];
    SpacedFront(period, log);
    if !(from <= log[n].executedAt <= to) {
      j := LatestInWindow(period, front, from, to);
    } else {
      j := n;
      var k := CountIn(front, from, to);
      if k >= 1 {
        var i := LatestInWindow(period, front, from, to);
        SpacedPairs(period, log, i, n);
        OneMore(k, period);
      }
    }
  }

  lemma WindowFits(period: int, log: seq<Execution>, from: int, w: nat)
    requires Spaced(period, log) && period >= 0
    ensures CountIn(log, from, from + w) >= 1 ==> (CountIn(log, from, from + w) - 1) * period <= w
  {
    if CountIn(log, from, from + w) >= 1 {
      var j := LatestInWindow(period, log, from, from + w);
    }
  }

  /** In a guarded run of a new mandate, k executions within a window of w ms satisfy (k-1) * period <= w. */
  lemma WindowBound(m: Mandate, calls: seq<Call>, from: int, w: nat)
    requires Inv(State(m, [])) && Guarded(State(m, []), calls)
    ensures var k := CountIn(Run(State(m, []), calls).log, from, from + w);
            k >= 1 ==> (k - 1) * PeriodMs(m) <= w
  {
    RunResult(State(m, []), calls);
    WindowFits(PeriodMs(m), Run(State(m, []), calls).log, from, w);
  }

  /** recordExecution alone enforces no spacing: two records at one instant both succeed. */
  lemma UnguardedNotSpaced(m: Mandate, now: Instant)
    requires Inv(State(m, [])) && m.status == Active && m.maxExecutions != 1
    ensures var end := Run(State(m, []), [Record(None, now), Record(None, now)]);
            |end.log| == 2 && !Spaced(PeriodMs(m), end.log)
  {
    var call := Record(None, now);
    var one := Step(State(m, []), call);
    var two := Step(one, call);
    assert [call, call][1..] == [call] && [call][1..] == [];
    assert Run(State(m, []), [call, call]) == Run(one, [call]) == Run(two, []) == two;
    assert two.log[0].executedAt == two.log[0 + 1].executedAt;
  }

  /** At the last date canExecute alone does not guard either: it holds again at once. */
  lemma LastDateNotSpaced(m: Mandate)
    requires Inv(State(m, [])) && m.status == Active && m.maxExecutions != 1
    ensures var one := Step(State(m, []), Record(None, MAX_DATE));
            && CanExecute(m, MAX_DATE) && CanExecute(one.mandate, MAX_DATE)
            && !Spaced(PeriodMs(m), Step(one, Record(None, MAX_DATE)).log)
  {
    var one := Step(State(m, []), Record(None, MAX_DATE));
    StepKeepsInv(State(m, []), Record(None, MAX_DATE));
    StepSpacedIff(one, Record(None, MAX_DATE));
  }

  // ----- When each call succeeds, and what it returns

  /** A whole number of JavaScript. */
  predicate Whole(x: JsNumber, n: int) { x == Finite(n as real) }

  lemma WholeIs(x: JsNumber)
    ensures IsSafeInteger(x) <==> exists n :: Whole(x, n) && -0x20_0000_0000_0000 < n < 0x20_0000_0000_0000
  {
    if IsSafeInteger(x) { assert Whole(x, x.value.Floor); }
    forall n | Whole(x, n) && -0x20_0000_0000_0000 < n < 0x20_0000_0000_0000 ensures IsSafeInteger(x) {
      assert x.value.Floor == n;
    }
  }

  /**
   * A mandate needs a positive amount, a whole period of an hour to 365 days in
   * seconds, and a whole maximum that is not negative; it holds just these.
   */
  lemma CreateMandateIff(amount: string, period: JsNumber, max: JsNumber)
    ensures CreateMandate(amount, period, max).Success? <==>
            && PositiveAmount(amount)
            && (exists n :: Whole(period, n) && 3600 <= n <= 31_536_000)
            && (exists n :: Whole(max, n) && 0 <= n < 0x20_0000_0000_0000)
    ensures CreateMandate(amount, period, max).Success? ==>
              var m := CreateMandate(amount, period, max).value;
              && m.amountPerPeriod == amount && Whole(period, m.periodSeconds) && Whole(max, m.maxExecutions)
              && m.executionCount == 0 && m.status == Active && m.lastExecutedAt == None
  {
    PositiveDecimalIff(amount);
    WholeIs(period);
    WholeIs(max);
    if CreateMandate(amount, period, max).Success? {
      var m := CreateMandate(amount, period, max).value;
      assert Whole(period, m.periodSeconds) && Whole(max, m.maxExecutions);
    }
  }

  /** Cancelling and recording need an active mandate; what they do not change stays. */
  lemma CallsIff(m: Mandate, txHash: Option<string>, now: Instant)
    ensures CancelMandate(m) == if m.status == Active then Success(m.(status := Cancelled)) else Failure(InvalidStatus)
    ensures RecordExecution(m, txHash, now).Success? <==> m.status == Active
    ensures RecordExecution(m, txHash, now).Success? ==>
              var r := RecordExecution(m, txHash, now).value;
              && r.mandate.amountPerPeriod == m.amountPerPeriod && r.mandate.periodSeconds == m.periodSeconds
              && r.mandate.maxExecutions == m.maxExecutions && r.mandate.executionCount == m.executionCount + 1
              && r.mandate.lastExecutedAt == Some(now)
              && r.execution == Entry(m.amountPerPeriod, m.executionCount + 1, Record(txHash, now))
  {}

  /** The terms of a mandate. */
  predicate SameTerms(m: Mandate, n: Mandate) {
    n.amountPerPeriod == m.amountPerPeriod && n.periodSeconds == m.periodSeconds && n.maxExecutions == m.maxExecutions
  }

  /** Over every run the terms stay those that were agreed. */
  lemma {:induction false} RunKeepsTerms(s: State, calls: seq<Call>)
    ensures SameTerms(s.mandate, Run(s, calls).mandate)
    decreases |calls|
  {
    if calls != [] { RunKeepsTerms(Step(s, calls[0]), calls[1..]); }
  }

  /** After every run of an active mandate, the next execution is one period after the last recorded one. */
  lemma NextIs(s: State, calls: seq<Call>, now: Instant)
    requires Inv(s)
    ensures var end := Run(s, calls);
            GetNextExecutionTime(end.mandate, now) ==
            if end.mandate.status != Active then None
            else if end.log == [] then Some(At(now))
            else Some(NewDate(end.log[|end.log| - 1].executedAt + 1000 * s.mandate.periodSeconds))
  {
    RunResult(s, calls);
    RunKeepsTerms(s, calls);
  }
}
