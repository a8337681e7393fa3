/** Transaction and Merge of internal/core/fields/field_accessor.go, run by many goroutines at once
    on one field. Reading the value, swapping it and counting the version are separate atomic
    steps, and a swap compares values, so it also succeeds after the value went away and came back. */
module FieldTransactions {
  import opened FiniteSets

  type Call = nat

  /** What a call computes from the current value; a Merge also reads another field each time. */
  datatype Op<!T> = Transaction(update: T -> T) | Merge(combine: (T, T) -> T)

  const VERSIONS := 0x1_0000_0000_0000_0000

  function Retries<T>(op: Op<T>): nat { if op.Transaction? then 10 else 100 }

  function Updated<T>(op: Op<T>, current: T, other: T): T {
    match op
    case Transaction(f) => f(current)
    case Merge(f) => f(current, other)
  }

  /** Where a call stands. `lost` counts its failed swaps; `began`, `seen` and `at` are positions in
      the record of successful swaps: when it began, when it last read, and where its own stands. */
  datatype Phase<T> =
    | Ready(lost: nat, began: nat)
    | Loaded(lost: nat, began: nat, seen: nat, current: T, other: T, updated: T)
    | Swapped(updated: T, at: nat)
    | Returned(result: T, at: nat)
    | Exhausted(began: nat)
    | GaveUp(result: T, began: nat)

  /** A successful swap, with what the call had read of the other field. */
  datatype Entry<T> = Entry(call: Call, other: T)

  datatype Field<T> = Field(value: T, version: nat, calls: map<Call, Phase<T>>, log: seq<Entry<T>>)

  function Initial<T>(v: T): Field<T> { Field(v, 1, map[], []) }

  datatype Step<T> = Begin(call: Call) | Read(call: Call, other: T) | Swap(call: Call) | Count(call: Call) | Leave(call: Call)

  predicate Enabled<T>(ops: seq<Op<T>>, f: Field<T>, step: Step<T>) {
    match step
    case Begin(c) => c < |ops| && c !in f.calls
    case Read(c, _) => c < |ops| && c in f.calls && f.calls[c].Ready?
    case Swap(c) => c < |ops| && c in f.calls && f.calls[c].Loaded?
    case Count(c) => c in f.calls && f.calls[c].Swapped?
    case Leave(c) => c in f.calls && f.calls[c].Exhausted?
  }

  function Apply<T(==)>(ops: seq<Op<T>>, f: Field<T>, step: Step<T>): Field<T>
    requires Enabled(ops, f, step)
  {
    match step
    case Begin(c) => f.(calls := f.calls[c := Ready(0, |f.log|)])
    case Read(c, other) =>
      var p := f.calls[c];
      f.(calls := f.calls[c := Loaded(p.lost, p.began, |f.log|, f.value, other, Updated(ops[c], f.value, other))])
    case Swap(c) =>
      var p := f.calls[c];
      if f.value == p.current then
        f.(value := p.updated, log := f.log + [Entry(c, p.other)], calls := f.calls[c := Swapped(p.updated, |f.log|)])
      else if p.lost + 1 < Retries(ops[c]) then
        f.(calls := f.calls[c := Ready(p.lost + 1, p.began)])
      else
        f.(calls := f.calls[c := Exhausted(p.began)])
    case Count(c) =>
      var p := f.calls[c];
      f.(version := (f.version + 1) % VERSIONS, calls := f.calls[c := Returned(p.updated, p.at)])
    case Leave(c) => f.(calls := f.calls[c := GaveUp(f.value, f.calls[c].began)])
  }

  /** The recorded updates, applied one after the other. */
  function Replay<T>(ops: seq<Op<T>>, initial: T, log: seq<Entry<T>>): T
    requires forall k :: 0 <= k < |log| ==> log[k].call < |ops|
  {
    if log == [] then initial
    else
      var e, before := log[|log|-1], Replay(ops, initial, log[..|log|-1]);
      match ops[e.call]
      case Transaction(update) => update(before)
      case Merge(combine) => combine(before, e.other)
  }

  // ---------- The invariant ----------

  ghost predicate Recorded<T>(ops: seq<Op<T>>, initial: T, f: Field<T>) {
    && (forall k :: 0 <= k < |f.log| ==> f.log[k].call < |ops|)
    && (forall k :: 0 <= k < |f.log| ==> Owns(f, f.log[k].call, k))
    && f.value == Replay(ops, initial, f.log)
  }

  /** The call's successful swap is the one at position `k`. */
  predicate Owns<T>(f: Field<T>, c: Call, k: nat) {
    c in f.calls && (f.calls[c].Swapped? || f.calls[c].Returned?) && f.calls[c].at == k
  }

  ghost predicate PhaseHolds<T>(ops: seq<Op<T>>, initial: T, f: Field<T>, c: Call)
    requires Recorded(ops, initial, f) && c < |ops|
    requires c in f.calls
  {
    match f.calls[c]
    case Ready(lost, began) => lost < Retries(ops[c]) && began + lost <= |f.log|
    case Loaded(lost, began, seen, current, other, updated) =>
      && lost < Retries(ops[c]) && began + lost <= seen <= |f.log|
      && updated == Updated(ops[c], current, other)
      && (|f.log| == seen ==> f.value == current)
    case Swapped(updated, at) =>
      at < |f.log| && f.log[at].call == c && updated == Replay(ops, initial, f.log[..at+1])
    case Returned(result, at) =>
      at < |f.log| && f.log[at].call == c && result == Replay(ops, initial, f.log[..at+1])
    case Exhausted(began) => began + Retries(ops[c]) <= |f.log|
    case GaveUp(_, began) => began + Retries(ops[c]) <= |f.log|
  }

  ghost predicate Inv<T>(ops: seq<Op<T>>, initial: T, f: Field<T>) {
    && (forall c :: c in f.calls ==> c < |ops|)
    && Recorded(ops, initial, f)
    && (forall c :: c in f.calls ==> PhaseHolds(ops, initial, f, c))
    && f.version == (1 + |Counted(f)|) % VERSIONS
  }

  function Counted<T>(f: Field<T>): set<Call> { set c | c in f.calls && f.calls[c].Returned? }

  lemma CountedMoves<T>(f: Field<T>, g: Field<T>, c: Call)
    requires c in g.calls && g.calls == f.calls[c := g.calls[c]]
    requires c in f.calls ==> !f.calls[c].Returned?
    ensures |Counted(g)| == |Counted(f)| + if g.calls[c].Returned? then 1 else 0
  {
    assert Counted(g) == if g.calls[c].Returned? then Counted(f) + {c} else Counted(f);
  }

  lemma CountsOneMore(n: nat)
    ensures ((1 + n) % VERSIONS + 1) % VERSIONS == (1 + (n + 1)) % VERSIONS
  {
  }

  lemma RecordKept<T>(ops: seq<Op<T>>, initial: T, f: Field<T>, step: Step<T>)
    requires Recorded(ops, initial, f) && Enabled(ops, f, step)
    requires step.call in f.calls ==> step.call < |ops| && PhaseHolds(ops, initial, f, step.call)
    ensures Recorded(ops, initial, Apply(ops, f, step))
  {
    hide Replay;
    var c, g := step.call, Apply(ops, f, step);
    if g.log != f.log { SwapReplays(ops, initial, f, c); }
    forall k | 0 <= k < |g.log| ensures Owns(g, g.log[k].call, k) {
      if k < |f.log| { assert g.log[k] == f.log[k] && Owns(f, f.log[k].call, k); }
    }
  }

  lemma SwapReplays<T>(ops: seq<Op<T>>, initial: T, f: Field<T>, c: Call)
    requires Recorded(ops, initial, f) && c < |ops| && c in f.calls && f.calls[c].Loaded?
    requires f.value == f.calls[c].current && PhaseHolds(ops, initial, f, c)
    ensures Replay(ops, initial, f.log + [Entry(c, f.calls[c].other)]) == f.calls[c].updated
  {
    assert (f.log + [Entry(c, f.calls[c].other)])[..|f.log|] == f.log;
  }

  lemma OwnPhaseKept<T>(ops: seq<Op<T>>, initial: T, f: Field<T>, step: Step<T>)
    requires Recorded(ops, initial, f) && Enabled(ops, f, step)
    requires step.call < |ops| && (step.call in f.calls ==> PhaseHolds(ops, initial, f, step.call))
    requires Recorded(ops, initial, Apply(ops, f, step))
    ensures PhaseHolds(ops, initial, Apply(ops, f, step), step.call)
  {
    hide Replay, Updated;
    var g := Apply(ops, f, step);
    if g.log != f.log { assert g.log[..|f.log|+1] == g.log; }
  }

  lemma StepKeepsInv<T>(ops: seq<Op<T>>, initial: T, f: Field<T>, step: Step<T>)
    requires Inv(ops, initial, f) && Enabled(ops, f, step)
    ensures Inv(ops, initial, Apply(ops, f, step))
  {
    hide Recorded, PhaseHolds, Replay, Counted;
    var c, g := step.call, Apply(ops, f, step);
    CountedMoves(f, g, c);
    CountsOneMore(|Counted(f)|);
    RecordKept(ops, initial, f, step);
    OwnPhaseKept(ops, initial, f, step);
    forall d | d in g.calls ensures PhaseHolds(ops, initial, g, d) {
      if d != c { PhaseStays(ops, initial, f, g, d); }
    }
  }

  lemma PhaseStays<T>(ops: seq<Op<T>>, initial: T, f: Field<T>, g: Field<T>, d: Call)
    requires Recorded(ops, initial, f) && Recorded(ops, initial, g) && d < |ops|
    requires d in f.calls && d in g.calls && g.calls[d] == f.calls[d] && PhaseHolds(ops, initial, f, d)
    requires f.log <= g.log && (g.log == f.log ==> g.value == f.value)
    ensures PhaseHolds(ops, initial, g, d)
  {
    var p := f.calls[d];
    if p.Swapped? || p.Returned? { assert g.log[..p.at+1] == f.log[..p.at+1]; }
  }

  // ---------- Every run ----------

  ghost predicate Follows<T(!new)>(ops: seq<Op<T>>, f: Field<T>, g: Field<T>) {
    exists step :: Enabled(ops, f, step) && g == Apply(ops, f, step)
  }

  ghost predicate Run<T(!new)>(ops: seq<Op<T>>, initial: T, run: seq<Field<T>>) {
    && |run| > 0 && run[0] == Initial(initial)
    && forall i, j :: 0 <= i < j < |run| && j <= i + 1 ==> Follows(ops, run[i], run[j])
  }

  ghost predicate Reachable<T(!new)>(ops: seq<Op<T>>, initial: T, f: Field<T>) {
    exists run :: Run(ops, initial, run) && run[|run|-1] == f
  }

  lemma {:induction false} RunKeepsInv<T(!new)>(ops: seq<Op<T>>, initial: T, run: seq<Field<T>>, i: nat)
    requires Run(ops, initial, run) && i < |run|
    ensures Inv(ops, initial, run[i])
  {
    if i == 0 {
      assert Counted(run[0]) == {};
    } else {
      RunKeepsInv(ops, initial, run, i - 1);
      assert Follows(ops, run[i-1], run[i]);
      var step :| Enabled(ops, run[i-1], step) && run[i] == Apply(ops, run[i-1], step);
      StepKeepsInv(ops, initial, run[i-1], step);
    }
  }

  lemma ReachableInv<T(!new)>(ops: seq<Op<T>>, initial: T, f: Field<T>)
    requires Reachable(ops, initial, f)
    ensures Inv(ops, initial, f)
  {
    var run :| Run(ops, initial, run) && run[|run|-1] == f;
    RunKeepsInv(ops, initial, run, |run| - 1);
  }

  /** In every interleaving the value is the initial one with exactly the successful updates applied,
      in the order of their swaps; each call is among them at most once, a call that returns its
      update is among them and returns what its update made, and one that gave up is not. */
  lemma ValueIsReplay<T(!new)>(ops: seq<Op<T>>, initial: T, f: Field<T>)
    requires Reachable(ops, initial, f)
    ensures forall k :: 0 <= k < |f.log| ==> f.log[k].call < |ops|
    ensures f.value == Replay(ops, initial, f.log)
    ensures forall k, l :: 0 <= k < l < |f.log| ==> f.log[k].call != f.log[l].call
    ensures forall c :: c in f.calls && f.calls[c].Returned? ==>
      var at := f.calls[c].at;
      at < |f.log| && f.log[at].call == c && f.calls[c].result == Replay(ops, initial, f.log[..at+1])
    ensures forall c :: c in f.calls && f.calls[c].GaveUp? ==> forall k :: 0 <= k < |f.log| ==> f.log[k].call != c
  {
    hide Replay, Updated, PhaseHolds, Owns;
    ReachableInv(ops, initial, f);
    NoneTwice(ops, initial, f);
    forall c | c in f.calls && f.calls[c].Returned?
      ensures var at := f.calls[c].at;
              at < |f.log| && f.log[at].call == c && f.calls[c].result == Replay(ops, initial, f.log[..at+1])
    {
      ReturnedHolds(ops, initial, f, c);
    }
    forall c, k | c in f.calls && f.calls[c].GaveUp? && 0 <= k < |f.log| ensures f.log[k].call != c {
      OwnerIsSuccess(f, k);
    }
  }

  lemma ReturnedHolds<T>(ops: seq<Op<T>>, initial: T, f: Field<T>, c: Call)
    requires Recorded(ops, initial, f) && c < |ops| && c in f.calls && f.calls[c].Returned?
    requires PhaseHolds(ops, initial, f, c)
    ensures var at := f.calls[c].at;
            at < |f.log| && f.log[at].call == c && f.calls[c].result == Replay(ops, initial, f.log[..at+1])
  {
  }

  lemma OwnerIsSuccess<T>(f: Field<T>, k: nat)
    requires k < |f.log| && Owns(f, f.log[k].call, k)
    ensures f.log[k].call in f.calls && !f.calls[f.log[k].call].GaveUp?
  {
  }

  lemma NoneTwice<T>(ops: seq<Op<T>>, initial: T, f: Field<T>)
    requires Recorded(ops, initial, f)
    ensures forall k, l :: 0 <= k < l < |f.log| ==> f.log[k].call != f.log[l].call
  {
    hide Replay;
    forall k, l | 0 <= k < l < |f.log| ensures f.log[k].call != f.log[l].call {
      assert Owns(f, f.log[k].call, k) && Owns(f, f.log[l].call, l);
    }
  }

  /** The version counts the calls that returned their update; once no swap is waiting to be counted,
      that is the whole record. */
  lemma VersionCountsSuccesses<T(!new)>(ops: seq<Op<T>>, initial: T, f: Field<T>)
    requires Reachable(ops, initial, f)
    ensures f.version == (1 + |Counted(f)|) % 0x1_0000_0000_0000_0000
    ensures (forall c :: c in f.calls ==> !f.calls[c].Swapped?) ==> f.version == (1 + |f.log|) % 0x1_0000_0000_0000_0000
  {
    ReachableInv(ops, initial, f);
    if forall c :: c in f.calls ==> !f.calls[c].Swapped? {
      NoneTwice(ops, initial, f);
      forall k | 0 <= k < |f.log| ensures f.log[k].call in Counted(f) { assert Owns(f, f.log[k].call, k); }
      CallersSize(f.log, 0);
      forall c | c in Counted(f) ensures c in Callers(f.log, 0) {
        assert PhaseHolds(ops, initial, f, c);
      }
      assert Callers(f.log, 0) == Counted(f);
    }
  }

  function Callers<T>(log: seq<Entry<T>>, from: nat): set<Call> { set k | from <= k < |log| :: log[k].call }

  lemma {:induction false} CallersSize<T>(log: seq<Entry<T>>, from: nat)
    requires from <= |log| && forall k, l :: 0 <= k < l < |log| ==> log[k].call != log[l].call
    ensures |Callers(log, from)| == |log| - from
    decreases |log| - from
  {
    if from < |log| {
      CallersSize(log, from + 1);
      assert Callers(log, from) == Callers(log, from + 1) + {log[from].call};
    }
  }

  /** A call that gives up lost to at least as many other calls as it has retries, each of which
      swapped in its own update after this one began. */
  lemma GivingUpNeedsRivals<T(!new)>(ops: seq<Op<T>>, initial: T, f: Field<T>, c: Call)
    requires Reachable(ops, initial, f) && c in f.calls && f.calls[c].GaveUp?
    ensures c < |ops|
    ensures var rivals := Callers(f.log, f.calls[c].began);
            c !in rivals && |rivals| >= (if ops[c].Transaction? then 10 else 100) && forall r :: r in rivals ==> r < |ops|
  {
    ReachableInv(ops, initial, f);
    assert PhaseHolds(ops, initial, f, c);
    ValueIsReplay(ops, initial, f);
    CallersSize(f.log, f.calls[c].began);
  }

  /** How many steps of its own a call still has before it, at most. */
  function StepsLeft<T>(op: Op<T>, phase: Phase<T>): int {
    var retries := if op.Transaction? then 10 else 100;
    match phase
    case Ready(lost, _) => 2 * (retries - lost) + 3
    case Loaded(lost, _, _, _, _, _) => 2 * (retries - lost) + 2
    case Swapped(_, _) => 1
    case Exhausted(_) => 1
    case Returned(_, _) => 0
    case GaveUp(_, _) => 0
  }

  /** A call that has not returned can always go on, and every step of its own brings it nearer to
      returning, whatever the others do. */
  lemma CallsEnd<T(!new)>(ops: seq<Op<T>>, initial: T, f: Field<T>, c: Call, other: T) returns (step: Step<T>)
    requires Reachable(ops, initial, f) && c in f.calls && !f.calls[c].Returned? && !f.calls[c].GaveUp?
    ensures c < |ops| && Enabled(ops, f, step) && step.call == c && c in Apply(ops, f, step).calls
    ensures 0 <= StepsLeft(ops[c], Apply(ops, f, step).calls[c]) < StepsLeft(ops[c], f.calls[c])
  {
    ReachableInv(ops, initial, f);
    assert PhaseHolds(ops, initial, f, c);
    match f.calls[c]
    case Ready(_, _) => step := Read(c, other);
    case Loaded(_, _, _, _, _, _) => step := Swap(c);
    case Swapped(_, _) => step := Count(c);
    case Exhausted(_) => step := Leave(c);
  }

  /** A call that gave up returned the value the field held when it looked for the last time. */
  lemma {:induction false} GivingUpReturnsValue<T(!new)>(ops: seq<Op<T>>, initial: T, run: seq<Field<T>>, i: nat, c: Call) returns (k: nat)
    requires Run(ops, initial, run) && i < |run| && c in run[i].calls && run[i].calls[c].GaveUp?
    ensures k < i && run[i].calls[c].result == run[k].value && c in run[k].calls && run[k].calls[c].Exhausted?
    ensures run[k+1].value == run[k].value && run[k+1].log == run[k].log && run[k+1].version == run[k].version
    decreases i
  {
    if i == 0 {
      assert false;
    } else {
      assert Follows(ops, run[i-1], run[i]);
      var step :| Enabled(ops, run[i-1], step) && run[i] == Apply(ops, run[i-1], step);
      if step == Leave(c) { k := i - 1; }
      else {
        GaveUpStays(ops, run[i-1], step, c);
        k := GivingUpReturnsValue(ops, initial, run, i - 1, c);
      }
    }
  }

  lemma GaveUpStays<T>(ops: seq<Op<T>>, f: Field<T>, step: Step<T>, c: Call)
    requires Enabled(ops, f, step) && step != Leave(c) && c in Apply(ops, f, step).calls && Apply(ops, f, step).calls[c].GaveUp?
    ensures c in f.calls && f.calls[c] == Apply(ops, f, step).calls[c]
  {
  }

  /** As long as no more than ten calls are made in all, every one succeeds. */
  lemma TenAlwaysSucceed<T(!new)>(ops: seq<Op<T>>, initial: T, f: Field<T>)
    requires |ops| <= 10 && Reachable(ops, initial, f)
    ensures forall c :: c in f.calls ==> !f.calls[c].GaveUp?
  {
    forall c | c in f.calls ensures !f.calls[c].GaveUp? {
      if f.calls[c].GaveUp? {
        GivingUpNeedsRivals(ops, initial, f, c);
        var rivals := Callers(f.log, f.calls[c].began);
        SubsetSize(rivals, Upto(|ops|) - {c});
        assert false;
      }
    }
  }

  // ---------- Eleven may not ----------

  lemma Extends<T(!new)>(ops: seq<Op<T>>, initial: T, f: Field<T>, step: Step<T>)
    requires Reachable(ops, initial, f) && Enabled(ops, f, step)
    ensures Reachable(ops, initial, Apply(ops, f, step))
  {
    var run :| Run(ops, initial, run) && run[|run|-1] == f;
    var g := Apply(ops, f, step);
    assert Follows(ops, f, g);
    var run' := run + [g];
    assert Run(ops, initial, run') && run'[|run'|-1] == g;
  }

  const INCREMENT: Op<int> := Transaction((x: int) => x + 1)

  const KEEP: Op<int> := Merge((x: int, other: int) => x)

  /** Call 0 is a transaction, or a merge, and all others are increments. */
  ghost predicate Contest(ops: seq<Op<int>>) {
    |ops| > 0 && ops[0] in [INCREMENT, KEEP] && forall i :: 1 <= i < |ops| ==> ops[i] == INCREMENT
  }

  /** Call 0 is overtaken once more by a call that begins, updates and returns between its read and its swap. */
  lemma Overtaken(ops: seq<Op<int>>, f: Field<int>, k: nat) returns (g: Field<int>)
    requires Contest(ops) && k < Retries(ops[0]) && k + 1 < |ops|
    requires Reachable(ops, 0, f) && 0 in f.calls && f.calls[0] == Ready(k, 0)
    requires forall c :: c in f.calls ==> c <= k
    ensures Reachable(ops, 0, g) && 0 in g.calls
    ensures g.calls[0] == if k + 1 < Retries(ops[0]) then Ready(k + 1, 0) else Exhausted(0)
    ensures forall c :: c in g.calls ==> c <= k + 1
  {
    hide Reachable;
    var r := k + 1;
    g := f;
    Extends(ops, 0, g, Read(0, 0));
    g := Apply(ops, g, Read(0, 0));
    Extends(ops, 0, g, Begin(r));
    g := Apply(ops, g, Begin(r));
    Extends(ops, 0, g, Read(r, 0));
    g := Apply(ops, g, Read(r, 0));
    assert g.calls[r].updated == f.value + 1;
    Extends(ops, 0, g, Swap(r));
    g := Apply(ops, g, Swap(r));
    Extends(ops, 0, g, Count(r));
    g := Apply(ops, g, Count(r));
    Extends(ops, 0, g, Swap(0));
    g := Apply(ops, g, Swap(0));
  }

  lemma {:induction false} OvertakenOften(ops: seq<Op<int>>, k: nat) returns (f: Field<int>)
    requires Contest(ops) && k < Retries(ops[0]) && k < |ops|
    ensures Reachable(ops, 0, f) && 0 in f.calls && f.calls[0] == Ready(k, 0)
    ensures forall c :: c in f.calls ==> c <= k
  {
    if k == 0 {
      f := Initial(0);
      assert Run(ops, 0, [f]);
      Extends(ops, 0, f, Begin(0));
      f := Apply(ops, f, Begin(0));
    } else {
      f := OvertakenOften(ops, k - 1);
      f := Overtaken(ops, f, k - 1);
    }
  }

  lemma LosesOut(ops: seq<Op<int>>) returns (f: Field<int>)
    requires Contest(ops) && Retries(ops[0]) < |ops|
    ensures Reachable(ops, 0, f) && 0 in f.calls && f.calls[0].GaveUp?
  {
    hide Reachable;
    f := OvertakenOften(ops, Retries(ops[0]) - 1);
    f := Overtaken(ops, f, Retries(ops[0]) - 1);
    Extends(ops, 0, f, Leave(0));
    f := Apply(ops, f, Leave(0));
  }

  /** With eleven increments or more, one of them may be given up. */
  lemma ElevenMayGiveUp(n: nat) returns (ops: seq<Op<int>>, f: Field<int>)
    requires n >= 11
    ensures |ops| == n && forall i :: 0 <= i < n ==> ops[i] == INCREMENT
    ensures Reachable(ops, 0, f) && 0 in f.calls && f.calls[0].GaveUp?
  {
    ops := seq(n, i => INCREMENT);
    f := LosesOut(ops);
  }

  /** A merge among a hundred increments or more may be given up. */
  lemma MergeMayGiveUp(n: nat) returns (ops: seq<Op<int>>, f: Field<int>)
    requires n >= 101
    ensures |ops| == n && ops[0] == KEEP && forall i :: 1 <= i < n ==> ops[i] == INCREMENT
    ensures Reachable(ops, 0, f) && 0 in f.calls && f.calls[0].GaveUp?
  {
    ops := seq(n, i => if i == 0 then KEEP else INCREMENT);
    f := LosesOut(ops);
  }
}
