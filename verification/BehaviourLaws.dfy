/** Laws that hold of every behaviour tree, blackboard and clock. */
module BehaviourLaws {
  import opened BehaviourTrees
  import opened Options

  lemma LimitedSplits(xs: seq<Tree>, ys: seq<Tree>)
    ensures AllLimited(xs + ys) <==> AllLimited(xs) && AllLimited(ys)
  {
    if AllLimited(xs + ys) {
      assert forall i :: 0 <= i < |xs| ==> xs[i] == (xs + ys)[i];
      assert forall i :: 0 <= i < |ys| ==> ys[i] == (xs + ys)[|xs| + i];
    }
  }

  // ---------- Flattening ----------

  /** A sequence over two lists goes on to the second exactly when the first succeeds without error. */
  lemma {:induction false} SequenceAppends(clock: Clock, xs: seq<Tree>, ys: seq<Tree>, env: Env)
    requires AllLimited(xs) && AllLimited(ys) && AllLimited(xs + ys)
    ensures var o := TickSequence(clock, xs, env);
            TickSequence(clock, xs + ys, env)
              == if o.st == Success && o.err.None? then TickSequence(clock, ys, o.env) else o
    decreases xs
  {
    if xs == [] {
      assert xs + ys == ys;
    } else {
      assert (xs + ys)[1..] == xs[1..] + ys;
      SequenceAppends(clock, xs[1..], ys, Tick(clock, xs[0], env).env);
    }
  }

  /** A Sequence that reports an error has failed. */
  lemma {:induction false} SequenceErrors(clock: Clock, xs: seq<Tree>, env: Env)
    requires AllLimited(xs)
    ensures var o := TickSequence(clock, xs, env); o.err.Some? ==> o.st == Failure
    decreases xs
  {
    if xs != [] {
      SequenceErrors(clock, xs[1..], Tick(clock, xs[0], env).env);
    }
  }

  /** A nested Sequence may be replaced by its children. */
  lemma SequenceFlattens(clock: Clock, xs: seq<Tree>, ys: seq<Tree>, zs: seq<Tree>, env: Env)
    requires AllLimited(xs) && AllLimited(ys) && AllLimited(zs)
    ensures Limited(Sequence(xs + [Sequence(ys)] + zs)) && Limited(Sequence(xs + ys + zs))
    ensures Tick(clock, Sequence(xs + [Sequence(ys)] + zs), env) == Tick(clock, Sequence(xs + ys + zs), env)
  {
    var nested := [Sequence(ys)] + zs;
    LimitedSplits(ys, zs);
    LimitedSplits(xs, ys + zs);
    LimitedSplits(xs, nested);
    assert xs + [Sequence(ys)] + zs == xs + nested && xs + ys + zs == xs + (ys + zs);
    SequenceAppends(clock, xs, nested, env);
    SequenceAppends(clock, xs, ys + zs, env);
    var env' := TickSequence(clock, xs, env).env;
    SequenceAppends(clock, ys, zs, env');
    assert nested[0] == Sequence(ys) && nested[1..] == zs;
    assert Tick(clock, Sequence(ys), env') == TickSequence(clock, ys, env');
    SequenceErrors(clock, ys, env');
  }

  lemma {:induction false} SelectorAppends(clock: Clock, xs: seq<Tree>, ys: seq<Tree>, env: Env, lastErr: Option<Error>)
    requires AllLimited(xs) && AllLimited(ys) && AllLimited(xs + ys)
    ensures var o := TickSelector(clock, xs, env, lastErr);
            TickSelector(clock, xs + ys, env, lastErr)
              == if o.st == Failure then TickSelector(clock, ys, o.env, o.err) else o
    decreases xs
  {
    if xs == [] {
      assert xs + ys == ys;
    } else {
      assert (xs + ys)[1..] == xs[1..] + ys;
      var o := Tick(clock, xs[0], env);
      SelectorAppends(clock, xs[1..], ys, o.env, if o.err.Some? then o.err else lastErr);
    }
  }

  /** The error a Selector remembers from before matters only if its own children report none. */
  lemma {:induction false} SelectorRemembers(clock: Clock, xs: seq<Tree>, env: Env, lastErr: Option<Error>)
    requires AllLimited(xs)
    ensures var o := TickSelector(clock, xs, env, None);
            TickSelector(clock, xs, env, lastErr)
              == if o.st == Failure && o.err.None? then o.(err := lastErr) else o
    decreases xs
  {
    if xs != [] {
      var o := Tick(clock, xs[0], env);
      SelectorRemembers(clock, xs[1..], o.env, lastErr);
      SelectorRemembers(clock, xs[1..], o.env, o.err);
    }
  }

  /** A nested Selector may be replaced by its children, errors included. */
  lemma SelectorFlattens(clock: Clock, xs: seq<Tree>, ys: seq<Tree>, zs: seq<Tree>, env: Env)
    requires AllLimited(xs) && AllLimited(ys) && AllLimited(zs)
    ensures Limited(Selector(xs + [Selector(ys)] + zs)) && Limited(Selector(xs + ys + zs))
    ensures Tick(clock, Selector(xs + [Selector(ys)] + zs), env) == Tick(clock, Selector(xs + ys + zs), env)
  {
    var nested := [Selector(ys)] + zs;
    LimitedSplits(ys, zs);
    LimitedSplits(xs, ys + zs);
    LimitedSplits(xs, nested);
    assert xs + [Selector(ys)] + zs == xs + nested && xs + ys + zs == xs + (ys + zs);
    SelectorAppends(clock, xs, nested, env, None);
    SelectorAppends(clock, xs, ys + zs, env, None);
    var o := TickSelector(clock, xs, env, None);
    SelectorAppends(clock, ys, zs, o.env, o.err);
    SelectorRemembers(clock, ys, o.env, o.err);
    assert nested[0] == Selector(ys) && nested[1..] == zs;
    assert Tick(clock, Selector(ys), o.env) == TickSelector(clock, ys, o.env, None);
  }

  // ---------- Inverting ----------

  function Inverted(cs: seq<Tree>): (vs: seq<Tree>)
    ensures |vs| == |cs| && forall i :: 0 <= i < |vs| ==> vs[i] == Inverter(Some(cs[i]))
  {
    seq(|cs|, i requires 0 <= i < |cs| => Inverter(Some(cs[i])))
  }

  /** Equal in what a tick shows: status, error and blackboard. */
  ghost predicate SameResult(a: Out, b: Out) {
    a.st == b.st && a.err == b.err && a.env.board == b.env.board
  }

  /** The children fail until one succeeds, reporting exactly `err` and leaving exactly `board`. */
  ghost predicate Recovers(clock: Clock, cs: seq<Tree>, env: Env, err: Option<Error>, board: Board)
    requires AllLimited(cs)
  {
    cs != [] &&
      var o := Tick(clock, cs[0], env);
      match o.st
      case Success => o.err == err && o.env.board == board
      case Running => false
      case Failure => Recovers(clock, cs[1..], o.env, err, board)
  }

  /** What has to be true of the first child that reports an error, among those a Selector over
      `cs` ticks, for inversion to commute with it: it succeeded, or it failed and the children
      after it recover with the same error and the blackboard it left. */
  ghost predicate Commutes(clock: Clock, cs: seq<Tree>, env: Env)
    requires AllLimited(cs)
  {
    cs != [] ==>
      var o := Tick(clock, cs[0], env);
      match o.st
      case Success => true
      case Running => o.err.None?
      case Failure =>
        if o.err.None? then Commutes(clock, cs[1..], o.env)
        else Recovers(clock, cs[1..], o.env, o.err, o.env.board)
  }

  lemma {:induction false} RecoversIff(clock: Clock, cs: seq<Tree>, env: Env, lastErr: Option<Error>, err: Option<Error>, board: Board)
    requires AllLimited(cs)
    ensures var o := TickSelector(clock, cs, env, lastErr);
            Recovers(clock, cs, env, err, board) <==> o.st == Success && o.err == err && o.env.board == board
    decreases cs
  {
    if cs != [] {
      var o := Tick(clock, cs[0], env);
      RecoversIff(clock, cs[1..], o.env, if o.err.Some? then o.err else lastErr, err, board);
    }
  }

  lemma InvertedSelectorIs(clock: Clock, cs: seq<Tree>, env: Env)
    requires AllLimited(cs)
    ensures var o := TickSelector(clock, cs, env, None);
            Tick(clock, Inverter(Some(Selector(cs))), env) == o.(st := Invert(o.st))
  {
    assert Tick(clock, Selector(cs), env) == TickSelector(clock, cs, env, None);
  }

  lemma InvertedStep(clock: Clock, cs: seq<Tree>, env: Env)
    requires AllLimited(cs) && cs != []
    ensures AllLimited(Inverted(cs)) && Inverted(cs)[1..] == Inverted(cs[1..])
    ensures var o := Tick(clock, cs[0], env);
            TickSequence(clock, Inverted(cs), env)
              == if o.err.Some? then Out(Failure, o.err, o.env)
                 else if o.st == Failure then TickSequence(clock, Inverted(cs[1..]), o.env)
                 else o.(st := Invert(o.st))
  {
    var o := Tick(clock, cs[0], env);
    assert Inverted(cs)[1..] == Inverted(cs[1..]);
    assert Inverted(cs)[0] == Inverter(Some(cs[0])) && Limited(Inverted(cs)[0]);
    assert Tick(clock, Inverter(Some(cs[0])), env) == o.(st := Invert(o.st));
  }

  /** Inverting a Selector has the status, error and blackboard of a Sequence of its inverted
      children exactly when the errors its children report allow it. */
  lemma {:induction false} InvertedSelectorIff(clock: Clock, cs: seq<Tree>, env: Env)
    requires AllLimited(cs)
    ensures Limited(Sequence(Inverted(cs)))
    ensures SameResult(Tick(clock, Inverter(Some(Selector(cs))), env), Tick(clock, Sequence(Inverted(cs)), env))
            <==> Commutes(clock, cs, env)
    decreases cs
  {
    InvertedSelectorIs(clock, cs, env);
    if cs != [] {
      var o := Tick(clock, cs[0], env);
      InvertedStep(clock, cs, env);
      InvertedSelectorIs(clock, cs[1..], o.env);
      InvertedSelectorIff(clock, cs[1..], o.env);
      RecoversIff(clock, cs[1..], o.env, o.err, o.err, o.env.board);
    }
  }

  /** No child that a Selector over `cs` ticks reports an error. */
  ghost predicate ErrorFree(clock: Clock, cs: seq<Tree>, env: Env)
    requires AllLimited(cs)
  {
    cs != [] ==>
      var o := Tick(clock, cs[0], env);
      o.err.None? && (o.st == Failure ==> ErrorFree(clock, cs[1..], o.env))
  }

  lemma {:induction false} ErrorFreeCommutes(clock: Clock, cs: seq<Tree>, env: Env)
    requires AllLimited(cs) && ErrorFree(clock, cs, env)
    ensures Commutes(clock, cs, env)
    decreases cs
  {
    if cs != [] && Tick(clock, cs[0], env).st == Failure {
      ErrorFreeCommutes(clock, cs[1..], Tick(clock, cs[0], env).env);
    }
  }

  const FAULTY: Tree := Leaf((b, now) => LeafOut(Failure, Some(Reported(1)), b, 0))

  const LATE: Tree := Leaf((b, now) => LeafOut(Success, Some(Reported(1)), b, 1))

  /** Two children with the same error, one failing and one succeeding: how often they read the clock
      does not matter. */
  lemma ErrorsMayCommute(clock: Clock, env: Env)
    ensures Commutes(clock, [FAULTY, LATE], env)
  {
    assert [FAULTY, LATE][1..] == [LATE];
  }

  /** A child that fails with an error: the inverted Selector succeeds, the Sequence fails. */
  lemma ErrorsBreakInversion(clock: Clock, env: Env)
    ensures Limited(Inverter(Some(Selector([FAULTY])))) && Limited(Sequence(Inverted([FAULTY])))
    ensures Tick(clock, Inverter(Some(Selector([FAULTY]))), env).st == Success
    ensures Tick(clock, Sequence(Inverted([FAULTY])), env).st == Failure
  {
    InvertedSelectorIs(clock, [FAULTY], env);
    InvertedStep(clock, [FAULTY], env);
    assert [FAULTY][1..] == [];
  }

  // ---------- Priority and Selector ----------

  /** Priority does what Selector does, except that it reports every error instead of the last one. */
  lemma {:induction false} PriorityIsSelector(clock: Clock, cs: seq<Tree>, env: Env, allErr: Option<Error>, lastErr: Option<Error>)
    requires AllLimited(cs) && (allErr.Some? <==> lastErr.Some?)
    ensures var p, s := TickPriority(clock, cs, env, allErr), TickSelector(clock, cs, env, lastErr);
            && p.st == s.st && p.env == s.env
            && (s.err.Some? ==> p.err.Some?)
            && (s.st == Failure ==> (s.err.Some? <==> p.err.Some?))
    decreases cs
  {
    if cs != [] {
      var o := Tick(clock, cs[0], env);
      PriorityIsSelector(clock, cs[1..], o.env, JoinError(allErr, o.err), if o.err.Some? then o.err else lastErr);
    }
  }

  // ---------- Loops and copies ----------

  function Copies(t: Tree, n: nat): (cs: seq<Tree>)
    ensures |cs| == n && forall i :: 0 <= i < n ==> cs[i] == t
  {
    seq(n, _ => t)
  }

  lemma CopiesOnce(t: Tree, n: nat)
    requires n > 0
    ensures Copies(t, n)[0] == t && Copies(t, n)[1..] == Copies(t, n - 1)
  {
  }

  /** Repeating a child until it fails is a Sequence of as many copies of it. */
  lemma {:induction false} RepeatIsSequence(clock: Clock, t: Tree, n: nat, env: Env)
    requires Limited(t)
    ensures Limited(Sequence(Copies(t, n)))
    ensures Tick(clock, Repeat(n, true, Some(t)), env) == Tick(clock, Sequence(Copies(t, n)), env)
  {
    RepeatStep(clock, t, n, env);
    if n > 0 {
      CopiesOnce(t, n);
      RepeatIsSequence(clock, t, n - 1, Tick(clock, t, env).env);
    }
  }

  lemma RepeatStep(clock: Clock, t: Tree, n: nat, env: Env)
    requires Limited(t)
    ensures Tick(clock, Repeat(n, true, Some(t)), env) == TickRepeat(clock, t, true, n, env)
  {
  }

  /** Trying until success, at most n times, is a Selector over n copies as long as no copy reports an error. */
  lemma {:induction false} UntilSuccessIsSelector(clock: Clock, t: Tree, n: nat, env: Env)
    requires Limited(t) && n > 0 && AllLimited(Copies(t, n)) && ErrorFree(clock, Copies(t, n), env)
    ensures Limited(Selector(Copies(t, n)))
    ensures Tick(clock, UntilSuccess(n, Some(t)), env) == Tick(clock, Selector(Copies(t, n)), env)
  {
    UntilStep(clock, t, n, env);
    CopiesOnce(t, n);
    var o := Tick(clock, t, env);
    assert TickSelector(clock, Copies(t, n), env, None)
        == if o.st != Failure then o else TickSelector(clock, Copies(t, n - 1), o.env, None);
    if n > 1 && Tick(clock, t, env).st == Failure {
      var env' := Tick(clock, t, env).env;
      UntilSuccessIsSelector(clock, t, n - 1, env');
      UntilStep(clock, t, n - 1, env');
    }
  }

  lemma UntilStep(clock: Clock, t: Tree, n: nat, env: Env)
    requires Limited(t) && n > 0
    ensures Tick(clock, UntilSuccess(n, Some(t)), env) == TickUntil(clock, t, Success, Failure, n, env)
  {
  }

  // ---------- Parallel ----------

  /** The status child `i` returns when all children are ticked one after the other. */
  ghost function StatusOf(clock: Clock, cs: seq<Tree>, env: Env, i: nat): Status
    requires AllLimited(cs) && i < |cs|
    decreases cs
  {
    var o := Tick(clock, cs[0], env);
    if i == 0 then o.st else StatusOf(clock, cs[1..], o.env, i - 1)
  }

  ghost predicate AllReturn(clock: Clock, cs: seq<Tree>, env: Env, st: Status)
    requires AllLimited(cs)
  {
    forall i :: 0 <= i < |cs| ==> StatusOf(clock, cs, env, i) == st
  }

  ghost predicate SomeReturns(clock: Clock, cs: seq<Tree>, env: Env, st: Status)
    requires AllLimited(cs)
  {
    exists i :: 0 <= i < |cs| && StatusOf(clock, cs, env, i) == st
  }

  lemma FirstAndRest(clock: Clock, cs: seq<Tree>, env: Env, st: Status)
    requires AllLimited(cs) && cs != []
    ensures var o := Tick(clock, cs[0], env);
            && (AllReturn(clock, cs, env, st) <==> o.st == st && AllReturn(clock, cs[1..], o.env, st))
            && (SomeReturns(clock, cs, env, st) <==> o.st == st || SomeReturns(clock, cs[1..], o.env, st))
  {
    var o := Tick(clock, cs[0], env);
    assert StatusOf(clock, cs, env, 0) == o.st;
    forall i | 0 <= i < |cs[1..]| ensures StatusOf(clock, cs[1..], o.env, i) == StatusOf(clock, cs, env, i + 1) {
    }
    forall i | 1 <= i < |cs| ensures StatusOf(clock, cs, env, i) == StatusOf(clock, cs[1..], o.env, i - 1) {
    }
  }

  lemma {:induction false} ParallelCounts(clock: Clock, cs: seq<Tree>, env: Env, n: nat, r: bool, e: Option<Error>)
    requires AllLimited(cs)
    ensures var p := TickParallel(clock, cs, env, n, r, e);
            && n <= p.0 <= n + |cs|
            && (p.0 == n + |cs| <==> AllReturn(clock, cs, env, Success))
            && (p.0 > n <==> SomeReturns(clock, cs, env, Success))
            && (p.1 <==> r || SomeReturns(clock, cs, env, Running))
    decreases cs
  {
    if cs != [] {
      var o := Tick(clock, cs[0], env);
      FirstAndRest(clock, cs, env, Success);
      FirstAndRest(clock, cs, env, Running);
      ParallelCounts(clock, cs[1..], o.env, if o.st == Success then n + 1 else n, r || o.st == Running, JoinError(e, o.err));
    }
  }

  /** A Parallel succeeds exactly when all of its children do, or some child does, depending on its
      policy; otherwise it is running exactly when some child is. */
  lemma ParallelMeans(clock: Clock, policy: Policy, cs: seq<Tree>, env: Env)
    requires AllLimited(cs) && cs != []
    ensures var st := Tick(clock, Parallel(policy, cs), env).st;
            && (st == Success <==>
                  if policy == RequireAllSuccess then AllReturn(clock, cs, env, Success)
                  else SomeReturns(clock, cs, env, Success))
            && (st != Success ==> (st == Running <==> SomeReturns(clock, cs, env, Running)))
  {
    hide AllReturn, SomeReturns;
    ParallelCounts(clock, cs, env, 0, false, None);
  }
}
