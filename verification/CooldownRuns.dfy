/** What a Cooldown is for, over whole runs of ticks: its child never runs again before the
    duration has passed since the last run that ended or, with SuccessOnly set, since the last
    that succeeded. This holds in every tree in which nothing else writes the blackboard key the
    cooldown keeps its time under. */
module CooldownRuns {
  import opened BehaviourTrees
  import opened Options

  ghost predicate Monotone(clock: Clock) {
    forall i: nat, j: nat :: i <= j ==> clock(i) <= clock(j)
  }

  predicate SameAt(a: Board, b: Board, key: string) {
    (key in a <==> key in b) && (key in a ==> a[key] == b[key])
  }

  /** An action or condition leaves `key` as it finds it. */
  ghost predicate Respects(run: (Board, int) -> LeafOut, key: string) {
    forall b, now :: SameAt(b, Perform(run, b, now).board, key)
  }

  /** No action or condition of the tree writes `k`'s key; every cooldown named `k` has duration
      `d` and SuccessOnly setting `so`, and contains no other cooldown of that name. `inside` says
      that the tree is part of such a cooldown's child. */
  ghost predicate Guarded(t: Tree, k: string, d: int, so: bool, inside: bool) {
    match t
    case Leaf(run) => Respects(run, LastKey(k))
    case Sequence(cs) => forall i :: 0 <= i < |cs| ==> Guarded(cs[i], k, d, so, inside)
    case Selector(cs) => forall i :: 0 <= i < |cs| ==> Guarded(cs[i], k, d, so, inside)
    case Parallel(_, cs) => forall i :: 0 <= i < |cs| ==> Guarded(cs[i], k, d, so, inside)
    case Priority(cs) => forall i :: 0 <= i < |cs| ==> Guarded(cs[i], k, d, so, inside)
    case Cooldown(name, duration, successOnly, child) =>
      if name == k then
        !inside && duration == d && successOnly == so && (child.Some? ==> Guarded(child.value, k, d, so, true))
      else child.Some? ==> Guarded(child.value, k, d, so, inside)
    case _ => t.child.Some? ==> Guarded(t.child.value, k, d, so, inside)
  }

  ghost predicate AllGuarded(cs: seq<Tree>, k: string, d: int, so: bool, inside: bool) {
    forall i :: 0 <= i < |cs| ==> Guarded(cs[i], k, d, so, inside)
  }

  lemma KeysDiffer(n: string, k: string)
    ensures StartKey(n) != LastKey(k)
    ensures n != k ==> LastKey(n) != LastKey(k)
  {
    var s, l := StartKey(n), LastKey(k);
    assert s[|s|-2] == 'r' && l[|l|-2] == 's';
    if LastKey(n) == l {
      assert n == LastKey(n)[..|LastKey(n)|-5] == l[..|l|-5] == k;
    }
  }

  /** Nothing about `k` changed: neither its key, nor its runs on record. */
  ghost predicate Quiet(k: string, env: Env, env': Env) {
    && SameAt(env.board, env'.board, LastKey(k))
    && env.polls <= env'.polls
    && env.log <= env'.log
    && forall i :: |env.log| <= i < |env'.log| ==> env'.log[i].node != k
  }

  /** Any two runs of `k`'s child are at least `d` apart if the time of the earlier one was stored. */
  ghost predicate Spaced(log: seq<Event>, k: string, d: int, so: bool) {
    forall i, j :: 0 <= i < j < |log| && log[i].node == k && log[j].node == k && Stamps(so, log[i].st) ==>
      log[j].at >= log[i].at + d
  }

  /** The record is spaced, lies in the past, and the stored time is no older than any run that stored it. */
  ghost predicate Tracked(clock: Clock, k: string, d: int, so: bool, env: Env) {
    var key := LastKey(k);
    && Spaced(env.log, k, d, so)
    && (forall i :: 0 <= i < |env.log| && env.log[i].node == k ==> env.log[i].at <= clock(env.polls))
    && (forall i :: 0 <= i < |env.log| && env.log[i].node == k && Stamps(so, env.log[i].st) ==>
          key in env.board && env.board[key].Time? && env.log[i].at <= env.board[key].t)
  }

  /** What a tick guarantees: inside the cooldown's child nothing about it changes, elsewhere the
      record stays in order. */
  ghost predicate Keeps(clock: Clock, k: string, d: int, so: bool, inside: bool, env: Env, env': Env) {
    if inside then Quiet(k, env, env') else Tracked(clock, k, d, so, env) ==> Tracked(clock, k, d, so, env')
  }

  lemma QuietTracks(clock: Clock, k: string, d: int, so: bool, env: Env, env': Env)
    requires Monotone(clock) && Quiet(k, env, env') && Tracked(clock, k, d, so, env)
    ensures Tracked(clock, k, d, so, env')
  {
    forall i | 0 <= i < |env'.log| && env'.log[i].node == k ensures i < |env.log| && env'.log[i] == env.log[i] {
    }
    assert clock(env.polls) <= clock(env'.polls);
  }

  lemma QuietKeeps(clock: Clock, k: string, d: int, so: bool, inside: bool, env: Env, env': Env)
    requires Monotone(clock) && Quiet(k, env, env')
    ensures Keeps(clock, k, d, so, inside, env, env')
  {
    if Tracked(clock, k, d, so, env) { QuietTracks(clock, k, d, so, env, env'); }
  }

  lemma QuietChains(k: string, a: Env, b: Env, c: Env)
    requires Quiet(k, a, b) && Quiet(k, b, c)
    ensures Quiet(k, a, c)
  {
    forall i | |a.log| <= i < |c.log| ensures c.log[i].node != k {
      if i < |b.log| { assert c.log[i] == b.log[i]; }
    }
  }

  lemma KeepsChains(clock: Clock, k: string, d: int, so: bool, inside: bool, a: Env, b: Env, c: Env)
    requires Keeps(clock, k, d, so, inside, a, b) && Keeps(clock, k, d, so, inside, b, c)
    ensures Keeps(clock, k, d, so, inside, a, c)
  {
    if inside { QuietChains(k, a, b, c); }
  }

  // ---------- Every node ----------

  lemma {:induction false} TickKeeps(clock: Clock, t: Tree, k: string, d: int, so: bool, inside: bool, env: Env)
    requires Monotone(clock) && Limited(t) && Guarded(t, k, d, so, inside)
    ensures Keeps(clock, k, d, so, inside, env, Tick(clock, t, env).env)
    decreases t, 1, 0
  {
    hide Keeps, Monotone;
    var env' := Tick(clock, t, env).env;
    match t
    case Leaf(run) => LeafKeeps(clock, t, k, d, so, inside, env);
    case Sequence(cs) => SequenceKeeps(clock, cs, k, d, so, inside, env);
    case Selector(cs) => SelectorKeeps(clock, cs, k, d, so, inside, env, None);
    case Parallel(policy, cs) =>
      if cs == [] { QuietKeeps(clock, k, d, so, inside, env, env'); }
      else { ParallelKeeps(clock, cs, k, d, so, inside, env, 0, false, None); }
    case Priority(cs) => PriorityKeeps(clock, cs, k, d, so, inside, env, None);
    case Repeat(times, stop, child) =>
      if child.None? { QuietKeeps(clock, k, d, so, inside, env, env'); }
      else { RepeatKeeps(clock, child.value, k, d, so, inside, stop, if times < 0 then 0 else times, env); }
    case Timer(name, duration, child) =>
      if child.None? { QuietKeeps(clock, k, d, so, inside, env, env'); }
      else { TimerKeeps(clock, t, k, d, so, inside, env); }
    case Inverter(child) =>
      if child.None? { QuietKeeps(clock, k, d, so, inside, env, env'); }
      else { TickKeeps(clock, child.value, k, d, so, inside, env); }
    case Succeeder(child) =>
      if child.None? { QuietKeeps(clock, k, d, so, inside, env, env'); }
      else { TickKeeps(clock, child.value, k, d, so, inside, env); }
    case Cooldown(name, duration, successOnly, child) =>
      if child.None? { QuietKeeps(clock, k, d, so, inside, env, env'); }
      else if name == k { CooldownKeeps(clock, t, k, d, so, env); }
      else { OtherCooldownKeeps(clock, t, k, d, so, inside, env); }
    case UntilSuccess(max, child) =>
      if child.None? { QuietKeeps(clock, k, d, so, inside, env, env'); }
      else { UntilKeeps(clock, child.value, k, d, so, inside, Success, Failure, max, env); }
    case UntilFailure(max, child) =>
      if child.None? { QuietKeeps(clock, k, d, so, inside, env, env'); }
      else { UntilKeeps(clock, child.value, k, d, so, inside, Failure, Success, max, env); }
  }

  lemma LeafKeeps(clock: Clock, t: Tree, k: string, d: int, so: bool, inside: bool, env: Env)
    requires Monotone(clock) && t.Leaf? && Guarded(t, k, d, so, inside)
    ensures Keeps(clock, k, d, so, inside, env, Tick(clock, t, env).env)
  {
    var env' := Tick(clock, t, env).env;
    assert Respects(t.run, LastKey(k));
    assert SameAt(env.board, Perform(t.run, env.board, clock(env.polls)).board, LastKey(k));
    assert Quiet(k, env, env');
    QuietKeeps(clock, k, d, so, inside, env, env');
  }

  lemma {:induction false} SequenceKeeps(clock: Clock, cs: seq<Tree>, k: string, d: int, so: bool, inside: bool, env: Env)
    requires Monotone(clock) && AllLimited(cs) && AllGuarded(cs, k, d, so, inside)
    ensures Keeps(clock, k, d, so, inside, env, TickSequence(clock, cs, env).env)
    decreases cs, 0, 0
  {
    hide Keeps, Monotone;
    QuietKeeps(clock, k, d, so, inside, env, env);
    if cs != [] {
      var o := Tick(clock, cs[0], env);
      TickKeeps(clock, cs[0], k, d, so, inside, env);
      SequenceKeeps(clock, cs[1..], k, d, so, inside, o.env);
      KeepsChains(clock, k, d, so, inside, env, o.env, TickSequence(clock, cs[1..], o.env).env);
    }
  }

  lemma {:induction false} SelectorKeeps(clock: Clock, cs: seq<Tree>, k: string, d: int, so: bool, inside: bool, env: Env, lastErr: Option<Error>)
    requires Monotone(clock) && AllLimited(cs) && AllGuarded(cs, k, d, so, inside)
    ensures Keeps(clock, k, d, so, inside, env, TickSelector(clock, cs, env, lastErr).env)
    decreases cs, 0, 0
  {
    hide Keeps, Monotone;
    QuietKeeps(clock, k, d, so, inside, env, env);
    if cs != [] {
      var o := Tick(clock, cs[0], env);
      var err := if o.err.Some? then o.err else lastErr;
      TickKeeps(clock, cs[0], k, d, so, inside, env);
      SelectorKeeps(clock, cs[1..], k, d, so, inside, o.env, err);
      KeepsChains(clock, k, d, so, inside, env, o.env, TickSelector(clock, cs[1..], o.env, err).env);
    }
  }

  lemma {:induction false} ParallelKeeps(clock: Clock, cs: seq<Tree>, k: string, d: int, so: bool, inside: bool, env: Env,
                                         successes: nat, anyRunning: bool, allErr: Option<Error>)
    requires Monotone(clock) && AllLimited(cs) && AllGuarded(cs, k, d, so, inside)
    ensures Keeps(clock, k, d, so, inside, env, TickParallel(clock, cs, env, successes, anyRunning, allErr).3)
    decreases cs, 0, 0
  {
    hide Keeps, Monotone;
    QuietKeeps(clock, k, d, so, inside, env, env);
    if cs != [] {
      var o := Tick(clock, cs[0], env);
      var n, r, e := if o.st == Success then successes + 1 else successes, anyRunning || o.st == Running, JoinError(allErr, o.err);
      TickKeeps(clock, cs[0], k, d, so, inside, env);
      ParallelKeeps(clock, cs[1..], k, d, so, inside, o.env, n, r, e);
      KeepsChains(clock, k, d, so, inside, env, o.env, TickParallel(clock, cs[1..], o.env, n, r, e).3);
    }
  }

  lemma {:induction false} PriorityKeeps(clock: Clock, cs: seq<Tree>, k: string, d: int, so: bool, inside: bool, env: Env, allErr: Option<Error>)
    requires Monotone(clock) && AllLimited(cs) && AllGuarded(cs, k, d, so, inside)
    ensures Keeps(clock, k, d, so, inside, env, TickPriority(clock, cs, env, allErr).env)
    decreases cs, 0, 0
  {
    hide Keeps, Monotone;
    QuietKeeps(clock, k, d, so, inside, env, env);
    if cs != [] {
      var o := Tick(clock, cs[0], env);
      var err := JoinError(allErr, o.err);
      TickKeeps(clock, cs[0], k, d, so, inside, env);
      PriorityKeeps(clock, cs[1..], k, d, so, inside, o.env, err);
      KeepsChains(clock, k, d, so, inside, env, o.env, TickPriority(clock, cs[1..], o.env, err).env);
    }
  }

  lemma {:induction false} RepeatKeeps(clock: Clock, child: Tree, k: string, d: int, so: bool, inside: bool, stop: bool, left: nat, env: Env)
    requires Monotone(clock) && Limited(child) && Guarded(child, k, d, so, inside)
    ensures Keeps(clock, k, d, so, inside, env, TickRepeat(clock, child, stop, left, env).env)
    decreases child, 2, left
  {
    hide Keeps, Monotone;
    QuietKeeps(clock, k, d, so, inside, env, env);
    if left > 0 {
      var o := Tick(clock, child, env);
      TickKeeps(clock, child, k, d, so, inside, env);
      RepeatKeeps(clock, child, k, d, so, inside, stop, left - 1, o.env);
      KeepsChains(clock, k, d, so, inside, env, o.env, TickRepeat(clock, child, stop, left - 1, o.env).env);
    }
  }

  lemma {:induction false} UntilKeeps(clock: Clock, child: Tree, k: string, d: int, so: bool, inside: bool,
                                      goal: Status, otherwise: Status, left: int, env: Env)
    requires Monotone(clock) && Limited(child) && Guarded(child, k, d, so, inside) && left > 0
    ensures Keeps(clock, k, d, so, inside, env, TickUntil(clock, child, goal, otherwise, left, env).env)
    decreases child, 2, left
  {
    hide Keeps, Monotone;
    var o := Tick(clock, child, env);
    TickKeeps(clock, child, k, d, so, inside, env);
    if left > 1 {
      UntilKeeps(clock, child, k, d, so, inside, goal, otherwise, left - 1, o.env);
      KeepsChains(clock, k, d, so, inside, env, o.env, TickUntil(clock, child, goal, otherwise, left - 1, o.env).env);
    }
  }

  lemma {:induction false} TimerKeeps(clock: Clock, t: Tree, k: string, d: int, so: bool, inside: bool, env: Env)
    requires Monotone(clock) && t.Timer? && t.child.Some? && Limited(t) && Guarded(t, k, d, so, inside)
    ensures Keeps(clock, k, d, so, inside, env, Tick(clock, t, env).env)
    decreases t, 0, 0
  {
    hide Keeps, Monotone;
    var key, env1, env' := StartKey(t.name), env.(polls := env.polls + 1), Tick(clock, t, env).env;
    KeysDiffer(t.name, k);
    if key !in env.board || !Elapsed(env.board, key, clock(env.polls), t.duration) {
      assert Quiet(k, env, env');
      QuietKeeps(clock, k, d, so, inside, env, env');
    } else {
      var o := Tick(clock, t.child.value, env1);
      QuietKeeps(clock, k, d, so, inside, env, env1);
      TickKeeps(clock, t.child.value, k, d, so, inside, env1);
      assert Quiet(k, o.env, env');
      QuietKeeps(clock, k, d, so, inside, o.env, env');
      KeepsChains(clock, k, d, so, inside, env, env1, o.env);
      KeepsChains(clock, k, d, so, inside, env, o.env, env');
    }
  }

  lemma {:induction false} OtherCooldownKeeps(clock: Clock, t: Tree, k: string, d: int, so: bool, inside: bool, env: Env)
    requires Monotone(clock) && t.Cooldown? && t.name != k && t.child.Some? && Limited(t) && Guarded(t, k, d, so, inside)
    ensures Keeps(clock, k, d, so, inside, env, Tick(clock, t, env).env)
    decreases t, 0, 0
  {
    hide Keeps, Monotone;
    var key, env1, env' := LastKey(t.name), env.(polls := env.polls + 1), Tick(clock, t, env).env;
    KeysDiffer(t.name, k);
    if key in env.board && !Elapsed(env.board, key, clock(env.polls), t.duration) {
      assert Quiet(k, env, env');
      QuietKeeps(clock, k, d, so, inside, env, env');
    } else {
      var o := Tick(clock, t.child.value, env1);
      QuietKeeps(clock, k, d, so, inside, env, env1);
      TickKeeps(clock, t.child.value, k, d, so, inside, env1);
      assert Quiet(k, o.env, env');
      QuietKeeps(clock, k, d, so, inside, o.env, env');
      KeepsChains(clock, k, d, so, inside, env, env1, o.env);
      KeepsChains(clock, k, d, so, inside, env, o.env, env');
    }
  }

  /** The cooldown itself: its child runs only when the stored time is long enough ago, changes
      nothing about it, and the new run goes on record with its time. */
  lemma {:induction false} CooldownKeeps(clock: Clock, t: Tree, k: string, d: int, so: bool, env: Env)
    requires Monotone(clock) && t.Cooldown? && t.name == k && t.child.Some? && Limited(t) && Guarded(t, k, d, so, false)
    ensures Keeps(clock, k, d, so, false, env, Tick(clock, t, env).env)
    decreases t, 0, 0
  {
    if Tracked(clock, k, d, so, env) {
      var key, env1, env' := LastKey(k), env.(polls := env.polls + 1), Tick(clock, t, env).env;
      assert Quiet(k, env, env1);
      if key in env.board && !Elapsed(env.board, key, clock(env.polls), d) {
        QuietTracks(clock, k, d, so, env, env');
      } else {
        var o := Tick(clock, t.child.value, env1);
        TickKeeps(clock, t.child.value, k, d, so, true, env1);
        QuietChains(k, env, env1, o.env);
        RunRecorded(clock, k, d, so, env, o.env, o.st);
      }
    }
  }

  lemma RunRecorded(clock: Clock, k: string, d: int, so: bool, env: Env, after: Env, st: Status)
    requires Monotone(clock) && Tracked(clock, k, d, so, env) && Quiet(k, env, after) && env.polls < after.polls
    requires var key := LastKey(k); key in env.board ==> Elapsed(env.board, key, clock(env.polls), d)
    ensures var key, now := LastKey(k), clock(env.polls);
            Tracked(clock, k, d, so, after.(board := if Stamps(so, st) then after.board[key := Time(now)] else after.board,
                                        log := after.log + [Event(k, now, st)]))
  {
    var now := clock(env.polls);
    QuietTracks(clock, k, d, so, env, after);
    forall i | 0 <= i < |after.log| && after.log[i].node == k
      ensures after.log[i].at <= now && (Stamps(so, after.log[i].st) ==> after.log[i].at + d <= now)
    {
      assert i < |env.log| && after.log[i] == env.log[i];
    }
    assert now <= clock(after.polls);
  }

  // ---------- Whole runs ----------

  /** Between two ticks anything may happen to the blackboard but not to `k`'s key, and time passes. */
  ghost predicate Follows(clock: Clock, t: Tree, k: string, env: Env, next: Env)
    requires Limited(t)
  {
    var env' := Tick(clock, t, env).env;
    next.log == env'.log && next.polls >= env'.polls && SameAt(env'.board, next.board, LastKey(k))
  }

  lemma {:induction false} RunIsTracked(clock: Clock, t: Tree, k: string, d: int, so: bool, run: seq<Env>, i: nat)
    requires Monotone(clock) && Limited(t) && Guarded(t, k, d, so, false)
    requires |run| > 0 && run[0].log == []
    requires forall a, b :: 0 <= a < b < |run| && b <= a + 1 ==> Follows(clock, t, k, run[a], run[b])
    requires i < |run|
    ensures Tracked(clock, k, d, so, run[i])
  {
    if i > 0 {
      RunIsTracked(clock, t, k, d, so, run, i - 1);
      assert Follows(clock, t, k, run[i-1], run[i]);
      TickKeeps(clock, t, k, d, so, false, run[i-1]);
      QuietTracks(clock, k, d, so, Tick(clock, t, run[i-1]).env, run[i]);
    }
  }

  /** Over any run of ticks with a clock that never goes back, whatever was on the blackboard at
      first: two runs of the cooldown's child are at least `d` apart if the earlier one ended or,
      with SuccessOnly set, succeeded. */
  lemma CooldownHolds(clock: Clock, t: Tree, k: string, d: int, so: bool, run: seq<Env>)
    requires Monotone(clock) && Limited(t) && Guarded(t, k, d, so, false)
    requires |run| > 0 && run[0].log == []
    requires forall a, b :: 0 <= a < b < |run| && b <= a + 1 ==> Follows(clock, t, k, run[a], run[b])
    ensures var log := run[|run|-1].log;
            forall i, j ::
              (0 <= i < j < |log| && log[i].node == k && log[j].node == k &&
               if so then log[i].st == Success else log[i].st != Running) ==>
              log[j].at >= log[i].at + d
  {
    RunIsTracked(clock, t, k, d, so, run, |run| - 1);
  }
}
