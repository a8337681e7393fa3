/** What one tick of each node comes to, in terms of what its children return one after the other,
    of the keys on the blackboard and of the time. */
module BehaviourMeaning {
  import opened BehaviourTrees
  import opened BehaviourLaws
  import opened Options

  /** Where child `i` is ticked, if all before it are ticked in turn. */
  ghost function EnvBefore(clock: Clock, cs: seq<Tree>, env: Env, i: nat): Env
    requires AllLimited(cs) && i <= |cs|
    decreases cs
  {
    if i == 0 then env else EnvBefore(clock, cs[1..], Tick(clock, cs[0], env).env, i - 1)
  }

  /** What child `i` then returns. */
  ghost function ResultOf(clock: Clock, cs: seq<Tree>, env: Env, i: nat): Out
    requires AllLimited(cs) && i < |cs|
  {
    Tick(clock, cs[i], EnvBefore(clock, cs, env, i))
  }

  lemma RestResult(clock: Clock, cs: seq<Tree>, env: Env, i: nat)
    requires AllLimited(cs) && 0 < i < |cs|
    ensures AllLimited(cs[1..])
    ensures ResultOf(clock, cs, env, i) == ResultOf(clock, cs[1..], Tick(clock, cs[0], env).env, i - 1)
  {
  }

  lemma RestResults(clock: Clock, cs: seq<Tree>, env: Env)
    requires AllLimited(cs) && cs != []
    ensures AllLimited(cs[1..])
    ensures forall i :: 0 < i < |cs| ==> ResultOf(clock, cs, env, i) == ResultOf(clock, cs[1..], Tick(clock, cs[0], env).env, i - 1)
    ensures forall i :: 0 <= i < |cs[1..]| ==> ResultOf(clock, cs[1..], Tick(clock, cs[0], env).env, i) == ResultOf(clock, cs, env, i + 1)
    ensures ResultOf(clock, cs, env, 0) == Tick(clock, cs[0], env)
    ensures EnvBefore(clock, cs, env, |cs|) == EnvBefore(clock, cs[1..], Tick(clock, cs[0], env).env, |cs| - 1)
  {
    hide ResultOf;
    forall i | 0 < i < |cs|
      ensures ResultOf(clock, cs, env, i) == ResultOf(clock, cs[1..], Tick(clock, cs[0], env).env, i - 1)
    {
      RestResult(clock, cs, env, i);
    }
    forall i | 0 <= i < |cs[1..]|
      ensures ResultOf(clock, cs[1..], Tick(clock, cs[0], env).env, i) == ResultOf(clock, cs, env, i + 1)
    {
      RestResult(clock, cs, env, i + 1);
    }
    FirstResult(clock, cs, env);
  }

  lemma FirstResult(clock: Clock, cs: seq<Tree>, env: Env)
    requires AllLimited(cs) && cs != []
    ensures ResultOf(clock, cs, env, 0) == Tick(clock, cs[0], env)
  {
  }

  // ---------- Composites ----------

  /** A Sequence stops at the first child that does not succeed without error, and succeeds if there is none. */
  lemma {:induction false} SequenceMeans(clock: Clock, cs: seq<Tree>, env: Env, k: nat)
    requires AllLimited(cs) && k <= |cs|
    requires forall i :: 0 <= i < k ==> ResultOf(clock, cs, env, i).st == Success && ResultOf(clock, cs, env, i).err == None
    requires k < |cs| ==> ResultOf(clock, cs, env, k).st != Success || ResultOf(clock, cs, env, k).err != None
    ensures var o := Tick(clock, Sequence(cs), env);
            if k == |cs| then o == Out(Success, None, EnvBefore(clock, cs, env, k))
            else
              var c := ResultOf(clock, cs, env, k);
              o.err == c.err && o.env == c.env && o.st == if c.err != None then Failure else c.st
    decreases cs
  {
    hide ResultOf;
    TickIsSequence(clock, cs, env);
    if cs != [] {
      RestResults(clock, cs, env);
      if k > 0 {
        SequenceMeans(clock, cs[1..], Tick(clock, cs[0], env).env, k - 1);
        TickIsSequence(clock, cs[1..], Tick(clock, cs[0], env).env);
      }
    }
  }

  lemma TickIsSequence(clock: Clock, cs: seq<Tree>, env: Env)
    requires AllLimited(cs)
    ensures Limited(Sequence(cs)) && Tick(clock, Sequence(cs), env) == TickSequence(clock, cs, env)
  {
  }

  /** The last error the children report, if any does. */
  ghost predicate LastError(clock: Clock, cs: seq<Tree>, env: Env, err: Option<Error>)
    requires AllLimited(cs)
  {
    if err == None then forall i :: 0 <= i < |cs| ==> ResultOf(clock, cs, env, i).err == None
    else exists j :: LastErrorAt(clock, cs, env, err, j)
  }

  ghost predicate LastErrorAt(clock: Clock, cs: seq<Tree>, env: Env, err: Option<Error>, j: int)
    requires AllLimited(cs)
  {
    0 <= j < |cs| && ResultOf(clock, cs, env, j).err == err &&
    forall i :: j < i < |cs| ==> ResultOf(clock, cs, env, i).err == None
  }

  /** A Selector returns what the first child does that does not fail; if all fail it fails, with the last error. */
  lemma SelectorMeans(clock: Clock, cs: seq<Tree>, env: Env, k: nat)
    requires AllLimited(cs) && k <= |cs|
    requires forall i :: 0 <= i < k ==> ResultOf(clock, cs, env, i).st == Failure
    requires k < |cs| ==> ResultOf(clock, cs, env, k).st != Failure
    ensures Limited(Selector(cs))
    ensures var o := Tick(clock, Selector(cs), env);
            if k < |cs| then o == ResultOf(clock, cs, env, k)
            else o.st == Failure && o.env == EnvBefore(clock, cs, env, k) && LastError(clock, cs, env, o.err)
  {
    hide ResultOf;
    SelectorFrom(clock, cs, env, None, k);
    assert Tick(clock, Selector(cs), env) == TickSelector(clock, cs, env, None);
  }

  lemma {:induction false} SelectorFrom(clock: Clock, cs: seq<Tree>, env: Env, lastErr: Option<Error>, k: nat)
    requires AllLimited(cs) && k <= |cs|
    requires forall i :: 0 <= i < k ==> ResultOf(clock, cs, env, i).st == Failure
    requires k < |cs| ==> ResultOf(clock, cs, env, k).st != Failure
    ensures var o := TickSelector(clock, cs, env, lastErr);
            if k < |cs| then o == ResultOf(clock, cs, env, k)
            else
              && o.st == Failure && o.env == EnvBefore(clock, cs, env, k)
              && ((o.err == lastErr && LastError(clock, cs, env, None)) || (o.err != None && LastError(clock, cs, env, o.err)))
    decreases cs
  {
    hide ResultOf, LastError;
    if cs == [] { NoErrors(clock, env); }
    else {
      RestResults(clock, cs, env);
      if k > 0 {
        var o := Tick(clock, cs[0], env);
        var err := if o.err.Some? then o.err else lastErr;
        SelectorFrom(clock, cs[1..], o.env, err, k - 1);
        LastErrorSteps(clock, cs, env, TickSelector(clock, cs[1..], o.env, err).err);
      }
    }
  }

  lemma NoErrors(clock: Clock, env: Env)
    ensures LastError(clock, [], env, None)
  {
  }

  lemma LastErrorSteps(clock: Clock, cs: seq<Tree>, env: Env, err: Option<Error>)
    requires AllLimited(cs) && cs != [] && AllLimited(cs[1..])
    ensures var o := Tick(clock, cs[0], env);
            && (LastError(clock, cs[1..], o.env, None) ==> LastError(clock, cs, env, o.err))
            && (err != None && LastError(clock, cs[1..], o.env, err) ==> LastError(clock, cs, env, err))
  {
    hide ResultOf;
    RestResults(clock, cs, env);
    var o := Tick(clock, cs[0], env);
    if LastError(clock, cs[1..], o.env, None) {
      if o.err != None { assert LastErrorAt(clock, cs, env, o.err, 0); }
    }
    if err != None && LastError(clock, cs[1..], o.env, err) {
      var j :| LastErrorAt(clock, cs[1..], o.env, err, j);
      assert LastErrorAt(clock, cs, env, err, j + 1);
    }
  }

  /** The errors of the first `n` children, joined in order. */
  ghost function Gathered(clock: Clock, cs: seq<Tree>, env: Env, n: nat): Option<Error>
    requires AllLimited(cs) && n <= |cs|
  {
    if n == 0 then None
    else
      var all, err := Gathered(clock, cs, env, n - 1), ResultOf(clock, cs, env, n - 1).err;
      if err == None then all else if all == None then err else Some(Joined(all.value, err.value))
  }

  /** `all` and then the errors of the first `n` children. */
  ghost function GatheredFrom(clock: Clock, cs: seq<Tree>, env: Env, all: Option<Error>, n: nat): Option<Error>
    requires AllLimited(cs) && n <= |cs|
  {
    if n == 0 then all
    else JoinError(GatheredFrom(clock, cs, env, all, n - 1), ResultOf(clock, cs, env, n - 1).err)
  }

  lemma {:induction false} GatheredIs(clock: Clock, cs: seq<Tree>, env: Env, n: nat)
    requires AllLimited(cs) && n <= |cs|
    ensures GatheredFrom(clock, cs, env, None, n) == Gathered(clock, cs, env, n)
  {
    hide ResultOf;
    if n > 0 { GatheredIs(clock, cs, env, n - 1); }
  }

  lemma {:induction false} GatheredRest(clock: Clock, cs: seq<Tree>, env: Env, all: Option<Error>, n: nat)
    requires AllLimited(cs) && 0 < n <= |cs| && AllLimited(cs[1..])
    ensures var o := Tick(clock, cs[0], env);
            GatheredFrom(clock, cs, env, all, n) == GatheredFrom(clock, cs[1..], o.env, JoinError(all, o.err), n - 1)
  {
    hide ResultOf;
    RestResults(clock, cs, env);
    if n > 1 { GatheredRest(clock, cs, env, all, n - 1); }
  }

  /** A Priority does what the first child does that does not fail, reporting all errors up to it; if all fail, it fails with all. */
  lemma PriorityMeans(clock: Clock, cs: seq<Tree>, env: Env, k: nat)
    requires AllLimited(cs) && k <= |cs|
    requires forall i :: 0 <= i < k ==> ResultOf(clock, cs, env, i).st == Failure
    requires k < |cs| ==> ResultOf(clock, cs, env, k).st != Failure
    ensures Limited(Priority(cs))
    ensures Tick(clock, Priority(cs), env) ==
              if k < |cs| then ResultOf(clock, cs, env, k).(err := Gathered(clock, cs, env, k + 1))
              else Out(Failure, Gathered(clock, cs, env, k), EnvBefore(clock, cs, env, k))
  {
    hide ResultOf;
    PriorityFrom(clock, cs, env, None, k);
    GatheredIs(clock, cs, env, if k < |cs| then k + 1 else k);
    assert Tick(clock, Priority(cs), env) == TickPriority(clock, cs, env, None);
  }

  lemma {:induction false} PriorityFrom(clock: Clock, cs: seq<Tree>, env: Env, all: Option<Error>, k: nat)
    requires AllLimited(cs) && k <= |cs|
    requires forall i :: 0 <= i < k ==> ResultOf(clock, cs, env, i).st == Failure
    requires k < |cs| ==> ResultOf(clock, cs, env, k).st != Failure
    ensures TickPriority(clock, cs, env, all) ==
              if k < |cs| then ResultOf(clock, cs, env, k).(err := GatheredFrom(clock, cs, env, all, k + 1))
              else Out(Failure, GatheredFrom(clock, cs, env, all, k), EnvBefore(clock, cs, env, k))
    decreases cs
  {
    hide ResultOf, JoinError;
    if cs != [] {
      RestResults(clock, cs, env);
      if k > 0 {
        var o := Tick(clock, cs[0], env);
        PriorityFrom(clock, cs[1..], o.env, JoinError(all, o.err), k - 1);
        GatheredRest(clock, cs, env, all, if k < |cs| then k + 1 else k);
      }
    }
  }

  /** A Parallel ticks every child once, in order, and reports all errors; without children it succeeds. */
  lemma ParallelTicksAll(clock: Clock, policy: Policy, cs: seq<Tree>, env: Env)
    requires AllLimited(cs)
    ensures Limited(Parallel(policy, cs))
    ensures var o := Tick(clock, Parallel(policy, cs), env);
            && o.env == EnvBefore(clock, cs, env, |cs|) && o.err == Gathered(clock, cs, env, |cs|)
            && (cs == [] ==> o.st == Success)
  {
    hide ResultOf;
    ParallelFrom(clock, cs, env, 0, false, None);
    GatheredIs(clock, cs, env, |cs|);
  }

  lemma {:induction false} ParallelFrom(clock: Clock, cs: seq<Tree>, env: Env, n: nat, r: bool, all: Option<Error>)
    requires AllLimited(cs)
    ensures var p := TickParallel(clock, cs, env, n, r, all);
            p.3 == EnvBefore(clock, cs, env, |cs|) && p.2 == GatheredFrom(clock, cs, env, all, |cs|)
    decreases cs
  {
    hide ResultOf, JoinError;
    if cs != [] {
      RestResults(clock, cs, env);
      var o := Tick(clock, cs[0], env);
      ParallelFrom(clock, cs[1..], o.env, if o.st == Success then n + 1 else n, r || o.st == Running, JoinError(all, o.err));
      GatheredRest(clock, cs, env, all, |cs|);
    }
  }

  // ---------- Loops ----------

  /** A Repeat ticks its child until it reports an error or is running, or fails if it is to stop then;
      having ticked it as often as it should, it succeeds. */
  lemma {:induction false} RepeatMeans(clock: Clock, t: Tree, times: int, stop: bool, env: Env, k: nat)
    requires Limited(t)
    requires var n := if times < 0 then 0 else times; k <= n && AllLimited(Copies(t, n))
    requires var cs := Copies(t, if times < 0 then 0 else times);
             && (forall i :: 0 <= i < k ==>
                   var c := ResultOf(clock, cs, env, i); c.err == None && c.st != Running && !(stop && c.st == Failure))
             && (k < |cs| ==>
                   var c := ResultOf(clock, cs, env, k); c.err != None || c.st == Running || (stop && c.st == Failure))
    ensures var cs := Copies(t, if times < 0 then 0 else times); var o := Tick(clock, Repeat(times, stop, Some(t)), env);
            if k == |cs| then o == Out(Success, None, EnvBefore(clock, cs, env, k))
            else
              var c := ResultOf(clock, cs, env, k);
              o.err == c.err && o.env == c.env && o.st == if c.err != None then Failure else c.st
    decreases if times < 0 then 0 else times
  {
    hide ResultOf, EnvBefore;
    var n: nat := if times < 0 then 0 else times;
    TickIsRepeat(clock, t, times, stop, env);
    if n == 0 { NoneBefore(clock, Copies(t, 0), env); }
    else {
      CopiesOnce(t, n);
      RestResults(clock, Copies(t, n), env);
      if k > 0 {
        RepeatMeans(clock, t, n - 1, stop, Tick(clock, t, env).env, k - 1);
        TickIsRepeat(clock, t, n - 1, stop, Tick(clock, t, env).env);
      }
    }
  }

  lemma TickIsRepeat(clock: Clock, t: Tree, times: int, stop: bool, env: Env)
    requires Limited(t)
    ensures Limited(Repeat(times, stop, Some(t)))
    ensures Tick(clock, Repeat(times, stop, Some(t)), env) == TickRepeat(clock, t, stop, if times < 0 then 0 else times, env)
  {
  }

  lemma NoneBefore(clock: Clock, cs: seq<Tree>, env: Env)
    requires AllLimited(cs)
    ensures EnvBefore(clock, cs, env, 0) == env
  {
  }

  /** An UntilSuccess goes on while its child fails without error: an error makes it fail, a running child
      makes it running; after its last attempt it fails. */
  lemma UntilSuccessMeans(clock: Clock, t: Tree, max: nat, env: Env, k: nat)
    requires Limited(t) && 0 < max && k <= max && AllLimited(Copies(t, max))
    requires forall i :: 0 <= i < k ==> ResultOf(clock, Copies(t, max), env, i).err == None && ResultOf(clock, Copies(t, max), env, i).st == Failure
    requires k < max ==> ResultOf(clock, Copies(t, max), env, k).err != None || ResultOf(clock, Copies(t, max), env, k).st != Failure
    ensures var cs := Copies(t, max); var o := Tick(clock, UntilSuccess(max, Some(t)), env);
            if k == max then o == Out(Failure, None, EnvBefore(clock, cs, env, max))
            else
              var c := ResultOf(clock, cs, env, k);
              o == Out(if c.err != None then Failure else if c.st == Success then Success else Running, c.err, c.env)
  {
    hide ResultOf;
    UntilFrom(clock, t, Success, Failure, max, env, k);
  }

  /** An UntilFailure goes on while its child succeeds without error: an error makes it fail, a running child
      makes it running, and a failing one makes it succeed; after its last attempt it succeeds. */
  lemma UntilFailureMeans(clock: Clock, t: Tree, max: nat, env: Env, k: nat)
    requires Limited(t) && 0 < max && k <= max && AllLimited(Copies(t, max))
    requires forall i :: 0 <= i < k ==> ResultOf(clock, Copies(t, max), env, i).err == None && ResultOf(clock, Copies(t, max), env, i).st == Success
    requires k < max ==> ResultOf(clock, Copies(t, max), env, k).err != None || ResultOf(clock, Copies(t, max), env, k).st != Success
    ensures var cs := Copies(t, max); var o := Tick(clock, UntilFailure(max, Some(t)), env);
            if k == max then o == Out(Success, None, EnvBefore(clock, cs, env, max))
            else
              var c := ResultOf(clock, cs, env, k);
              o == Out(if c.err != None then Failure else if c.st == Failure then Success else Running, c.err, c.env)
  {
    hide ResultOf;
    UntilFrom(clock, t, Failure, Success, max, env, k);
  }

  lemma {:induction false} UntilFrom(clock: Clock, t: Tree, goal: Status, otherwise: Status, max: nat, env: Env, k: nat)
    requires Limited(t) && 0 < max && k <= max && AllLimited(Copies(t, max))
    requires {goal, otherwise} == {Success, Failure}
    requires forall i :: 0 <= i < k ==> ResultOf(clock, Copies(t, max), env, i).err == None && ResultOf(clock, Copies(t, max), env, i).st == otherwise
    requires k < max ==> ResultOf(clock, Copies(t, max), env, k).err != None || ResultOf(clock, Copies(t, max), env, k).st != otherwise
    ensures var cs := Copies(t, max); var o := TickUntil(clock, t, goal, otherwise, max, env);
            if k == max then o == Out(otherwise, None, EnvBefore(clock, cs, env, max))
            else
              var c := ResultOf(clock, cs, env, k);
              o == Out(if c.err != None then Failure else if c.st == goal then Success else Running, c.err, c.env)
    decreases max
  {
    hide ResultOf, EnvBefore;
    assert goal in {goal, otherwise} && otherwise in {goal, otherwise};
    CopiesOnce(t, max);
    RestResults(clock, Copies(t, max), env);
    NoneBefore(clock, Copies(t, 0), Tick(clock, t, env).env);
    if k > 0 && max > 1 { UntilFrom(clock, t, goal, otherwise, max - 1, Tick(clock, t, env).env, k - 1); }
  }

  // ---------- Single children ----------

  /** An action or condition leaves what it says it leaves. */
  lemma LeafMeans(clock: Clock, run: (Board, int) -> LeafOut, env: Env)
    ensures var o, r := Tick(clock, Leaf(run), env), Perform(run, env.board, clock(env.polls));
            o.st == r.st && o.err == r.err && o.env == env.(board := r.board, polls := env.polls + r.used)
  {
  }

  /** An Inverter swaps success and failure, and nothing else. */
  lemma InverterMeans(clock: Clock, t: Tree, env: Env)
    requires Limited(t)
    ensures Limited(Inverter(Some(t)))
    ensures var o, c := Tick(clock, Inverter(Some(t)), env), Tick(clock, t, env);
            && o.err == c.err && o.env == c.env
            && (o.st == Success <==> c.st == Failure) && (o.st == Failure <==> c.st == Success) && (o.st == Running <==> c.st == Running)
  {
  }

  /** A Succeeder is running exactly when its child is, and else succeeds, passing errors on. */
  lemma SucceederMeans(clock: Clock, t: Tree, env: Env)
    requires Limited(t)
    ensures Limited(Succeeder(Some(t)))
    ensures var o, c := Tick(clock, Succeeder(Some(t)), env), Tick(clock, t, env);
            && o.err == c.err && o.env == c.env && o.st != Failure && (o.st == Running <==> c.st == Running)
  {
  }

  /** Without a child a Succeeder succeeds and every other decorator fails with an error; nothing changes. */
  lemma ChildlessMeans(clock: Clock, name: string, d: int, n: int, b: bool, env: Env)
    ensures Tick(clock, Succeeder(None), env) == Out(Success, None, env)
    ensures Tick(clock, Repeat(n, b, None), env) == Out(Failure, Some(NoChild("repeat")), env)
    ensures Tick(clock, Timer(name, d, None), env) == Out(Failure, Some(NoChild("timer")), env)
    ensures Tick(clock, Inverter(None), env) == Out(Failure, Some(NoChild("inverter")), env)
    ensures Tick(clock, Cooldown(name, d, b, None), env) == Out(Failure, Some(NoChild("cooldown")), env)
    ensures n > 0 ==> Tick(clock, UntilSuccess(n, None), env) == Out(Failure, Some(NoChild("until-success")), env)
    ensures n > 0 ==> Tick(clock, UntilFailure(n, None), env) == Out(Failure, Some(NoChild("until-failure")), env)
  {
  }

  /** With no start stored a Timer stores the time and is running. While the start is less than the
      duration ago it is running and changes nothing. Otherwise it returns what its child does, and
      the start is gone. */
  lemma TimerMeans(clock: Clock, name: string, duration: int, t: Tree, env: Env)
    requires Limited(t)
    ensures Limited(Timer(name, duration, Some(t)))
    ensures var o, key, now := Tick(clock, Timer(name, duration, Some(t)), env), name + ".start", clock(env.polls);
            if key !in env.board then
              o == Out(Running, None, env.(board := env.board[key := Time(now)], polls := env.polls + 1))
            else if env.board[key].Time? && now - env.board[key].t < duration then
              o == Out(Running, None, env.(polls := env.polls + 1))
            else
              var c := Tick(clock, t, env.(polls := env.polls + 1));
              && o.st == c.st && o.err == c.err && o.env.board == c.env.board - {key} && key !in o.env.board
              && o.env.log == c.env.log && o.env.polls == c.env.polls
  {
  }

  /** While the last stored time is less than the duration ago a Cooldown fails and changes nothing.
      Otherwise it returns what its child does, and stores the time it looked at the clock if the
      child succeeded, or also if it failed unless only success counts. Each run of the child goes on record. */
  lemma CooldownMeans(clock: Clock, name: string, duration: int, successOnly: bool, t: Tree, env: Env)
    requires Limited(t)
    ensures Limited(Cooldown(name, duration, successOnly, Some(t)))
    ensures var o, key, now := Tick(clock, Cooldown(name, duration, successOnly, Some(t)), env), name + ".last", clock(env.polls);
            if key in env.board && env.board[key].Time? && now - env.board[key].t < duration then
              o == Out(Failure, None, env.(polls := env.polls + 1))
            else
              var c := Tick(clock, t, env.(polls := env.polls + 1));
              && o.st == c.st && o.err == c.err
              && o.env.board == (if c.st == Success || (c.st == Failure && !successOnly) then c.env.board[key := Time(now)] else c.env.board)
              && o.env.log == c.env.log + [Event(name, now, c.st)] && o.env.polls == c.env.polls
  {
  }
}
