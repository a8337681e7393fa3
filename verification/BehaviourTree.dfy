/** Behaviour trees of internal/core/npc (composites.go, decorators.go): what one tick of each
    node returns and does to the blackboard. `Tick` is the meaning of a tree as a function; the
    methods run the same nodes with the loops the source has, over a mutable blackboard. */
module BehaviourTrees {
  import opened Options

  datatype Status = Success | Failure | Running

  datatype Error = Reported(code: int) | NoChild(node: string) | Joined(first: Error, second: Error)

  /** Blackboard values: the nodes themselves store only times. */
  datatype Value = Time(t: int) | Other(n: int)

  type Board = map<string, Value>

  /** What the successive reads of the clock return. */
  type Clock = nat -> int

  /** A cooldown let its child run at `at`, and the child returned `st`. */
  datatype Event = Event(node: string, at: int, st: Status)

  /** Everything a tick can change: the blackboard, how often the clock was read, and a record
      of the children that cooldowns let run. */
  datatype Env = Env(board: Board, polls: nat, log: seq<Event>)

  datatype Out = Out(st: Status, err: Option<Error>, env: Env)

  /** What an action or condition makes of the blackboard and the time: its result, the blackboard
      it leaves, and how often it read the clock. */
  datatype LeafOut = LeafOut(st: Status, err: Option<Error>, board: Board, used: nat)

  datatype Policy = RequireAllSuccess | RequireOneSuccess

  datatype Tree =
    | Leaf(run: (Board, int) -> LeafOut)
    | Sequence(children: seq<Tree>)
    | Selector(children: seq<Tree>)
    | Parallel(policy: Policy, children: seq<Tree>)
    | Priority(children: seq<Tree>)
    | Repeat(times: int, stopOnFailure: bool, child: Option<Tree>)
    | Timer(name: string, duration: int, child: Option<Tree>)
    | Inverter(child: Option<Tree>)
    | Succeeder(child: Option<Tree>)
    | Cooldown(name: string, duration: int, successOnly: bool, child: Option<Tree>)
    | UntilSuccess(max: int, child: Option<Tree>)
    | UntilFailure(max: int, child: Option<Tree>)

  /** No node loops without a limit on its attempts. */
  ghost predicate Limited(t: Tree) {
    match t
    case Leaf(_) => true
    case Sequence(cs) => forall i :: 0 <= i < |cs| ==> Limited(cs[i])
    case Selector(cs) => forall i :: 0 <= i < |cs| ==> Limited(cs[i])
    case Parallel(_, cs) => forall i :: 0 <= i < |cs| ==> Limited(cs[i])
    case Priority(cs) => forall i :: 0 <= i < |cs| ==> Limited(cs[i])
    case UntilSuccess(max, c) => max > 0 && (c.Some? ==> Limited(c.value))
    case UntilFailure(max, c) => max > 0 && (c.Some? ==> Limited(c.value))
    case _ => t.child.Some? ==> Limited(t.child.value)
  }

  ghost predicate AllLimited(cs: seq<Tree>) {
    forall i :: 0 <= i < |cs| ==> Limited(cs[i])
  }

  function StartKey(name: string): string { name + ".start" }

  function LastKey(name: string): string { name + ".last" }

  /** errors.Join on an optional first error. */
  function JoinError(all: Option<Error>, err: Option<Error>): Option<Error> {
    if err.None? then all else if all.None? then err else Some(Joined(all.value, err.value))
  }

  function Invert(st: Status): Status {
    match st
    case Success => Failure
    case Failure => Success
    case Running => Running
  }

  /** The zero time.Time, which a stored value of another type is read as, is longer ago than any duration. */
  function Elapsed(board: Board, key: string, now: int, duration: int): bool
    requires key in board
  {
    board[key].Time? ==> now - board[key].t >= duration
  }

  /** After which results of its child a cooldown stores the time. */
  predicate Stamps(successOnly: bool, st: Status) {
    if successOnly then st == Success else st != Running
  }

  function Perform(run: (Board, int) -> LeafOut, board: Board, now: int): LeafOut { run(board, now) }

  ghost function Tick(clock: Clock, t: Tree, env: Env): Out
    requires Limited(t)
    decreases t, 1, 0
  {
    match t
    case Leaf(run) =>
      var o := Perform(run, env.board, clock(env.polls));
      Out(o.st, o.err, env.(board := o.board, polls := env.polls + o.used))
    case Sequence(cs) => TickSequence(clock, cs, env)
    case Selector(cs) => TickSelector(clock, cs, env, None)
    case Parallel(policy, cs) =>
      if cs == [] then Out(Success, None, env)
      else
        var (successes, anyRunning, err, env') := TickParallel(clock, cs, env, 0, false, None);
        Out(Verdict(policy, successes, |cs|, anyRunning), err, env')
    case Priority(cs) => TickPriority(clock, cs, env, None)
    case Repeat(times, stop, child) =>
      if child.None? then Out(Failure, Some(NoChild("repeat")), env)
      else TickRepeat(clock, child.value, stop, if times < 0 then 0 else times, env)
    case Timer(name, duration, child) =>
      if child.None? then Out(Failure, Some(NoChild("timer")), env)
      else
        var key, now, env1 := StartKey(name), clock(env.polls), env.(polls := env.polls + 1);
        if key !in env.board then Out(Running, None, env1.(board := env.board[key := Time(now)]))
        else if !Elapsed(env.board, key, now, duration) then Out(Running, None, env1)
        else
          var o := Tick(clock, child.value, env1);
          o.(env := o.env.(board := o.env.board - {key}))
    case Inverter(child) =>
      if child.None? then Out(Failure, Some(NoChild("inverter")), env)
      else var o := Tick(clock, child.value, env); o.(st := Invert(o.st))
    case Succeeder(child) =>
      if child.None? then Out(Success, None, env)
      else var o := Tick(clock, child.value, env); o.(st := if o.st == Running then Running else Success)
    case Cooldown(name, duration, successOnly, child) =>
      if child.None? then Out(Failure, Some(NoChild("cooldown")), env)
      else
        var key, now, env1 := LastKey(name), clock(env.polls), env.(polls := env.polls + 1);
        if key in env.board && !Elapsed(env.board, key, now, duration) then Out(Failure, None, env1)
        else
          var o := Tick(clock, child.value, env1);
          o.(env := o.env.(board := if Stamps(successOnly, o.st) then o.env.board[key := Time(now)] else o.env.board,
                           log := o.env.log + [Event(name, now, o.st)]))
    case UntilSuccess(max, child) =>
      if child.None? then Out(Failure, Some(NoChild("until-success")), env)
      else TickUntil(clock, child.value, Success, Failure, max, env)
    case UntilFailure(max, child) =>
      if child.None? then Out(Failure, Some(NoChild("until-failure")), env)
      else TickUntil(clock, child.value, Failure, Success, max, env)
  }

  ghost function TickSequence(clock: Clock, cs: seq<Tree>, env: Env): Out
    requires AllLimited(cs)
    decreases cs, 0, 0
  {
    if cs == [] then Out(Success, None, env)
    else
      var o := Tick(clock, cs[0], env);
      if o.err.Some? then o.(st := Failure)
      else if o.st != Success then o
      else TickSequence(clock, cs[1..], o.env)
  }

  ghost function TickSelector(clock: Clock, cs: seq<Tree>, env: Env, lastErr: Option<Error>): Out
    requires AllLimited(cs)
    decreases cs, 0, 0
  {
    if cs == [] then Out(Failure, lastErr, env)
    else
      var o := Tick(clock, cs[0], env);
      if o.st != Failure then o
      else TickSelector(clock, cs[1..], o.env, if o.err.Some? then o.err else lastErr)
  }

  ghost function TickParallel(clock: Clock, cs: seq<Tree>, env: Env, successes: nat, anyRunning: bool, allErr: Option<Error>)
    : (nat, bool, Option<Error>, Env)
    requires AllLimited(cs)
    decreases cs, 0, 0
  {
    if cs == [] then (successes, anyRunning, allErr, env)
    else
      var o := Tick(clock, cs[0], env);
      TickParallel(clock, cs[1..], o.env, if o.st == Success then successes + 1 else successes,
                   anyRunning || o.st == Running, JoinError(allErr, o.err))
  }

  function Verdict(policy: Policy, successes: nat, total: nat, anyRunning: bool): Status {
    if (if policy == RequireAllSuccess then successes == total else successes > 0) then Success
    else if anyRunning then Running
    else Failure
  }

  ghost function TickPriority(clock: Clock, cs: seq<Tree>, env: Env, allErr: Option<Error>): Out
    requires AllLimited(cs)
    decreases cs, 0, 0
  {
    if cs == [] then Out(Failure, allErr, env)
    else
      var o := Tick(clock, cs[0], env);
      var err := JoinError(allErr, o.err);
      if o.st != Failure then o.(err := err)
      else TickPriority(clock, cs[1..], o.env, err)
  }

  ghost function TickRepeat(clock: Clock, child: Tree, stop: bool, left: nat, env: Env): Out
    requires Limited(child)
    decreases child, 2, left
  {
    if left == 0 then Out(Success, None, env)
    else
      var o := Tick(clock, child, env);
      if o.err.Some? then o.(st := Failure)
      else if o.st == Running || (o.st == Failure && stop) then o
      else TickRepeat(clock, child, stop, left - 1, o.env)
  }

  /** Ticks the child until it returns `goal`, at most `left` times; `otherwise` if it never does.
      Reaching the goal is a success. */
  ghost function TickUntil(clock: Clock, child: Tree, goal: Status, otherwise: Status, left: int, env: Env): Out
    requires Limited(child) && left > 0
    decreases child, 2, left
  {
    var o := Tick(clock, child, env);
    if o.err.Some? then o.(st := Failure)
    else if o.st == goal then Out(Success, None, o.env)
    else if o.st == Running then o
    else if left == 1 then Out(otherwise, None, o.env)
    else TickUntil(clock, child, goal, otherwise, left - 1, o.env)
  }

  // ---------- The nodes over a mutable blackboard ----------

  class Blackboard {
    var data: Board
    var polls: nat
    ghost var log: seq<Event>

    constructor ()
      ensures View() == Env(map[], 0, [])
    {
      data, polls, log := map[], 0, [];
    }

    ghost function View(): Env
      reads this
    {
      Env(data, polls, log)
    }

    method Now(clock: Clock) returns (now: int)
      modifies this`polls
      ensures now == clock(old(polls)) && polls == old(polls) + 1
    {
      now := clock(polls);
      polls := polls + 1;
    }
  }

  method RunTree(clock: Clock, t: Tree, bb: Blackboard) returns (st: Status, err: Option<Error>)
    requires Limited(t)
    modifies bb
    ensures Out(st, err, bb.View()) == Tick(clock, t, old(bb.View()))
    decreases t, 1, 0
  {
    match t
    case Leaf(run) =>
      var o := run(bb.data, clock(bb.polls));
      bb.data, bb.polls := o.board, bb.polls + o.used;
      return o.st, o.err;
    case Sequence(cs) => st, err := RunSequence(clock, cs, bb);
    case Selector(cs) => st, err := RunSelector(clock, cs, bb);
    case Parallel(policy, cs) => st, err := RunParallel(clock, policy, cs, bb);
    case Priority(cs) => st, err := RunPriority(clock, cs, bb);
    case Repeat(times, stop, child) =>
      if child.None? { return Failure, Some(NoChild("repeat")); }
      st, err := RunRepeat(clock, child.value, stop, times, bb);
    case Timer(name, duration, child) =>
      if child.None? { return Failure, Some(NoChild("timer")); }
      st, err := RunTimer(clock, name, duration, child.value, bb);
    case Inverter(child) =>
      if child.None? { return Failure, Some(NoChild("inverter")); }
      st, err := RunTree(clock, child.value, bb);
      st := Invert(st);
    case Succeeder(child) =>
      if child.None? { return Success, None; }
      st, err := RunTree(clock, child.value, bb);
      if st != Running { st := Success; }
    case Cooldown(name, duration, successOnly, child) =>
      if child.None? { return Failure, Some(NoChild("cooldown")); }
      st, err := RunCooldown(clock, name, duration, successOnly, child.value, bb);
    case UntilSuccess(max, child) =>
      if child.None? { return Failure, Some(NoChild("until-success")); }
      st, err := RunUntil(clock, child.value, Success, Failure, max, bb);
    case UntilFailure(max, child) =>
      if child.None? { return Failure, Some(NoChild("until-failure")); }
      st, err := RunUntil(clock, child.value, Failure, Success, max, bb);
  }

  method RunSequence(clock: Clock, cs: seq<Tree>, bb: Blackboard) returns (st: Status, err: Option<Error>)
    requires AllLimited(cs)
    modifies bb
    ensures Out(st, err, bb.View()) == TickSequence(clock, cs, old(bb.View()))
    decreases cs, 0, 0
  {
    for i := 0 to |cs|
      invariant TickSequence(clock, cs[i..], bb.View()) == TickSequence(clock, cs, old(bb.View()))
    {
      assert cs[i..][1..] == cs[i+1..];
      st, err := RunTree(clock, cs[i], bb);
      if err.Some? { return Failure, err; }
      match st
      case Failure => return Failure, None;
      case Running => return Running, None;
      case Success =>
    }
    return Success, None;
  }

  method RunSelector(clock: Clock, cs: seq<Tree>, bb: Blackboard) returns (st: Status, err: Option<Error>)
    requires AllLimited(cs)
    modifies bb
    ensures Out(st, err, bb.View()) == TickSelector(clock, cs, old(bb.View()), None)
    decreases cs, 0, 0
  {
    var lastErr: Option<Error> := None;
    for i := 0 to |cs|
      invariant TickSelector(clock, cs[i..], bb.View(), lastErr) == TickSelector(clock, cs, old(bb.View()), None)
    {
      assert cs[i..][1..] == cs[i+1..];
      st, err := RunTree(clock, cs[i], bb);
      if err.Some? { lastErr := err; }
      match st
      case Success => return Success, err;
      case Running => return Running, err;
      case Failure =>
    }
    return Failure, lastErr;
  }

  method RunParallel(clock: Clock, policy: Policy, cs: seq<Tree>, bb: Blackboard) returns (st: Status, err: Option<Error>)
    requires AllLimited(cs)
    modifies bb
    ensures cs == [] ==> st == Success && err == None && bb.View() == old(bb.View())
    ensures cs != [] ==>
              var (successes, anyRunning, allErr, env) := TickParallel(clock, cs, old(bb.View()), 0, false, None);
              st == Verdict(policy, successes, |cs|, anyRunning) && err == allErr && bb.View() == env
    decreases cs, 0, 0
  {
    if |cs| == 0 {
      return Success, None;
    }
    var successes: nat := 0;
    var anyRunning := false;
    var allErr: Option<Error> := None;
    for i := 0 to |cs|
      invariant TickParallel(clock, cs[i..], bb.View(), successes, anyRunning, allErr)
             == TickParallel(clock, cs, old(bb.View()), 0, false, None)
    {
      assert cs[i..][1..] == cs[i+1..];
      st, err := RunTree(clock, cs[i], bb);
      if err.Some? {
        allErr := if allErr.None? then err else Some(Joined(allErr.value, err.value));
      }
      match st
      case Success => successes := successes + 1;
      case Running => anyRunning := true;
      case Failure =>
    }
    return Verdict(policy, successes, |cs|, anyRunning), allErr;
  }

  method RunPriority(clock: Clock, cs: seq<Tree>, bb: Blackboard) returns (st: Status, err: Option<Error>)
    requires AllLimited(cs)
    modifies bb
    ensures Out(st, err, bb.View()) == TickPriority(clock, cs, old(bb.View()), None)
    decreases cs, 0, 0
  {
    var allErr: Option<Error> := None;
    for i := 0 to |cs|
      invariant TickPriority(clock, cs[i..], bb.View(), allErr) == TickPriority(clock, cs, old(bb.View()), None)
    {
      assert cs[i..][1..] == cs[i+1..];
      st, err := RunTree(clock, cs[i], bb);
      if err.Some? {
        allErr := if allErr.None? then err else Some(Joined(allErr.value, err.value));
      }
      match st
      case Success => return Success, allErr;
      case Running => return Running, allErr;
      case Failure =>
    }
    return Failure, allErr;
  }

  method RunRepeat(clock: Clock, child: Tree, stop: bool, times: int, bb: Blackboard)
    returns (st: Status, err: Option<Error>)
    requires Limited(child)
    modifies bb
    ensures Out(st, err, bb.View()) ==
              TickRepeat(clock, child, stop, if times < 0 then 0 else times, old(bb.View()))
    decreases child, 2, 0
  {
    var i := 0;
    while i < times
      invariant 0 <= i && (times >= 0 ==> i <= times)
      invariant TickRepeat(clock, child, stop, if times < 0 then 0 else times - i, bb.View())
             == TickRepeat(clock, child, stop, if times < 0 then 0 else times, old(bb.View()))
    {
      st, err := RunTree(clock, child, bb);
      if err.Some? { return Failure, err; }
      if st == Running { return Running, None; }
      if st == Failure && stop { return Failure, None; }
      i := i + 1;
    }
    return Success, None;
  }

  method RunUntil(clock: Clock, child: Tree, goal: Status, otherwise: Status, max: int, bb: Blackboard)
    returns (st: Status, err: Option<Error>)
    requires Limited(child) && max > 0 && goal != Running
    modifies bb
    ensures Out(st, err, bb.View()) == TickUntil(clock, child, goal, otherwise, max, old(bb.View()))
    decreases child, 2, 0
  {
    var attempts := 0;
    while true
      invariant 0 <= attempts < max
      invariant TickUntil(clock, child, goal, otherwise, max - attempts, bb.View())
             == TickUntil(clock, child, goal, otherwise, max, old(bb.View()))
      decreases max - attempts
    {
      st, err := RunTree(clock, child, bb);
      if err.Some? { return Failure, err; }
      if st == goal { return Success, None; }
      if st == Running { return Running, None; }
      attempts := attempts + 1;
      if attempts >= max { return otherwise, None; }
    }
  }

  method RunTimer(clock: Clock, name: string, duration: int, child: Tree, bb: Blackboard)
    returns (st: Status, err: Option<Error>)
    requires Limited(child)
    modifies bb
    ensures Out(st, err, bb.View()) == Tick(clock, Timer(name, duration, Some(child)), old(bb.View()))
    decreases child, 2, 0
  {
    var key := StartKey(name);
    var ok := key in bb.data;
    var now := bb.Now(clock);
    if !ok {
      bb.data := bb.data[key := Time(now)];
      return Running, None;
    }
    if !Elapsed(bb.data, key, now, duration) {
      return Running, None;
    }
    st, err := RunTree(clock, child, bb);
    bb.data := bb.data - {key};
  }

  method RunCooldown(clock: Clock, name: string, duration: int, successOnly: bool, child: Tree, bb: Blackboard)
    returns (st: Status, err: Option<Error>)
    requires Limited(child)
    modifies bb
    ensures Out(st, err, bb.View()) == Tick(clock, Cooldown(name, duration, successOnly, Some(child)), old(bb.View()))
    decreases child, 2, 0
  {
    var key := LastKey(name);
    var now := bb.Now(clock);
    if key in bb.data && !Elapsed(bb.data, key, now, duration) {
      return Failure, None;
    }
    st, err := RunTree(clock, child, bb);
    bb.log := bb.log + [Event(name, now, st)];
    if successOnly {
      if st == Success { bb.data := bb.data[key := Time(now)]; }
    } else {
      if st != Running { bb.data := bb.data[key := Time(now)]; }
    }
  }
}
