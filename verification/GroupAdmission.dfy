/** BaseGroup.AddClient and RemoveClient of internal/core/protocol/group.go, called from many
    goroutines at once. The size check, the map operation and the counter update of a call are
    separate atomic steps, so several calls can pass the check together. */
module GroupAdmission {
  import opened FiniteSets

  type ClientId = nat
  type Caller = nat

  /** Where a call stands; a call that has returned is gone from the map. */
  datatype Call =
    | AddCall(client: ClientId) | Open(client: ClientId) | Admitted(client: ClientId) | CountUp
    | RemoveCall(client: ClientId) | CountDown

  datatype Group = Group(members: set<ClientId>, count: int, closed: bool, calls: map<Caller, Call>)

  const EMPTY := Group({}, 0, false, map[])

  datatype Step =
    | BeginAdd(caller: Caller, client: ClientId)
    | BeginRemove(caller: Caller, client: ClientId)
    | Advance(caller: Caller)
    | Close

  predicate IsAdd(call: Call) {
    call.AddCall? || call.Open? || call.Admitted? || call.CountUp?
  }

  function Adding(g: Group): set<Caller> {
    set t | t in g.calls && IsAdd(g.calls[t])
  }

  /** At most `adders` AddClient calls are in flight at a time; RemoveClient calls are not limited. */
  predicate Enabled(adders: nat, g: Group, step: Step) {
    match step
    case BeginAdd(t, c) => t !in g.calls && |Adding(g)| < adders
    case BeginRemove(t, c) => t !in g.calls
    case Advance(t) => t in g.calls
    case Close => true
  }

  function Return(g: Group, t: Caller): Group {
    g.(calls := g.calls - {t})
  }

  function AdvanceCall(max: int, g: Group, t: Caller): Group
    requires t in g.calls
  {
    match g.calls[t]
    case AddCall(c) => if g.closed then Return(g, t) else g.(calls := g.calls[t := Open(c)])
    case Open(c) => if max > 0 && g.count >= max then Return(g, t) else g.(calls := g.calls[t := Admitted(c)])
    case Admitted(c) =>
      if c in g.members then Return(g, t)
      else g.(members := g.members + {c}, calls := g.calls[t := CountUp])
    case CountUp => Return(g.(count := g.count + 1), t)
    case RemoveCall(c) =>
      if c in g.members then g.(members := g.members - {c}, calls := g.calls[t := CountDown])
      else Return(g, t)
    case CountDown => Return(g.(count := g.count - 1), t)
  }

  function Apply(max: int, adders: nat, g: Group, step: Step): Group
    requires Enabled(adders, g, step)
  {
    match step
    case BeginAdd(t, c) => g.(calls := g.calls[t := AddCall(c)])
    case BeginRemove(t, c) => g.(calls := g.calls[t := RemoveCall(c)])
    case Advance(t) => AdvanceCall(max, g, t)
    case Close => g.(closed := true)
  }

  // ---------- The invariant ----------

  function Those(g: Group, which: Call -> bool): set<Caller> {
    set t | t in g.calls && which(g.calls[t])
  }

  const ADMITTED: Call -> bool := (c: Call) => c.Admitted?
  const UP: Call -> bool := (c: Call) => c.CountUp?
  const DOWN: Call -> bool := (c: Call) => c.CountDown?

  ghost predicate Inv(max: int, adders: nat, g: Group) {
    && g.count == |g.members| - |Those(g, UP)| + |Those(g, DOWN)|
    && |Those(g, IsAdd)| <= adders
    && (max > 0 && adders > 0 ==> |g.members| + |Those(g, ADMITTED)| <= max + adders - 1)
  }

  function Bit(b: bool): int { if b then 1 else 0 }

  lemma SizeWithout(s: set<Caller>, t: Caller)
    ensures |s| == |s - {t}| + Bit(t in s)
  {
  }

  /** One call changes state: each class of calls loses and gains at most that one. */
  lemma CallMoves(g: Group, g': Group, t: Caller, which: Call -> bool)
    requires forall u :: u != t ==> (u in g.calls <==> u in g'.calls) && (u in g.calls ==> g'.calls[u] == g.calls[u])
    ensures |Those(g', which)| - |Those(g, which)| ==
              Bit(t in g'.calls && which(g'.calls[t])) - Bit(t in g.calls && which(g.calls[t]))
  {
    forall u | u != t ensures u in Those(g, which) <==> u in Those(g', which) {
    }
    assert Those(g, which) - {t} == Those(g', which) - {t};
    SizeWithout(Those(g, which), t);
    SizeWithout(Those(g', which), t);
  }

  lemma Disjoint(g: Group)
    ensures |Those(g, ADMITTED)| + |Those(g, UP)| <= |Those(g, IsAdd)|
  {
    assert Those(g, ADMITTED) + Those(g, UP) <= Those(g, IsAdd);
    assert Those(g, ADMITTED) !! Those(g, UP);
    SubsetSize(Those(g, ADMITTED) + Those(g, UP), Those(g, IsAdd));
  }

  /** How the four classes of calls change together when one call does. */
  lemma ClassesMove(g: Group, g': Group, t: Caller)
    requires forall u :: u != t ==> (u in g.calls <==> u in g'.calls) && (u in g.calls ==> g'.calls[u] == g.calls[u])
    ensures |Those(g', UP)| - |Those(g, UP)| ==
              Bit(t in g'.calls && g'.calls[t].CountUp?) - Bit(t in g.calls && g.calls[t].CountUp?)
    ensures |Those(g', DOWN)| - |Those(g, DOWN)| ==
              Bit(t in g'.calls && g'.calls[t].CountDown?) - Bit(t in g.calls && g.calls[t].CountDown?)
    ensures |Those(g', ADMITTED)| - |Those(g, ADMITTED)| ==
              Bit(t in g'.calls && g'.calls[t].Admitted?) - Bit(t in g.calls && g.calls[t].Admitted?)
    ensures |Those(g', IsAdd)| - |Those(g, IsAdd)| ==
              Bit(t in g'.calls && IsAdd(g'.calls[t])) - Bit(t in g.calls && IsAdd(g.calls[t]))
    ensures |Those(g', ADMITTED)| + |Those(g', UP)| <= |Those(g', IsAdd)|
  {
    CallMoves(g, g', t, UP);
    CallMoves(g, g', t, DOWN);
    CallMoves(g, g', t, IsAdd);
    CallMoves(g, g', t, ADMITTED);
    Disjoint(g');
  }

  lemma AdvanceKeepsInv(max: int, adders: nat, g: Group, t: Caller)
    requires Inv(max, adders, g) && t in g.calls
    ensures Inv(max, adders, AdvanceCall(max, g, t))
  {
    hide Those;
    var call := g.calls[t];
    ClassesMove(g, AdvanceCall(max, g, t), t);
    match call
    case AddCall(c) =>
    case Open(c) =>
    case Admitted(c) =>
    case CountUp =>
    case RemoveCall(c) =>
    case CountDown =>
  }

  lemma StepKeepsInv(max: int, adders: nat, g: Group, step: Step)
    requires Inv(max, adders, g) && Enabled(adders, g, step)
    ensures Inv(max, adders, Apply(max, adders, g, step))
  {
    var g' := Apply(max, adders, g, step);
    match step
    case Close =>
      assert Those(g', UP) == Those(g, UP) && Those(g', DOWN) == Those(g, DOWN);
      assert Those(g', IsAdd) == Those(g, IsAdd) && Those(g', ADMITTED) == Those(g, ADMITTED);
    case Advance(t) => AdvanceKeepsInv(max, adders, g, t);
    case BeginAdd(t, c) =>
      assert Those(g, IsAdd) == Adding(g);
      ClassesMove(g, g', t);
    case BeginRemove(t, c) => ClassesMove(g, g', t);
  }

  // ---------- Every run ----------

  ghost predicate Follows(max: int, adders: nat, g: Group, g': Group) {
    exists step :: Enabled(adders, g, step) && g' == Apply(max, adders, g, step)
  }

  ghost predicate Run(max: int, adders: nat, run: seq<Group>) {
    && |run| > 0 && run[0] == EMPTY
    && forall i, j :: 0 <= i < j < |run| && j <= i + 1 ==> Follows(max, adders, run[i], run[j])
  }

  ghost predicate Reachable(max: int, adders: nat, g: Group) {
    exists run :: Run(max, adders, run) && run[|run|-1] == g
  }

  lemma {:induction false} RunKeepsInv(max: int, adders: nat, run: seq<Group>, i: nat)
    requires Run(max, adders, run) && i < |run|
    ensures Inv(max, adders, run[i])
  {
    if i == 0 {
      assert Those(EMPTY, UP) == {} && Those(EMPTY, DOWN) == {} && Those(EMPTY, IsAdd) == {} && Those(EMPTY, ADMITTED) == {};
    } else {
      RunKeepsInv(max, adders, run, i - 1);
      assert Follows(max, adders, run[i-1], run[i]);
      var step :| Enabled(adders, run[i-1], step) && run[i] == Apply(max, adders, run[i-1], step);
      StepKeepsInv(max, adders, run[i-1], step);
    }
  }

  /** Membership never exceeds the limit by as many as are adding at once. */
  lemma AdmissionIsBounded(max: int, adders: nat, g: Group)
    requires max > 0 && adders > 0 && Reachable(max, adders, g)
    ensures |g.members| <= max + adders - 1
  {
    var run :| Run(max, adders, run) && run[|run|-1] == g;
    RunKeepsInv(max, adders, run, |run| - 1);
  }

  /** With no call in flight the counter is the number of members. */
  lemma QuietCountIsExact(max: int, adders: nat, g: Group)
    requires Reachable(max, adders, g) && g.calls == map[]
    ensures g.count == |g.members|
  {
    var run :| Run(max, adders, run) && run[|run|-1] == g;
    RunKeepsInv(max, adders, run, |run| - 1);
    assert Those(g, UP) == {} && Those(g, DOWN) == {};
  }

  // ---------- The bound is reached ----------

  lemma Extends(max: int, adders: nat, g: Group, step: Step)
    requires Reachable(max, adders, g) && Enabled(adders, g, step)
    ensures Reachable(max, adders, Apply(max, adders, g, step))
  {
    var run :| Run(max, adders, run) && run[|run|-1] == g;
    var g' := Apply(max, adders, g, step);
    assert Follows(max, adders, g, g');
    var run' := run + [g'];
    assert Run(max, adders, run') && run'[|run'|-1] == g';
  }

  /** `k` clients in the group and no call in flight. */
  function Filled(k: nat): Group {
    Group(Upto(k), k, false, map[])
  }

  lemma {:induction false} FillUp(max: int, adders: nat, k: nat)
    requires adders > 0 && k <= max
    ensures Reachable(max, adders, Filled(k))
  {
    if k == 0 {
      assert Run(max, adders, [EMPTY]);
    } else {
      FillUp(max, adders, k - 1);
      var g := Filled(k - 1);
      assert Adding(g) == {};
      AddPasses(max, adders, g, 0, k - 1);
      var g3 := g.(calls := g.calls[0 := Admitted(k - 1)]);
      AddStores(max, adders, g3, 0);
      var g4 := Group(g.members + {k - 1}, k - 1, false, g3.calls[0 := CountUp]);
      Extends(max, adders, g4, Advance(0));
      assert g4.calls - {0} == map[] && g4.members == Upto(k);
    }
  }

  /** A call begins and passes both checks. */
  lemma AddPasses(max: int, adders: nat, g: Group, t: Caller, c: ClientId)
    requires Reachable(max, adders, g) && t !in g.calls && |Adding(g)| < adders
    requires !g.closed && (max > 0 ==> g.count < max)
    ensures Reachable(max, adders, g.(calls := g.calls[t := Admitted(c)]))
  {
    hide Reachable;
    Extends(max, adders, g, BeginAdd(t, c));
    var g1 := g.(calls := g.calls[t := AddCall(c)]);
    Extends(max, adders, g1, Advance(t));
    var g2 := g.(calls := g.calls[t := Open(c)]);
    assert g1.calls[t := Open(c)] == g2.calls;
    Extends(max, adders, g2, Advance(t));
    assert g2.calls[t := Admitted(c)] == g.calls[t := Admitted(c)];
  }

  lemma AddStores(max: int, adders: nat, g: Group, t: Caller)
    requires Reachable(max, adders, g) && t in g.calls && g.calls[t].Admitted? && g.calls[t].client !in g.members
    ensures Reachable(max, adders, g.(members := g.members + {g.calls[t].client}, calls := g.calls[t := CountUp]))
  {
    hide Reachable;
    Extends(max, adders, g, Advance(t));
  }

  /** `max - 1` members, and `j` callers past the size check. */
  function Crowd(max: nat, j: nat): Group
    requires max > 0
  {
    Group(Upto(max - 1), max - 1, false, map t: nat | t in Upto(j) :: Admitted(max - 1 + t))
  }

  lemma NoCrowd(max: nat)
    requires max > 0
    ensures Crowd(max, 0) == Filled(max - 1)
  {
    assert Crowd(max, 0).calls == map[];
  }

  lemma CrowdGrows(max: nat, j: nat)
    requires max > 0 && j > 0
    ensures var g := Crowd(max, j - 1);
            && Crowd(max, j) == g.(calls := g.calls[j - 1 := Admitted(max - 1 + (j - 1))])
            && Adding(g) == Upto(j - 1) && j - 1 !in g.calls && !g.closed && g.count == max - 1
  {
    var a, b := Crowd(max, j).calls, Crowd(max, j - 1).calls[j - 1 := Admitted(max - 1 + (j - 1))];
    forall t ensures (t in a <==> t in b) && (t in a ==> a[t] == b[t]) {
    }
    assert a == b;
  }

  lemma {:induction false} CrowdGathers(max: nat, adders: nat, j: nat)
    requires max > 0 && 0 < j <= adders
    ensures Reachable(max, adders, Crowd(max, j))
  {
    hide Reachable, Crowd;
    if j == 1 {
      FillUp(max, adders, max - 1);
      NoCrowd(max);
    } else {
      CrowdGathers(max, adders, j - 1);
    }
    CrowdGrows(max, j);
    AddPasses(max, adders, Crowd(max, j - 1), j - 1, max - 1 + (j - 1));
  }

  /** The same crowd after its first `j` callers stored their clients. */
  function Rush(max: nat, n: nat, j: nat): Group
    requires max > 0
  {
    Group(Upto(max - 1 + j), max - 1, false,
          map t: nat | t in Upto(n) :: if t < j then CountUp else Admitted(max - 1 + t))
  }

  lemma RushStarts(max: nat, n: nat)
    requires max > 0
    ensures Rush(max, n, 0) == Crowd(max, n)
  {
    assert Rush(max, n, 0).calls == Crowd(max, n).calls;
  }

  lemma RushGrows(max: nat, n: nat, j: nat)
    requires max > 0 && 0 < j <= n
    ensures var g := Rush(max, n, j - 1);
            && j - 1 in g.calls && g.calls[j - 1] == Admitted(max - 1 + (j - 1)) && max - 1 + (j - 1) !in g.members
            && Rush(max, n, j) == g.(members := g.members + {max - 1 + (j - 1)}, calls := g.calls[j - 1 := CountUp])
  {
    var g := Rush(max, n, j - 1);
    RushCalls(max, n, j);
    assert g.members + {max - 1 + (j - 1)} == Rush(max, n, j).members;
  }

  lemma RushCalls(max: nat, n: nat, j: nat)
    requires max > 0 && 0 < j <= n
    ensures Rush(max, n, j).calls == Rush(max, n, j - 1).calls[j - 1 := CountUp]
  {
    var a, b := Rush(max, n, j).calls, Rush(max, n, j - 1).calls[j - 1 := CountUp];
    forall t ensures (t in a <==> t in b) && (t in a ==> a[t] == b[t]) {
    }
    assert a == b;
  }

  lemma {:induction false} RushEnters(max: nat, adders: nat, j: nat)
    requires max > 0 && 0 < adders && j <= adders
    ensures Reachable(max, adders, Rush(max, adders, j))
  {
    hide Reachable, Rush, Crowd;
    if j == 0 {
      CrowdGathers(max, adders, adders);
      RushStarts(max, adders);
    } else {
      RushEnters(max, adders, j - 1);
      RushGrows(max, adders, j);
      AddStores(max, adders, Rush(max, adders, j - 1), j - 1);
    }
  }

  /** Whatever the limit and however many add at once, the largest group any run reaches is
      exactly the limit plus the adders less one. */
  lemma LargestGroup(max: nat, adders: nat)
    requires max > 0 && adders > 0
    ensures exists g :: Reachable(max, adders, g) && |g.members| == max + adders - 1
    ensures forall g :: Reachable(max, adders, g) ==> |g.members| <= max + adders - 1
  {
    RushEnters(max, adders, adders);
    assert |Rush(max, adders, adders).members| == max + adders - 1;
    forall g | Reachable(max, adders, g) ensures |g.members| <= max + adders - 1 {
      AdmissionIsBounded(max, adders, g);
    }
  }

  // ---------- What each call does ----------

  predicate Adds(call: Call, c: ClientId) { call == AddCall(c) || call == Open(c) || call == Admitted(c) }

  lemma StepAt(max: int, adders: nat, run: seq<Group>, k: nat) returns (step: Step)
    requires Run(max, adders, run) && k + 1 < |run|
    ensures Enabled(adders, run[k], step) && run[k+1] == Apply(max, adders, run[k], step)
  {
    assert Follows(max, adders, run[k], run[k+1]);
    step :| Enabled(adders, run[k], step) && run[k+1] == Apply(max, adders, run[k], step);
  }

  /** Once a group is closed and no call is past the check for that, nobody is admitted any more. */
  lemma {:induction false} ClosedAdmitsNobody(max: int, adders: nat, run: seq<Group>, i: nat, j: nat)
    requires Run(max, adders, run) && i <= j < |run| && run[i].closed
    requires forall t :: t in run[i].calls ==> !run[i].calls[t].Open? && !run[i].calls[t].Admitted?
    ensures run[j].closed && run[j].members <= run[i].members
    ensures forall t :: t in run[j].calls ==> !run[j].calls[t].Open? && !run[j].calls[t].Admitted?
    decreases j
  {
    if i < j {
      ClosedAdmitsNobody(max, adders, run, i, j - 1);
      var step := StepAt(max, adders, run, j - 1);
      ClosedStep(max, adders, run[j-1], step);
    }
  }

  lemma ClosedStep(max: int, adders: nat, g: Group, step: Step)
    requires Enabled(adders, g, step) && g.closed
    requires forall t :: t in g.calls ==> !g.calls[t].Open? && !g.calls[t].Admitted?
    ensures var g' := Apply(max, adders, g, step);
            && g'.closed && g'.members <= g.members
            && forall t :: t in g'.calls ==> !g'.calls[t].Open? && !g'.calls[t].Admitted?
  {
  }

  /** A call that finds a limited group full leaves it as it is. */
  lemma FullRefuses(max: int, adders: nat, g: Group, t: Caller)
    requires t in g.calls && g.calls[t].Open? && max > 0 && g.count >= max
    ensures var g' := Apply(max, adders, g, Advance(t)); g'.members == g.members && g'.count == g.count && t !in g'.calls
  {
  }

  ghost predicate Removing(g: Group, t: Caller, c: ClientId) {
    if t in g.calls then g.calls[t] == RemoveCall(c) || (g.calls[t] == CountDown && c !in g.members) else c !in g.members
  }

  lemma RemovalMoves(max: int, adders: nat, g: Group, step: Step, t: Caller, c: ClientId)
    requires Enabled(adders, g, step) && t in g.calls && Removing(g, t, c)
    requires forall u :: u in g.calls && u != t ==> !Adds(g.calls[u], c)
    ensures Removing(Apply(max, adders, g, step), t, c)
  {
  }

  lemma {:induction false} RemovalRuns(max: int, adders: nat, run: seq<Group>, i: nat, j: nat, t: Caller, c: ClientId)
    requires Run(max, adders, run) && i < j < |run| && Enabled(adders, run[i], BeginRemove(t, c))
    requires run[i+1] == Apply(max, adders, run[i], BeginRemove(t, c))
    requires forall m :: i < m < j ==> t in run[m].calls
    requires forall m, u :: i <= m <= j && u in run[m].calls && u != t ==> !Adds(run[m].calls[u], c)
    ensures Removing(run[j], t, c)
    decreases j
  {
    hide Adds;
    if i + 1 < j {
      RemovalRuns(max, adders, run, i, j - 1, t, c);
      var step := StepAt(max, adders, run, j - 1);
      RemovalMoves(max, adders, run[j-1], step, t, c);
    }
  }

  /** When a RemoveClient returns, and no AddClient of the client ran meanwhile, the client is no member. */
  lemma RemoveRemoves(max: int, adders: nat, run: seq<Group>, i: nat, j: nat, t: Caller, c: ClientId)
    requires Run(max, adders, run) && i < j < |run| && Enabled(adders, run[i], BeginRemove(t, c))
    requires run[i+1] == Apply(max, adders, run[i], BeginRemove(t, c))
    requires t !in run[j].calls && forall m :: i < m < j ==> t in run[m].calls
    requires forall m, u :: i <= m <= j && u in run[m].calls && u != t ==> !Adds(run[m].calls[u], c)
    ensures c !in run[j].members
  {
    hide Run, Adds;
    RemovalRuns(max, adders, run, i, j, t, c);
  }

  ghost predicate Joining(g: Group, t: Caller, c: ClientId) {
    if t in g.calls then Adds(g.calls[t], c) || (g.calls[t] == CountUp && c in g.members) else c in g.members
  }

  lemma AdditionMoves(max: int, adders: nat, g: Group, step: Step, t: Caller, c: ClientId)
    requires Enabled(adders, g, step) && t in g.calls && Joining(g, t, c)
    requires !g.closed && (max > 0 ==> g.count < max)
    requires forall u :: u in g.calls && u != t ==> g.calls[u] != RemoveCall(c)
    ensures Joining(Apply(max, adders, g, step), t, c)
  {
  }

  lemma {:induction false} AdditionRuns(max: int, adders: nat, run: seq<Group>, i: nat, j: nat, t: Caller, c: ClientId)
    requires Run(max, adders, run) && i < j < |run| && Enabled(adders, run[i], BeginAdd(t, c))
    requires run[i+1] == Apply(max, adders, run[i], BeginAdd(t, c))
    requires forall m :: i < m < j ==> t in run[m].calls
    requires forall m :: i <= m < j ==> !run[m].closed && (max > 0 ==> run[m].count < max)
    requires forall m, u :: i <= m <= j && u in run[m].calls && u != t ==> run[m].calls[u] != RemoveCall(c)
    ensures Joining(run[j], t, c)
    decreases j
  {
    if i + 1 < j {
      AdditionRuns(max, adders, run, i, j - 1, t, c);
      var step := StepAt(max, adders, run, j - 1);
      AdditionMoves(max, adders, run[j-1], step, t, c);
    }
  }

  /** When an AddClient returns, and the group was neither closed nor full meanwhile and no RemoveClient
      of the client ran, the client is a member. */
  lemma AddAdds(max: int, adders: nat, run: seq<Group>, i: nat, j: nat, t: Caller, c: ClientId)
    requires Run(max, adders, run) && i < j < |run| && Enabled(adders, run[i], BeginAdd(t, c))
    requires run[i+1] == Apply(max, adders, run[i], BeginAdd(t, c))
    requires t !in run[j].calls && forall m :: i < m < j ==> t in run[m].calls
    requires forall m :: i <= m < j ==> !run[m].closed && (max > 0 ==> run[m].count < max)
    requires forall m, u :: i <= m <= j && u in run[m].calls && u != t ==> run[m].calls[u] != RemoveCall(c)
    ensures c in run[j].members
  {
    hide Run;
    AdditionRuns(max, adders, run, i, j, t, c);
  }

  /** Each call returns after at most four steps of its own, which nothing else delays. */
  lemma CallsEnd(max: int, adders: nat, g: Group, t: Caller)
    requires t in g.calls
    ensures var g' := Apply(max, adders, g, Advance(t));
            t in g'.calls ==> CallLeft(g'.calls[t]) < CallLeft(g.calls[t]) <= 4
  {
  }

  function CallLeft(call: Call): nat {
    match call
    case AddCall(_) => 4
    case Open(_) => 3
    case Admitted(_) => 2
    case CountUp => 1
    case RemoveCall(_) => 2
    case CountDown => 1
  }
}
