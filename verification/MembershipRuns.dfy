/** What the handlers of internal/server/server.go get done, over segments of runs: a join joins, a
    leave leaves, an accepted connection becomes a client, a finished handler's client is gone.
    Stated on rosters and session lists, whatever other handlers and the acceptor do meanwhile. */
module MembershipRuns {
  import opened Membership

  predicate Listed(s: State, id: ClientId, r: Room) { id in s.sessions && r in s.sessions[id].rooms }

  /** Everything about `id` but room `x` is as it was. */
  ghost predicate OthersKept(s0: State, s: State, id: ClientId, x: Room) {
    forall r :: r != x ==> (InRoom(s, id, r) <==> InRoom(s0, id, r)) && (Listed(s, id, r) <==> Listed(s0, id, r))
  }

  /** How far a join of `x`, taken up in `s0`, has come. */
  ghost predicate Joining(s0: State, s: State, id: ClientId, x: Room) {
    && id in s.sessions && OthersKept(s0, s, id, x)
    && match s.sessions[id].pc
       case FindOrMake(y) => y == x
       case Enter(y) => y == x
       case CountIn(y) => y == x && InRoom(s, id, x)
       case List(y) => y == x && InRoom(s, id, x)
       case Idle => InRoom(s, id, x) && Listed(s, id, x)
       case _ => false
  }

  ghost predicate Quitting(s0: State, s: State, id: ClientId, x: Room) {
    && id in s.sessions && OthersKept(s0, s, id, x)
    && match s.sessions[id].pc
       case Find(y) => y == x
       case Exit(y) => y == x
       case CountOut(y) => y == x && !InRoom(s, id, x)
       case Unlist(y) => y == x && !InRoom(s, id, x)
       case Idle => !InRoom(s, id, x) && !Listed(s, id, x)
       case _ => false
  }

  /** How many steps a handler has before it that is in the middle of a join or a leave. */
  function StepsLeft(pc: Pc): nat {
    match pc
    case FindOrMake(_) => 4
    case Enter(_) => 3
    case CountIn(_) => 2
    case List(_) => 1
    case Find(_) => 4
    case Exit(_) => 3
    case CountOut(_) => 2
    case Unlist(_) => 1
    case _ => 0
  }

  /** A step of someone else leaves the client of `id` where it is. */
  ghost predicate Untouched(s: State, s': State, id: ClientId) {
    && id in s.sessions && id in s'.sessions && s'.sessions[id] == s.sessions[id]
    && forall r :: InRoom(s', id, r) <==> InRoom(s, id, r)
  }

  lemma OthersLeaveIt(max: int, s: State, step: Step, id: ClientId)
    requires Connected(s) && Enabled(max, s, step) && id in s.sessions && (Moves(step) ==> step.id != id)
    ensures Untouched(s, Apply(max, s, step), id)
  {
    if Moves(step) { HandlerIsOwn(max, s, step); }
  }

  lemma JoinAdvances(s0: State, s: State, id: ClientId, x: Room)
    requires id in s.sessions && !s.sessions[id].pc.Idle? && Joining(s0, s, id, x) && Placed(s, id)
    ensures Joining(s0, AdvanceHandler(s, id), id, x)
    ensures StepsLeft(AdvanceHandler(s, id).sessions[id].pc) < StepsLeft(s.sessions[id].pc)
  {
  }

  lemma QuitAdvances(s0: State, s: State, id: ClientId, x: Room)
    requires id in s.sessions && !s.sessions[id].pc.Idle? && Quitting(s0, s, id, x) && Placed(s, id)
    ensures Quitting(s0, AdvanceHandler(s, id), id, x)
    ensures StepsLeft(AdvanceHandler(s, id).sessions[id].pc) < StepsLeft(s.sessions[id].pc)
  {
  }

  lemma UntouchedKeeps(s0: State, s: State, s': State, id: ClientId, x: Room)
    requires Untouched(s, s', id)
    ensures Joining(s0, s, id, x) ==> Joining(s0, s', id, x)
    ensures Quitting(s0, s, id, x) ==> Quitting(s0, s', id, x)
  {
    assert forall r :: Listed(s', id, r) <==> Listed(s, id, r);
    assert OthersKept(s0, s, id, x) ==> OthersKept(s0, s', id, x);
  }

  /** Each step of its own brings a join or a leave nearer to its end, at most four in all; the steps
      of others change nothing about it. */
  lemma HandlerMoves(max: int, s0: State, s: State, step: Step, id: ClientId, x: Room)
    requires Inv(max, s) && Enabled(max, s, step) && id in s.sessions && !s.sessions[id].pc.Idle?
    ensures var s' := Apply(max, s, step);
            && (Joining(s0, s, id, x) ==> Joining(s0, s', id, x))
            && (Quitting(s0, s, id, x) ==> Quitting(s0, s', id, x))
            && (Joining(s0, s, id, x) || Quitting(s0, s, id, x) ==>
                  id in s'.sessions && StepsLeft(s.sessions[id].pc) <= 4 &&
                  if step == Advance(id) then StepsLeft(s'.sessions[id].pc) < StepsLeft(s.sessions[id].pc)
                  else s'.sessions[id].pc == s.sessions[id].pc)
  {
    hide Placed, Bounded, Counts, AdvanceHandler;
    if Moves(step) && step.id == id {
      if Joining(s0, s, id, x) { JoinAdvances(s0, s, id, x); }
      if Quitting(s0, s, id, x) { QuitAdvances(s0, s, id, x); }
    } else {
      OthersLeaveIt(max, s, step, id);
      UntouchedKeeps(s0, s, Apply(max, s, step), id, x);
    }
  }

  lemma BeginsToMove(max: int, s: State, id: ClientId, x: Room)
    ensures Enabled(max, s, BeginJoin(id, x)) ==> Joining(s, Apply(max, s, BeginJoin(id, x)), id, x)
    ensures Enabled(max, s, BeginLeave(id, x)) ==> Quitting(s, Apply(max, s, BeginLeave(id, x)), id, x)
  {
  }

  lemma JoiningIsHandled(s0: State, s: State, id: ClientId, x: Room)
    ensures Joining(s0, s, id, x) || Quitting(s0, s, id, x) ==> id in s.sessions
  {
  }

  lemma {:induction false} JoinRuns(max: int, run: seq<State>, i: nat, k: nat, id: ClientId, x: Room)
    requires Run(max, run) && i < k < |run| && Enabled(max, run[i], BeginJoin(id, x))
    requires run[i+1] == Apply(max, run[i], BeginJoin(id, x))
    requires forall m :: i < m < k ==> !At(run[m], id, Idle)
    ensures Joining(run[i], run[k], id, x)
    decreases k
  {
    hide Inv, Apply, Enabled, Follows, Joining, Quitting;
    if k == i + 1 { BeginsToMove(max, run[i], id, x); }
    else {
      JoinRuns(max, run, i, k - 1, id, x);
      RunKeepsInv(max, run, k - 1);
      var step := StepAt(max, run, k - 1);
      JoiningIsHandled(run[i], run[k-1], id, x);
      HandlerMoves(max, run[i], run[k-1], step, id, x);
    }
  }

  lemma {:induction false} QuitRuns(max: int, run: seq<State>, i: nat, k: nat, id: ClientId, x: Room)
    requires Run(max, run) && i < k < |run| && Enabled(max, run[i], BeginLeave(id, x))
    requires run[i+1] == Apply(max, run[i], BeginLeave(id, x))
    requires forall m :: i < m < k ==> !At(run[m], id, Idle)
    ensures Quitting(run[i], run[k], id, x)
    decreases k
  {
    hide Inv, Apply, Enabled, Follows, Joining, Quitting;
    if k == i + 1 { BeginsToMove(max, run[i], id, x); }
    else {
      QuitRuns(max, run, i, k - 1, id, x);
      RunKeepsInv(max, run, k - 1);
      var step := StepAt(max, run, k - 1);
      JoiningIsHandled(run[i], run[k-1], id, x);
      HandlerMoves(max, run[i], run[k-1], step, id, x);
    }
  }

  lemma StepAt(max: int, run: seq<State>, k: nat) returns (step: Step)
    requires Run(max, run) && k + 1 < |run|
    ensures Enabled(max, run[k], step) && run[k+1] == Apply(max, run[k], step)
  {
    assert Follows(max, run[k], run[k+1]);
    step :| Enabled(max, run[k], step) && run[k+1] == Apply(max, run[k], step);
  }

  /** When the handler of a join is next between messages, its client is in the room and lists it,
      and its other rooms are as before. */
  lemma JoinJoins(max: int, run: seq<State>, i: nat, j: nat, id: ClientId, x: Room)
    requires Run(max, run) && i < j < |run| && Enabled(max, run[i], BeginJoin(id, x))
    requires run[i+1] == Apply(max, run[i], BeginJoin(id, x))
    requires At(run[j], id, Idle) && forall m :: i < m < j ==> !At(run[m], id, Idle)
    ensures x in run[j].rooms && id in run[j].rooms[x].members
    ensures id in run[i].sessions && id in run[j].sessions && x in run[j].sessions[id].rooms
    ensures forall r :: r != x ==>
      && (r in run[j].rooms && id in run[j].rooms[r].members <==> r in run[i].rooms && id in run[i].rooms[r].members)
      && (r in run[j].sessions[id].rooms <==> r in run[i].sessions[id].rooms)
  {
    JoinRuns(max, run, i, j, id, x);
    forall r | r != x
      ensures r in run[j].rooms && id in run[j].rooms[r].members <==> r in run[i].rooms && id in run[i].rooms[r].members
      ensures r in run[j].sessions[id].rooms <==> r in run[i].sessions[id].rooms
    {
      assert InRoom(run[j], id, r) <==> InRoom(run[i], id, r);
      assert Listed(run[j], id, r) <==> Listed(run[i], id, r);
    }
  }

  /** When the handler of a leave is next between messages, its client is not in the room and does
      not list it, and its other rooms are as before. */
  lemma LeaveLeaves(max: int, run: seq<State>, i: nat, j: nat, id: ClientId, x: Room)
    requires Run(max, run) && i < j < |run| && Enabled(max, run[i], BeginLeave(id, x))
    requires run[i+1] == Apply(max, run[i], BeginLeave(id, x))
    requires At(run[j], id, Idle) && forall m :: i < m < j ==> !At(run[m], id, Idle)
    ensures !(x in run[j].rooms && id in run[j].rooms[x].members)
    ensures id in run[i].sessions && id in run[j].sessions && x !in run[j].sessions[id].rooms
    ensures forall r :: r != x ==>
      && (r in run[j].rooms && id in run[j].rooms[r].members <==> r in run[i].rooms && id in run[i].rooms[r].members)
      && (r in run[j].sessions[id].rooms <==> r in run[i].sessions[id].rooms)
  {
    QuitRuns(max, run, i, j, id, x);
    forall r | r != x
      ensures r in run[j].rooms && id in run[j].rooms[r].members <==> r in run[i].rooms && id in run[i].rooms[r].members
      ensures r in run[j].sessions[id].rooms <==> r in run[i].sessions[id].rooms
    {
      assert InRoom(run[j], id, r) <==> InRoom(run[i], id, r);
      assert Listed(run[j], id, r) <==> Listed(run[i], id, r);
    }
  }

  // ---------- Accepting ----------

  /** How far the acceptance of `id` has come. */
  ghost predicate Accepting(s: State, id: ClientId) {
    && (forall r :: !InRoom(s, id, r))
    && match s.acceptor
       case Admitted(a) => a == id
       case Stored(a) => a == id && id in s.clients
       case Counted(a) => a == id && id in s.clients
       case Waiting => id in s.clients && At(s, id, Idle) && s.sessions[id].rooms == {}
  }

  lemma AcceptanceMoves(max: int, s: State, step: Step, id: ClientId)
    requires Connected(s) && Enabled(max, s, step) && Accepting(s, id) && !s.acceptor.Waiting?
    ensures Accepting(Apply(max, s, step), id)
    ensures (step.StoreClient? ==> Apply(max, s, step).acceptor == Stored(id)) && (step.CountClient? ==> Apply(max, s, step).acceptor == Counted(id))
    ensures step.Spawn? ==> Apply(max, s, step).acceptor == Waiting
    ensures !step.StoreClient? && !step.CountClient? && !step.Spawn? ==> Apply(max, s, step).acceptor == s.acceptor
  {
    if Moves(step) {
      HandlerIsOwn(max, s, step);
      HandlerKeepsClients(max, s, step, id);
    }
  }

  lemma HandlerKeepsClients(max: int, s: State, step: Step, id: ClientId)
    requires Enabled(max, s, step) && Moves(step) && step.id != id
    ensures id in Apply(max, s, step).clients <==> id in s.clients
  {
  }

  lemma {:induction false} AcceptanceRuns(max: int, run: seq<State>, i: nat, k: nat, id: ClientId)
    requires Run(max, run) && i < k < |run| && Enabled(max, run[i], Admit(id))
    requires run[i+1] == Apply(max, run[i], Admit(id))
    requires forall m :: i < m < k ==> !run[m].acceptor.Waiting?
    ensures Accepting(run[k], id)
    decreases k
  {
    hide Inv, Connected, Apply, Enabled, Follows, Accepting;
    RunKeepsInv(max, run, k - 1);
    InvConnected(max, run[k-1]);
    if k == i + 1 { AcceptanceBegins(max, run[i], id); }
    else {
      AcceptanceRuns(max, run, i, k - 1, id);
      var step := StepAt(max, run, k - 1);
      AcceptanceMoves(max, run[k-1], step, id);
    }
  }

  lemma AcceptanceBegins(max: int, s: State, id: ClientId)
    requires Connected(s) && Enabled(max, s, Admit(id))
    ensures Accepting(Apply(max, s, Admit(id)), id)
  {
    assert forall r :: InRoom(s, id, r) ==> id in s.sessions;
  }

  lemma InvConnected(max: int, s: State)
    requires Inv(max, s)
    ensures Connected(s)
  {
  }

  /** When the acceptor waits again, the connection it let in is a client on the map with an idle
      handler, and in no group or scope. */
  lemma AcceptedBecomesClient(max: int, run: seq<State>, i: nat, j: nat, id: ClientId)
    requires Run(max, run) && i < j < |run| && Enabled(max, run[i], Admit(id))
    requires run[i+1] == Apply(max, run[i], Admit(id))
    requires run[j].acceptor.Waiting? && forall m :: i < m < j ==> !run[m].acceptor.Waiting?
    ensures id in run[j].clients && id in run[j].sessions && run[j].sessions[id] == Session(Idle, {})
    ensures forall r :: r in run[j].rooms ==> id !in run[j].rooms[r].members
  {
    AcceptanceRuns(max, run, i, j, id);
    forall r | r in run[j].rooms ensures id !in run[j].rooms[r].members { assert !InRoom(run[j], id, r); }
  }

  // ---------- Ending ----------

  ghost predicate GoneIsOut(s: State) { forall id :: id in s.sessions && Gone(s.sessions[id].pc) ==> id !in s.clients }

  lemma StepKeepsOut(max: int, s: State, step: Step)
    requires Connected(s) && GoneIsOut(s) && Enabled(max, s, step)
    ensures GoneIsOut(Apply(max, s, step))
  {
    var s' := Apply(max, s, step);
    if Moves(step) {
      HandlerIsOwn(max, s, step);
      forall id | id in s'.sessions && Gone(s'.sessions[id].pc) ensures id !in s'.clients {
        if id != step.id { HandlerKeepsClients(max, s, step, id); }
      }
    }
  }

  lemma {:induction false} RunKeepsOut(max: int, run: seq<State>, i: nat)
    requires Run(max, run) && i < |run|
    ensures GoneIsOut(run[i])
  {
    if i > 0 {
      RunKeepsOut(max, run, i - 1);
      RunKeepsInv(max, run, i - 1);
      InvConnected(max, run[i-1]);
      hide Inv, Connected, GoneIsOut;
      var step := StepAt(max, run, i - 1);
      StepKeepsOut(max, run[i-1], step);
    }
  }

  /** The client of a finished handler is off the map and in no group or scope. */
  lemma FinishedIsGone(max: int, run: seq<State>, i: nat, id: ClientId)
    requires Run(max, run) && i < |run| && At(run[i], id, Done)
    ensures id !in run[i].clients
    ensures forall r :: r in run[i].rooms ==> id !in run[i].rooms[r].members
  {
    RunKeepsOut(max, run, i);
    MembershipIsConsistent(max, run, i);
  }

  /** What may happen next: the acceptor lets a new connection in below the maximum and turns it away
      from there on; a handler between messages takes up any named join or leave, or ends. */
  lemma StepsOffered(max: int, s: State, id: ClientId, x: Room)
    ensures Enabled(max, s, Admit(id)) <==> s.acceptor == Waiting && s.clientCount < max && id !in s.used
    ensures Enabled(max, s, Reject) <==> s.acceptor == Waiting && s.clientCount >= max
    ensures Enabled(max, s, BeginJoin(id, x)) <==> id in s.sessions && s.sessions[id].pc == Idle && x.name != ""
    ensures Enabled(max, s, BeginLeave(id, x)) <==> id in s.sessions && s.sessions[id].pc == Idle && x.name != ""
    ensures Enabled(max, s, BeginEnd(id)) <==> id in s.sessions && s.sessions[id].pc == Idle
    ensures Enabled(max, s, StoreClient) <==> s.acceptor.Admitted?
    ensures Enabled(max, s, CountClient) <==> s.acceptor.Stored?
    ensures Enabled(max, s, Spawn) <==> s.acceptor.Counted?
    ensures Enabled(max, s, BeginEnd(id)) ==> At(Apply(max, s, BeginEnd(id)), id, Disconnect)
  {
  }

  /** The groups or scopes a handler has still to visit are there. */
  ghost predicate PendingThere(s: State) {
    forall id, r :: id in s.sessions && (s.sessions[id].pc.Sweep? || s.sessions[id].pc.SweepCount?) && r in s.sessions[id].pc.pending ==>
      r in s.rooms && r.kind == s.sessions[id].pc.kind
  }

  lemma StepKeepsPending(max: int, s: State, step: Step)
    requires PendingThere(s) && Enabled(max, s, step)
    ensures PendingThere(Apply(max, s, step))
  {
    var s' := Apply(max, s, step);
    if Moves(step) {
      HandlerIsOwn(max, s, step);
      OwnPendingThere(max, s, step);
    }
  }

  lemma OwnPendingThere(max: int, s: State, step: Step)
    requires PendingThere(s) && Enabled(max, s, step) && Moves(step)
    ensures var s' := Apply(max, s, step);
            step.id in s'.sessions &&
            var pc := s'.sessions[step.id].pc;
            pc.Sweep? || pc.SweepCount? ==> forall r :: r in pc.pending ==> r in s'.rooms && r.kind == pc.kind
  {
  }

  lemma {:induction false} RunKeepsPending(max: int, run: seq<State>, i: nat)
    requires Run(max, run) && i < |run|
    ensures PendingThere(run[i])
  {
    if i > 0 {
      RunKeepsPending(max, run, i - 1);
      hide PendingThere;
      var step := StepAt(max, run, i - 1);
      StepKeepsPending(max, run[i-1], step);
    }
  }

  /** How far a handler that is ending has got, and what it has left to do there. */
  function Stage(pc: Pc): nat {
    match pc
    case Disconnect => 4
    case CountClientOut => 3
    case Sweep(kind, _) => if kind == Groups then 2 else 1
    case SweepCount(_, kind, _) => if kind == Groups then 2 else 1
    case _ => 0
  }

  function Chores(pc: Pc): nat {
    match pc
    case Sweep(_, pending) => 2 * |pending|
    case SweepCount(_, _, pending) => 2 * |pending| + 1
    case _ => 0
  }

  /** A handler that is ending can always go on, and comes nearer to having ended. */
  lemma EndGoesOn(max: int, run: seq<State>, i: nat, id: ClientId) returns (step: Step)
    requires Run(max, run) && i < |run| && id in run[i].sessions && (run[i].sessions[id].pc == Disconnect || Gone(run[i].sessions[id].pc))
    requires run[i].sessions[id].pc != Done
    ensures Enabled(max, run[i], step) && Moves(step) && step.id == id && id in Apply(max, run[i], step).sessions
    ensures var pc, pc' := run[i].sessions[id].pc, Apply(max, run[i], step).sessions[id].pc;
            && (pc' == Done || Gone(pc'))
            && (Stage(pc') < Stage(pc) || (Stage(pc') == Stage(pc) && Chores(pc') < Chores(pc)))
  {
    RunKeepsPending(max, run, i);
    RunKeepsInv(max, run, i);
    RoomExists(run[i], id);
    step := NextChore(max, run[i], id);
  }

  lemma NextChore(max: int, s: State, id: ClientId) returns (step: Step)
    requires PendingThere(s) && id in s.sessions && (s.sessions[id].pc == Disconnect || Gone(s.sessions[id].pc)) && s.sessions[id].pc != Done
    requires s.sessions[id].pc.SweepCount? ==> s.sessions[id].pc.room in s.rooms
    ensures Enabled(max, s, step) && Moves(step) && step.id == id && id in Apply(max, s, step).sessions
    ensures var pc, pc' := s.sessions[id].pc, Apply(max, s, step).sessions[id].pc;
            && (pc' == Done || Gone(pc'))
            && (Stage(pc') < Stage(pc) || (Stage(pc') == Stage(pc) && Chores(pc') < Chores(pc)))
  {
    match s.sessions[id].pc
    case Sweep(kind, pending) =>
      if pending == {} { step := EndRange(id); }
      else {
        var r :| r in pending;
        step := Visit(id, r);
        assert |pending - {r}| == |pending| - 1;
      }
    case _ => step := Advance(id);
  }
}
