/** Who is in which group and scope (internal/server/server.go): one acceptor and one handler
    per client, running concurrently over shared maps and counters. Every map operation and
    every counter update is one atomic step, and a map update and the counter update that
    goes with it are two. A run is any interleaving of the steps. */
module Membership {

  type ClientId = nat

  datatype Kind = Groups | Scopes

  datatype Room = Room(kind: Kind, name: string)

  /** Where a handler stands; `room` is the group or scope it is working on. */
  datatype Pc =
    | Idle
    | FindOrMake(room: Room) | Enter(room: Room) | CountIn(room: Room) | List(room: Room)
    | Find(room: Room) | Exit(room: Room) | CountOut(room: Room) | Unlist(room: Room)
    | Disconnect | CountClientOut
    | Sweep(kind: Kind, pending: set<Room>)
    | SweepCount(room: Room, kind: Kind, pending: set<Room>)
    | Done

  /** The members a group or scope lists, and its own count of them. */
  datatype Roster = Roster(members: set<ClientId>, count: int)

  datatype Session = Session(pc: Pc, rooms: set<Room>)

  datatype Acceptor = Waiting | Admitted(id: ClientId) | Stored(id: ClientId) | Counted(id: ClientId)

  datatype State = State(clients: set<ClientId>, clientCount: int, rooms: map<Room, Roster>,
                         sessions: map<ClientId, Session>, acceptor: Acceptor, used: set<ClientId>)

  const START := State({}, 0, map[], map[], Waiting, {})

  datatype Step =
    | Reject | Admit(id: ClientId) | StoreClient | CountClient | Spawn
    | BeginJoin(id: ClientId, room: Room) | BeginLeave(id: ClientId, room: Room) | BeginEnd(id: ClientId)
    | Advance(id: ClientId) | Visit(id: ClientId, room: Room) | EndRange(id: ClientId)

  predicate At(s: State, id: ClientId, pc: Pc) {
    id in s.sessions && s.sessions[id].pc == pc
  }

  /** The steps a state allows. Client ids are never used twice; the handlers ignore empty names. */
  predicate Enabled(max: int, s: State, step: Step) {
    match step
    case Reject => s.acceptor.Waiting? && s.clientCount >= max
    case Admit(id) => s.acceptor.Waiting? && s.clientCount < max && id !in s.used
    case StoreClient => s.acceptor.Admitted?
    case CountClient => s.acceptor.Stored?
    case Spawn => s.acceptor.Counted?
    case BeginJoin(id, room) => At(s, id, Idle) && room.name != ""
    case BeginLeave(id, room) => At(s, id, Idle) && room.name != ""
    case BeginEnd(id) => At(s, id, Idle)
    case Advance(id) => id in s.sessions && !s.sessions[id].pc.Idle? && !s.sessions[id].pc.Sweep? && !s.sessions[id].pc.Done?
    case Visit(id, room) => id in s.sessions && s.sessions[id].pc.Sweep? && room in s.rooms && room.kind == s.sessions[id].pc.kind
    case EndRange(id) => id in s.sessions && s.sessions[id].pc.Sweep? && s.sessions[id].pc.pending == {}
  }

  function Goto(s: State, id: ClientId, pc: Pc): State
    requires id in s.sessions
  {
    s.(sessions := s.sessions[id := s.sessions[id].(pc := pc)])
  }

  function SetRoster(s: State, room: Room, roster: Roster): State {
    s.(rooms := s.rooms[room := roster])
  }

  /** The rooms a Range over one map is bound to visit: those there when it starts. */
  function RangeOver(s: State, kind: Kind): set<Room> {
    set r | r in s.rooms && r.kind == kind
  }

  /** One step of a handler that is not between messages. */
  function AdvanceHandler(s: State, id: ClientId): State
    requires id in s.sessions
  {
    var session := s.sessions[id];
    match session.pc
    case FindOrMake(r) =>
      Goto(if r in s.rooms then s else SetRoster(s, r, Roster({}, 0)), id, Enter(r))
    case Enter(r) =>
      if r !in s.rooms then s
      else if id in s.rooms[r].members then Goto(s, id, List(r))
      else Goto(SetRoster(s, r, s.rooms[r].(members := s.rooms[r].members + {id})), id, CountIn(r))
    case CountIn(r) =>
      if r !in s.rooms then s
      else Goto(SetRoster(s, r, s.rooms[r].(count := s.rooms[r].count + 1)), id, List(r))
    case List(r) => s.(sessions := s.sessions[id := Session(Idle, session.rooms + {r})])
    case Find(r) => Goto(s, id, if r in s.rooms then Exit(r) else Unlist(r))
    case Exit(r) =>
      if r !in s.rooms then s
      else if id !in s.rooms[r].members then Goto(s, id, Unlist(r))
      else Goto(SetRoster(s, r, s.rooms[r].(members := s.rooms[r].members - {id})), id, CountOut(r))
    case CountOut(r) =>
      if r !in s.rooms then s
      else Goto(SetRoster(s, r, s.rooms[r].(count := s.rooms[r].count - 1)), id, Unlist(r))
    case Unlist(r) => s.(sessions := s.sessions[id := Session(Idle, session.rooms - {r})])
    case Disconnect => Goto(s.(clients := s.clients - {id}), id, CountClientOut)
    case CountClientOut => Goto(s.(clientCount := s.clientCount - 1), id, Sweep(Groups, RangeOver(s, Groups)))
    case SweepCount(r, kind, pending) =>
      if r !in s.rooms then s
      else Goto(SetRoster(s, r, s.rooms[r].(count := s.rooms[r].count - 1)), id, Sweep(kind, pending))
    case _ => s
  }

  function Apply(max: int, s: State, step: Step): State
    requires Enabled(max, s, step)
  {
    match step
    case Reject => s
    case Admit(id) => s.(acceptor := Admitted(id), used := s.used + {id})
    case StoreClient => s.(clients := s.clients + {s.acceptor.id}, acceptor := Stored(s.acceptor.id))
    case CountClient => s.(clientCount := s.clientCount + 1, acceptor := Counted(s.acceptor.id))
    case Spawn => s.(sessions := s.sessions[s.acceptor.id := Session(Idle, {})], acceptor := Waiting)
    case BeginJoin(id, room) => Goto(s, id, FindOrMake(room))
    case BeginLeave(id, room) => Goto(s, id, Find(room))
    case BeginEnd(id) => Goto(s, id, Disconnect)
    case Advance(id) => AdvanceHandler(s, id)
    case Visit(id, r) =>
      var pc := s.sessions[id].pc;
      var pending := pc.pending - {r};
      if id in s.rooms[r].members
      then Goto(SetRoster(s, r, s.rooms[r].(members := s.rooms[r].members - {id})), id, SweepCount(r, pc.kind, pending))
      else Goto(s, id, Sweep(pc.kind, pending))
    case EndRange(id) =>
      Goto(s, id, if s.sessions[id].pc.kind == Groups then Sweep(Scopes, RangeOver(s, Scopes)) else Done)
  }

  // ---------- The invariant ----------

  /** Handlers that entered `r` but have not counted it yet, and that left but still count. */
  ghost function Entering(s: State, r: Room): set<ClientId> {
    set id | id in s.sessions && s.sessions[id].pc == CountIn(r)
  }

  ghost function Leaving(s: State, r: Room): set<ClientId> {
    set id | id in s.sessions &&
      (s.sessions[id].pc == CountOut(r) || (s.sessions[id].pc.SweepCount? && s.sessions[id].pc.room == r))
  }

  ghost predicate Counts(s: State, r: Room) {
    r in s.rooms ==> s.rooms[r].count == |s.rooms[r].members| - |Entering(s, r)| + |Leaving(s, r)|
  }

  /** Handlers whose client is off the map but not yet off the count. */
  ghost function Disconnecting(s: State): set<ClientId> {
    set id | id in s.sessions && s.sessions[id].pc.CountClientOut?
  }

  predicate Gone(pc: Pc) {
    pc.CountClientOut? || pc.Sweep? || pc.SweepCount? || pc.Done?
  }

  predicate InRoom(s: State, id: ClientId, r: Room) {
    r in s.rooms && id in s.rooms[r].members
  }

  /** The client's own list and the rosters say the same about `r`. */
  predicate Agree(s: State, id: ClientId, r: Room)
    requires id in s.sessions
  {
    r in s.sessions[id].rooms <==> InRoom(s, id, r)
  }

  /** What a handler's position says about where its client is. */
  ghost predicate Placed(s: State, id: ClientId)
    requires id in s.sessions
  {
    match s.sessions[id].pc
    case Idle => forall r :: Agree(s, id, r)
    case FindOrMake(x) => forall r :: Agree(s, id, r)
    case Enter(x) => x in s.rooms && forall r :: Agree(s, id, r)
    case CountIn(x) => InRoom(s, id, x) && forall r :: r != x ==> Agree(s, id, r)
    case List(x) => InRoom(s, id, x) && forall r :: r != x ==> Agree(s, id, r)
    case Find(x) => forall r :: Agree(s, id, r)
    case Exit(x) => x in s.rooms && forall r :: Agree(s, id, r)
    case CountOut(x) => x in s.rooms && !InRoom(s, id, x) && forall r :: r != x ==> Agree(s, id, r)
    case Unlist(x) => !InRoom(s, id, x) && forall r :: r != x ==> Agree(s, id, r)
    case Disconnect => true
    case CountClientOut => true
    case Sweep(kind, pending) => forall r :: InRoom(s, id, r) ==> r in pending || (kind == Groups && r.kind == Scopes)
    case SweepCount(x, kind, pending) =>
      x in s.rooms && forall r :: InRoom(s, id, r) ==> r in pending || (kind == Groups && r.kind == Scopes)
    case Done => forall r :: !InRoom(s, id, r)
  }

  ghost predicate Connected(s: State) {
    && (forall id :: id in s.sessions ==> id in s.used && (!Gone(s.sessions[id].pc) ==> id in s.clients))
    && (forall id :: id in s.clients ==> id in s.used)
    && (forall r, id :: r in s.rooms && id in s.rooms[r].members ==> id in s.sessions)
    && (s.acceptor.Admitted? ==> s.acceptor.id in s.used && s.acceptor.id !in s.clients)
    && (!s.acceptor.Waiting? ==> s.acceptor.id in s.used && s.acceptor.id !in s.sessions)
    && (s.acceptor.Stored? || s.acceptor.Counted? ==> s.acceptor.id in s.clients)
  }

  ghost predicate Bounded(max: int, s: State) {
    && s.clientCount == |s.clients| - (if s.acceptor.Stored? then 1 else 0) + |Disconnecting(s)|
    && (s.clients != {} ==> |s.clients| <= max)
    && (s.acceptor.Admitted? ==> |s.clients| < max)
  }

  ghost predicate Inv(max: int, s: State) {
    && Connected(s) && Bounded(max, s)
    && (forall r :: r in s.rooms ==> Counts(s, r))
    && (forall id :: id in s.sessions ==> Placed(s, id))
  }

  // ---------- Every step keeps it ----------

  predicate Moves(step: Step) {
    step.Advance? || step.Visit? || step.EndRange? || step.BeginJoin? || step.BeginLeave? || step.BeginEnd?
  }

  ghost predicate OthersWait(s: State, s': State, id: ClientId) {
    && id in s.sessions && id in s'.sessions
    && (forall j :: j in s.sessions <==> j in s'.sessions)
    && (forall j :: j in s.sessions && j != id ==> s'.sessions[j] == s.sessions[j])
  }

  /** A handler's step leaves the other sessions alone, and moves no client but its own. */
  ghost predicate OnlyOwn(s: State, s': State, id: ClientId) {
    && OthersWait(s, s', id)
    && (forall r :: r in s.rooms ==> r in s'.rooms)
    && (forall j, r :: j != id ==> (InRoom(s', j, r) <==> InRoom(s, j, r)))
    && s'.acceptor == s.acceptor && s'.used == s.used
  }

  lemma AdvanceIsOwn(s: State, id: ClientId)
    requires id in s.sessions
    ensures OnlyOwn(s, AdvanceHandler(s, id), id)
  {
  }

  lemma HandlerIsOwn(max: int, s: State, step: Step)
    requires Enabled(max, s, step) && Moves(step)
    ensures OnlyOwn(s, Apply(max, s, step), step.id)
  {
    if step.Advance? { AdvanceIsOwn(s, step.id); }
  }

  // Where clients are

  lemma OtherStaysPlaced(s: State, s': State, id: ClientId, j: ClientId)
    requires OnlyOwn(s, s', id) && j != id && j in s.sessions && Placed(s, j)
    ensures Placed(s', j)
  {
    assert forall r :: Agree(s', j, r) <==> Agree(s, j, r);
  }

  lemma StaysPlaced(s: State, s': State, j: ClientId)
    requires j in s.sessions && j in s'.sessions && s'.sessions[j] == s.sessions[j] && Placed(s, j)
    requires s'.rooms == s.rooms
    ensures Placed(s', j)
  {
    assert forall r :: InRoom(s', j, r) <==> InRoom(s, j, r);
    assert forall r :: Agree(s', j, r) <==> Agree(s, j, r);
  }

  lemma AdvancePlaces(s: State, id: ClientId)
    requires id in s.sessions && Placed(s, id)
    ensures Placed(AdvanceHandler(s, id), id)
  {
    var s' := AdvanceHandler(s, id);
    match s.sessions[id].pc
    case Idle =>
    case FindOrMake(x) => assert forall r :: Agree(s, id, r) ==> Agree(s', id, r);
    case Enter(x) => assert forall r :: r != x && Agree(s, id, r) ==> Agree(s', id, r);
    case CountIn(x) => assert forall r :: r != x && Agree(s, id, r) ==> Agree(s', id, r);
    case List(x) => assert forall r :: r != x && Agree(s, id, r) ==> Agree(s', id, r);
    case Find(x) => assert forall r :: Agree(s, id, r) ==> Agree(s', id, r);
    case Exit(x) => assert forall r :: r != x && Agree(s, id, r) ==> Agree(s', id, r);
    case CountOut(x) => assert forall r :: r != x && Agree(s, id, r) ==> Agree(s', id, r);
    case Unlist(x) => assert forall r :: r != x && Agree(s, id, r) ==> Agree(s', id, r);
    case Disconnect =>
    case CountClientOut =>
    case Sweep(kind, pending) =>
    case SweepCount(x, kind, pending) => assert forall r :: InRoom(s', id, r) ==> InRoom(s, id, r);
    case Done =>
  }

  lemma HandlerPlaces(max: int, s: State, step: Step)
    requires Enabled(max, s, step) && Moves(step) && Placed(s, step.id)
    ensures Placed(Apply(max, s, step), step.id)
  {
    var id := step.id;
    var s' := Apply(max, s, step);
    match step
    case Advance(_) => AdvancePlaces(s, id);
    case Visit(_, room) => assert forall r :: InRoom(s', id, r) ==> InRoom(s, id, r) && r != room;
    case EndRange(_) => assert forall r :: InRoom(s', id, r) ==> InRoom(s, id, r);
    case BeginJoin(_, room) => assert forall r :: Agree(s, id, r) ==> Agree(s', id, r);
    case BeginLeave(_, room) => assert forall r :: Agree(s, id, r) ==> Agree(s', id, r);
    case BeginEnd(_) =>
  }

  lemma KeepsPlaced(max: int, s: State, step: Step, j: ClientId)
    requires Connected(s) && (forall id :: id in s.sessions ==> Placed(s, id))
    requires Enabled(max, s, step) && j in Apply(max, s, step).sessions
    ensures Placed(Apply(max, s, step), j)
  {
    var s' := Apply(max, s, step);
    if Moves(step) {
      HandlerIsOwn(max, s, step);
      if j == step.id { HandlerPlaces(max, s, step); } else { OtherStaysPlaced(s, s', step.id, j); }
    } else if j in s.sessions {
      StaysPlaced(s, s', j);
    } else {
      assert forall r :: !InRoom(s, j, r) && !InRoom(s', j, r);
    }
  }

  // What rooms count

  predicate IsEntering(pc: Pc, r: Room) { pc == CountIn(r) }

  predicate IsLeaving(pc: Pc, r: Room) { pc == CountOut(r) || (pc.SweepCount? && pc.room == r) }

  function Bit(b: bool): int { if b then 1 else 0 }

  /** A room's own count stays right when count, members and pending updates move together. */
  lemma CountsMove(s: State, s': State, id: ClientId, r: Room)
    requires OthersWait(s, s', id) && r in s.rooms && r in s'.rooms && Counts(s, r)
    requires var pc, pc' := s.sessions[id].pc, s'.sessions[id].pc;
             s'.rooms[r].count - s.rooms[r].count ==
               |s'.rooms[r].members| - |s.rooms[r].members|
               - (Bit(IsEntering(pc', r)) - Bit(IsEntering(pc, r))) + (Bit(IsLeaving(pc', r)) - Bit(IsLeaving(pc, r)))
    ensures Counts(s', r)
  {
    hide Entering, Leaving, IsEntering, IsLeaving;
    EnteringMoves(s, s', id, r);
    LeavingMoves(s, s', id, r);
  }

  lemma EnteringMoves(s: State, s': State, id: ClientId, r: Room)
    requires OthersWait(s, s', id)
    ensures |Entering(s', r)| - |Entering(s, r)| ==
              Bit(IsEntering(s'.sessions[id].pc, r)) - Bit(IsEntering(s.sessions[id].pc, r))
  {
    forall j | j != id ensures j in Entering(s, r) <==> j in Entering(s', r) {
    }
    assert Entering(s, r) - {id} == Entering(s', r) - {id};
    SizeWithout(Entering(s, r), id);
    SizeWithout(Entering(s', r), id);
  }

  lemma LeavingMoves(s: State, s': State, id: ClientId, r: Room)
    requires OthersWait(s, s', id)
    ensures |Leaving(s', r)| - |Leaving(s, r)| ==
              Bit(IsLeaving(s'.sessions[id].pc, r)) - Bit(IsLeaving(s.sessions[id].pc, r))
  {
    forall j | j != id ensures j in Leaving(s, r) <==> j in Leaving(s', r) {
    }
    assert Leaving(s, r) - {id} == Leaving(s', r) - {id};
    SizeWithout(Leaving(s, r), id);
    SizeWithout(Leaving(s', r), id);
  }

  lemma SizeWithout(ids: set<ClientId>, id: ClientId)
    ensures |ids| == |ids - {id}| + Bit(id in ids)
  {
  }

  lemma AdvanceCounts(s: State, id: ClientId, r: Room)
    requires id in s.sessions && Placed(s, id) && r in s.rooms && Counts(s, r)
    ensures Counts(AdvanceHandler(s, id), r)
  {
    hide Placed;
    var s' := AdvanceHandler(s, id);
    AdvanceIsOwn(s, id);
    RoomExists(s, id);
    CountsMove(s, s', id, r);
  }

  /** A handler about to work on a room's roster finds the room there. */
  lemma RoomExists(s: State, id: ClientId)
    requires id in s.sessions && Placed(s, id)
    ensures var pc := s.sessions[id].pc;
            pc.Enter? || pc.CountIn? || pc.Exit? || pc.CountOut? || pc.SweepCount? ==> pc.room in s.rooms
  {
  }

  /** A new room starts with nobody in it and no update outstanding. */
  lemma NewRoomCounts(s: State, s': State, id: ClientId, r: Room)
    requires OnlyOwn(s, s', id) && r !in s.rooms
    requires forall j :: j in s.sessions ==> Placed(s, j)
    requires r in s'.rooms && s'.rooms[r] == Roster({}, 0)
    requires !IsEntering(s'.sessions[id].pc, r) && !IsLeaving(s'.sessions[id].pc, r)
    ensures Counts(s', r)
  {
    forall j | j in s.sessions ensures j !in Entering(s', r) && j !in Leaving(s', r) {
      RoomExists(s, j);
    }
    assert Entering(s', r) == {} && Leaving(s', r) == {};
  }

  lemma HandlerCounts(max: int, s: State, step: Step, r: Room)
    requires Enabled(max, s, step) && Moves(step)
    requires forall j :: j in s.sessions ==> Placed(s, j)
    requires (r in s.rooms ==> Counts(s, r)) && r in Apply(max, s, step).rooms
    ensures Counts(Apply(max, s, step), r)
  {
    hide Placed;
    var s' := Apply(max, s, step);
    HandlerIsOwn(max, s, step);
    if r !in s.rooms {
      NewRoomCounts(s, s', step.id, r);
    } else if step.Advance? {
      AdvanceCounts(s, step.id, r);
    } else {
      CountsMove(s, s', step.id, r);
    }
  }

  lemma KeepsCounts(max: int, s: State, step: Step, r: Room)
    requires Inv(max, s) && Enabled(max, s, step) && r in Apply(max, s, step).rooms
    ensures Counts(Apply(max, s, step), r)
  {
    hide Placed, Bounded;
    var s' := Apply(max, s, step);
    if Moves(step) {
      HandlerCounts(max, s, step, r);
    } else {
      AcceptorCounts(max, s, step, r);
    }
  }

  /** The acceptor enters and leaves no room. */
  lemma AcceptorCounts(max: int, s: State, step: Step, r: Room)
    requires Connected(s) && Enabled(max, s, step) && !Moves(step)
    ensures var s' := Apply(max, s, step);
            s'.rooms == s.rooms && Entering(s', r) == Entering(s, r) && Leaving(s', r) == Leaving(s, r)
  {
    var s' := Apply(max, s, step);
    forall id ensures id in Entering(s', r) <==> id in Entering(s, r) {}
    forall id ensures id in Leaving(s', r) <==> id in Leaving(s, r) {}
  }

  // How many clients are connected

  lemma DisconnectingMoves(s: State, s': State, id: ClientId)
    requires OthersWait(s, s', id)
    ensures |Disconnecting(s')| - |Disconnecting(s)| ==
              Bit(s'.sessions[id].pc.CountClientOut?) - Bit(s.sessions[id].pc.CountClientOut?)
  {
    forall j | j != id ensures j in Disconnecting(s) <==> j in Disconnecting(s') {
    }
    assert Disconnecting(s) - {id} == Disconnecting(s') - {id};
    SizeWithout(Disconnecting(s), id);
    SizeWithout(Disconnecting(s'), id);
  }

  lemma AdvanceBounds(max: int, s: State, id: ClientId)
    requires id in s.sessions && Bounded(max, s) && (!Gone(s.sessions[id].pc) ==> id in s.clients)
    ensures Bounded(max, AdvanceHandler(s, id))
  {
    var s' := AdvanceHandler(s, id);
    AdvanceIsOwn(s, id);
    DisconnectingMoves(s, s', id);
    SizeWithout(s.clients, id);
  }

  lemma KeepsBounded(max: int, s: State, step: Step)
    requires Connected(s) && Bounded(max, s) && Enabled(max, s, step)
    ensures Bounded(max, Apply(max, s, step))
  {
    var s' := Apply(max, s, step);
    if step.Advance? {
      AdvanceBounds(max, s, step.id);
    } else if Moves(step) {
      HandlerIsOwn(max, s, step);
      DisconnectingMoves(s, s', step.id);
    } else {
      assert Disconnecting(s') == Disconnecting(s);
    }
  }

  lemma HandlerConnected(max: int, s: State, step: Step)
    requires Connected(s) && Enabled(max, s, step) && Moves(step)
    requires forall j :: j in s.sessions ==> Placed(s, j)
    ensures Connected(Apply(max, s, step))
  {
    var s' := Apply(max, s, step);
    HandlerIsOwn(max, s, step);
    if step.Advance? { RoomExists(s, step.id); }
    forall r, j | r in s'.rooms && j in s'.rooms[r].members ensures j in s'.sessions {
      assert j != step.id ==> InRoom(s', j, r);
    }
  }

  lemma KeepsConnected(max: int, s: State, step: Step)
    requires Connected(s) && Enabled(max, s, step)
    requires forall j :: j in s.sessions ==> Placed(s, j)
    ensures Connected(Apply(max, s, step))
  {
    hide Placed;
    if Moves(step) { HandlerConnected(max, s, step); }
  }

  lemma StepKeepsInv(max: int, s: State, step: Step)
    requires Inv(max, s) && Enabled(max, s, step)
    ensures Inv(max, Apply(max, s, step))
  {
    hide Placed, Connected, Bounded, Counts, Apply, Enabled;
    var s' := Apply(max, s, step);
    KeepsConnected(max, s, step);
    KeepsBounded(max, s, step);
    forall r | r in s'.rooms ensures Counts(s', r) {
      KeepsCounts(max, s, step, r);
    }
    forall id | id in s'.sessions ensures Placed(s', id) {
      KeepsPlaced(max, s, step, id);
    }
  }

  // ---------- Every run ----------

  /** `runs[0]` is the start and every later state follows by one step. */
  ghost predicate Run(max: int, run: seq<State>) {
    && |run| > 0 && run[0] == START
    && forall i, j :: 0 <= i < j < |run| && j <= i + 1 ==> Follows(max, run[i], run[j])
  }

  ghost predicate Follows(max: int, s: State, s': State) {
    exists step :: Enabled(max, s, step) && s' == Apply(max, s, step)
  }

  lemma {:induction false} RunKeepsInv(max: int, run: seq<State>, i: nat)
    requires Run(max, run) && i < |run|
    ensures Inv(max, run[i])
  {
    if i > 0 {
      RunKeepsInv(max, run, i - 1);
      assert Follows(max, run[i-1], run[i]);
      var step :| Enabled(max, run[i-1], step) && run[i] == Apply(max, run[i-1], step);
      StepKeepsInv(max, run[i-1], step);
    }
  }

  /** In every state of every run: a group or scope counts its members exactly, up to the updates
      its entering and leaving handlers still owe; a client between messages lists exactly the
      rooms that list it; a client whose handler is done is listed nowhere; and no more clients
      are connected than the configured maximum (none, if that is negative). */
  lemma MembershipIsConsistent(max: int, run: seq<State>, i: nat)
    requires Run(max, run) && i < |run|
    ensures var s := run[i];
      && (forall r :: r in s.rooms ==> s.rooms[r].count == |s.rooms[r].members| - |Entering(s, r)| + |Leaving(s, r)|)
      && (forall id, r :: At(s, id, Idle) ==> (r in s.sessions[id].rooms <==> r in s.rooms && id in s.rooms[r].members))
      && (forall id, r :: At(s, id, Done) && r in s.rooms ==> id !in s.rooms[r].members)
      && |s.clients| <= (if max < 0 then 0 else max)
  {
    RunKeepsInv(max, run, i);
    InvMeans(max, run[i]);
  }

  lemma InvMeans(max: int, s: State)
    requires Inv(max, s)
    ensures forall r :: r in s.rooms ==> s.rooms[r].count == |s.rooms[r].members| - |Entering(s, r)| + |Leaving(s, r)|
    ensures forall id, r :: At(s, id, Idle) ==> (r in s.sessions[id].rooms <==> r in s.rooms && id in s.rooms[r].members)
    ensures forall id, r :: At(s, id, Done) && r in s.rooms ==> id !in s.rooms[r].members
    ensures |s.clients| <= (if max < 0 then 0 else max)
  {
    hide Connected;
    forall r | r in s.rooms ensures s.rooms[r].count == |s.rooms[r].members| - |Entering(s, r)| + |Leaving(s, r)| {
      assert Counts(s, r);
    }
    forall id, r | At(s, id, Idle) ensures r in s.sessions[id].rooms <==> r in s.rooms && id in s.rooms[r].members {
      IdleAgrees(s, id, r);
    }
    forall id, r | At(s, id, Done) && r in s.rooms ensures id !in s.rooms[r].members {
      DoneIsNowhere(s, id, r);
    }
  }

  lemma IdleAgrees(s: State, id: ClientId, r: Room)
    requires At(s, id, Idle) && Placed(s, id)
    ensures r in s.sessions[id].rooms <==> r in s.rooms && id in s.rooms[r].members
  {
    assert Agree(s, id, r);
  }

  lemma DoneIsNowhere(s: State, id: ClientId, r: Room)
    requires At(s, id, Done) && Placed(s, id)
    ensures r in s.rooms ==> id !in s.rooms[r].members
  {
    assert !InRoom(s, id, r);
  }

  /** With every handler between messages or done, counts are exact. */
  lemma QuietCountsAreExact(max: int, run: seq<State>, i: nat)
    requires Run(max, run) && i < |run| && run[i].acceptor.Waiting?
    requires forall id :: id in run[i].sessions ==> run[i].sessions[id].pc.Idle? || run[i].sessions[id].pc.Done?
    ensures run[i].clientCount == |run[i].clients|
    ensures forall r :: r in run[i].rooms ==> run[i].rooms[r].count == |run[i].rooms[r].members|
  {
    var s := run[i];
    RunKeepsInv(max, run, i);
    assert Disconnecting(s) == {};
    forall r | r in s.rooms ensures s.rooms[r].count == |s.rooms[r].members| {
      assert Counts(s, r) && Entering(s, r) == {} && Leaving(s, r) == {};
    }
  }
}
