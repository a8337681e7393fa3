/** SetData and DeleteData of a scope (internal/core/protocol/group.go), called from many goroutines
    at once. Each load, store and removal of the concurrent map, and each addition to the count,
    is a step of its own. `Rules` says which calls may overlap. */
module ScopeRaces {
  import opened MapSums
  import opened ScopeData

  type Caller = nat

  /** Where a call stands; a call that has returned is gone from the map. `gone` is how many bytes a
      set took off the count for the old value, and a delete has yet to take off. */
  datatype Call =
    | SetCall(key: string, bytes: Bytes) | Sizing(key: string, bytes: Bytes) | Counting(key: string, bytes: Bytes)
    | Keyed(key: string, bytes: Bytes) | Looking(key: string, bytes: Bytes)
    | Subtracting(key: string, bytes: Bytes, gone: nat) | Storing(key: string, bytes: Bytes, gone: nat)
    | Adding(key: string, bytes: Bytes)
    | DeleteCall(key: string) | Removed(key: string, gone: nat)

  datatype State = State(data: Data, size: nat, closed: bool, calls: map<Caller, Call>)

  const EMPTY := State(map[], 0, false, map[])

  /** Keys on which sets may overlap each other, and keys on which sets and deletes may. */
  datatype Rules = Rules(maxSize: nat, maxKeys: int, setSet: iset<string>, setDelete: iset<string>)

  datatype Step =
    | BeginSet(caller: Caller, key: string, bytes: Bytes)
    | BeginDelete(caller: Caller, key: string)
    | Advance(caller: Caller)
    | CountKeys(caller: Caller, found: nat)
    | Close

  predicate IsSet(call: Call) { !call.DeleteCall? && !call.Removed? }

  ghost predicate SetOn(s: State, key: string) {
    exists t :: t in s.calls && s.calls[t].key == key && IsSet(s.calls[t])
  }

  ghost predicate DeleteOn(s: State, key: string) {
    exists t :: t in s.calls && s.calls[t].key == key && !IsSet(s.calls[t])
  }

  /** Deletes may always overlap. Counting the keys of a changing map may find any number. */
  ghost predicate Enabled(rules: Rules, s: State, step: Step) {
    match step
    case BeginSet(t, k, bytes) =>
      && t !in s.calls && |bytes| < LONGEST
      && (k in rules.setSet || !SetOn(s, k)) && (k in rules.setDelete || !DeleteOn(s, k))
    case BeginDelete(t, k) => t !in s.calls && (k in rules.setDelete || !SetOn(s, k))
    case Advance(t) => t in s.calls && !s.calls[t].Counting?
    case CountKeys(t, _) => t in s.calls && s.calls[t].Counting?
    case Close => true
  }

  function Goto(s: State, t: Caller, call: Call): State { s.(calls := s.calls[t := call]) }

  function Return(s: State, t: Caller): State { s.(calls := s.calls - {t}) }

  function TakeOff(s: State, n: nat): State
    requires n < WORD
  {
    s.(size := Plus(s.size, Complement(n - 1)))
  }

  function AdvanceCall(rules: Rules, s: State, t: Caller): State
    requires t in s.calls
  {
    match s.calls[t]
    case SetCall(k, bytes) => if s.closed then Return(s, t) else Goto(s, t, Sizing(k, bytes))
    case Sizing(k, bytes) =>
      if rules.maxSize > 0 && Plus(s.size, |bytes|) > rules.maxSize then Return(s, t) else Goto(s, t, Counting(k, bytes))
    case Counting(_, _) => s
    case Keyed(k, bytes) => if k in s.data then Goto(s, t, Looking(k, bytes)) else Return(s, t)
    case Looking(k, bytes) =>
      Goto(s, t, if k in s.data then Subtracting(k, bytes, |s.data[k]|) else Storing(k, bytes, 0))
    case Subtracting(k, bytes, n) => if n < WORD then Goto(TakeOff(s, n), t, Storing(k, bytes, n)) else s
    case Storing(k, bytes, n) => Goto(s.(data := s.data[k := bytes]), t, Adding(k, bytes))
    case Adding(k, bytes) => Return(s.(size := Plus(s.size, |bytes|)), t)
    case DeleteCall(k) =>
      if k in s.data then Goto(s.(data := s.data - {k}), t, Removed(k, |s.data[k]|)) else Return(s, t)
    case Removed(k, n) => if n < WORD then Return(TakeOff(s, n), t) else s
  }

  ghost function Apply(rules: Rules, s: State, step: Step): State
    requires Enabled(rules, s, step)
  {
    match step
    case BeginSet(t, k, bytes) => Goto(s, t, SetCall(k, bytes))
    case BeginDelete(t, k) => Goto(s, t, DeleteCall(k))
    case Advance(t) => AdvanceCall(rules, s, t)
    case CountKeys(t, found) =>
      var c := s.calls[t];
      Goto(s, t, if rules.maxKeys > 0 && found >= rules.maxKeys then Keyed(c.key, c.bytes) else Looking(c.key, c.bytes))
    case Close => s.(closed := true)
  }

  // ---------- The invariant, where no set overlaps another call on its key ----------

  ghost predicate Strict(rules: Rules) { rules.setSet == iset{} && rules.setDelete == iset{} }

  /** What the count lacks, or has too much, on behalf of a call. */
  function Owed(call: Call): int {
    match call
    case Storing(_, _, n) => 0 - n
    case Adding(_, bytes) => 0 - |bytes|
    case Removed(_, n) => n
    case _ => 0
  }

  ghost function Debts(calls: map<Caller, Call>): map<Caller, int> { map t | t in calls :: Owed(calls[t]) }

  ghost function TotalOwed(calls: map<Caller, Call>): int { Sum(Debts(calls)) }

  /** A set that has looked for the old value still tells the truth about it. */
  predicate Settled(data: Data, call: Call) {
    && (call.Subtracting? || call.Storing? ==> call.gone == if call.key in data then |data[call.key]| else 0)
    && (IsSet(call) ==> |call.bytes| < LONGEST)
    && (call.Removed? ==> call.gone < LONGEST)
  }

  ghost predicate Alone(calls: map<Caller, Call>) {
    forall t, u :: t in calls && u in calls && t != u && calls[t].key == calls[u].key ==> !IsSet(calls[t])
  }

  ghost predicate Inv(s: State) {
    && Short(s.data) && Alone(s.calls)
    && (forall t :: t in s.calls ==> Settled(s.data, s.calls[t]))
    && s.size == (Total(s.data) + TotalOwed(s.calls)) % WORD
  }

  lemma OwedMoves(calls: map<Caller, Call>, t: Caller, call: Call)
    ensures TotalOwed(calls[t := call]) == TotalOwed(calls) - (if t in calls then Owed(calls[t]) else 0) + Owed(call)
  {
    assert Debts(calls[t := call]) == Debts(calls)[t := Owed(call)];
    SumUpdated(Debts(calls), t, Owed(call));
  }

  lemma OwedLeaves(calls: map<Caller, Call>, t: Caller)
    requires t in calls
    ensures TotalOwed(calls - {t}) == TotalOwed(calls) - Owed(calls[t])
  {
    assert Debts(calls - {t}) == Debts(calls) - {t};
    SumWithout(Debts(calls), t);
  }

  /** The count stays right: it moves by as much as the stored bytes and the debts do. */
  lemma CountKept(rules: Rules, s: State, t: Caller)
    requires Inv(s) && t in s.calls
    ensures var s' := AdvanceCall(rules, s, t); s'.size == (Total(s'.data) + TotalOwed(s'.calls)) % WORD
  {
    hide Total, TotalOwed, Plus, Complement, Alone;
    var s', call := AdvanceCall(rules, s, t), s.calls[t];
    var all := Total(s.data) + TotalOwed(s.calls);
    if t in s'.calls { OwedMoves(s.calls, t, s'.calls[t]); } else { OwedLeaves(s.calls, t); }
    match call
    case Subtracting(k, bytes, n) => ComplementSubtracts(all, n);
    case Storing(k, bytes, n) => TotalAfterSet(s.data, k, bytes);
    case Adding(k, bytes) => PlusAdds(all, |bytes|);
    case DeleteCall(k) => if k in s.data { TotalAfterDelete(s.data, k); }
    case Removed(k, n) => ComplementSubtracts(all, n);
    case _ =>
  }

  /** No step of a call touches what another call relies on. */
  lemma OthersSettled(rules: Rules, s: State, t: Caller, u: Caller)
    requires Inv(s) && t in s.calls && u in AdvanceCall(rules, s, t).calls
    ensures Settled(AdvanceCall(rules, s, t).data, AdvanceCall(rules, s, t).calls[u])
  {
    hide Total, TotalOwed;
    assert Settled(s.data, s.calls[t]) && Settled(s.data, s.calls[u]);
    assert t != u && IsSet(s.calls[u]) ==> s.calls[t].key != s.calls[u].key;
  }

  /** A call keeps its key and its kind, and leaves the others alone. */
  lemma AdvanceKeepsKeys(rules: Rules, s: State, t: Caller)
    requires t in s.calls
    ensures var calls := AdvanceCall(rules, s, t).calls;
            && (t in calls ==> calls[t].key == s.calls[t].key && IsSet(calls[t]) == IsSet(s.calls[t]))
            && (forall u :: u in calls && u != t ==> u in s.calls && calls[u] == s.calls[u])
  {
    hide Plus, Complement;
  }

  lemma AdvanceKeepsShort(rules: Rules, s: State, t: Caller)
    requires Short(s.data) && t in s.calls && Settled(s.data, s.calls[t])
    ensures Short(AdvanceCall(rules, s, t).data)
  {
  }

  lemma AdvanceKeepsInv(rules: Rules, s: State, t: Caller)
    requires Inv(s) && t in s.calls
    ensures Inv(AdvanceCall(rules, s, t))
  {
    hide Total, TotalOwed, Settled, AdvanceCall, IsSet, Short;
    var s' := AdvanceCall(rules, s, t);
    CountKept(rules, s, t);
    forall u | u in s'.calls ensures Settled(s'.data, s'.calls[u]) { OthersSettled(rules, s, t, u); }
    AdvanceKeepsShort(rules, s, t);
    AdvanceKeepsKeys(rules, s, t);
  }

  lemma BeginSetKeepsInv(rules: Rules, s: State, t: Caller, k: string, bytes: Bytes)
    requires Strict(rules) && Inv(s) && Enabled(rules, s, BeginSet(t, k, bytes))
    ensures Inv(Goto(s, t, SetCall(k, bytes)))
  {
    hide Total, TotalOwed, Short;
    OwedMoves(s.calls, t, SetCall(k, bytes));
    forall u | u in s.calls ensures s.calls[u].key != k {
      assert s.calls[u].key == k ==> SetOn(s, k) || DeleteOn(s, k);
    }
  }

  lemma BeginDeleteKeepsInv(rules: Rules, s: State, t: Caller, k: string)
    requires Strict(rules) && Inv(s) && Enabled(rules, s, BeginDelete(t, k))
    ensures Inv(Goto(s, t, DeleteCall(k)))
  {
    hide Total, TotalOwed, Short;
    OwedMoves(s.calls, t, DeleteCall(k));
    forall u | u in s.calls && s.calls[u].key == k ensures !IsSet(s.calls[u]) {
      assert IsSet(s.calls[u]) ==> SetOn(s, k);
    }
  }

  lemma CountingKeepsInv(rules: Rules, s: State, step: Step)
    requires Inv(s) && Enabled(rules, s, step) && step.CountKeys?
    ensures Inv(Apply(rules, s, step))
  {
    hide Total, TotalOwed, Short;
    var s' := Apply(rules, s, step);
    OwedMoves(s.calls, step.caller, s'.calls[step.caller]);
    forall u | u in s'.calls
      ensures s'.calls[u].key == s.calls[u].key && IsSet(s'.calls[u]) == IsSet(s.calls[u]) && Settled(s'.data, s'.calls[u])
    {
      assert Settled(s.data, s.calls[u]);
    }
  }

  lemma StepKeepsInv(rules: Rules, s: State, step: Step)
    requires Strict(rules) && Inv(s) && Enabled(rules, s, step)
    ensures Inv(Apply(rules, s, step))
  {
    match step
    case Advance(t) => AdvanceKeepsInv(rules, s, t);
    case BeginSet(t, k, bytes) => BeginSetKeepsInv(rules, s, t, k, bytes);
    case BeginDelete(t, k) => BeginDeleteKeepsInv(rules, s, t, k);
    case CountKeys(_, _) => CountingKeepsInv(rules, s, step);
    case Close =>
  }

  // ---------- Every run ----------

  ghost predicate Follows(rules: Rules, s: State, s': State) {
    exists step :: Enabled(rules, s, step) && s' == Apply(rules, s, step)
  }

  ghost predicate Run(rules: Rules, run: seq<State>) {
    && |run| > 0 && run[0] == EMPTY
    && forall i, j :: 0 <= i < j < |run| && j <= i + 1 ==> Follows(rules, run[i], run[j])
  }

  ghost predicate Reachable(rules: Rules, s: State) { exists run :: Run(rules, run) && run[|run|-1] == s }

  lemma {:induction false} RunKeepsInv(rules: Rules, run: seq<State>, i: nat)
    requires Strict(rules) && Run(rules, run) && i < |run|
    ensures Inv(run[i])
  {
    if i == 0 {
      assert Sizes(map[]) == map[] && Debts(map[]) == map[];
    } else {
      RunKeepsInv(rules, run, i - 1);
      assert Follows(rules, run[i-1], run[i]);
      var step :| Enabled(rules, run[i-1], step) && run[i] == Apply(rules, run[i-1], step);
      StepKeepsInv(rules, run[i-1], step);
    }
  }

  /** Where no set overlaps another call on its key, the count is that of the stored bytes up to what
      the calls in flight owe, in every interleaving; with none in flight it is exact. */
  lemma CountIsExact(rules: Rules, s: State)
    requires Strict(rules) && Reachable(rules, s)
    ensures s.size == (Total(s.data) + TotalOwed(s.calls)) % 0x1_0000_0000_0000_0000
    ensures s.calls == map[] ==> s.size == Total(s.data) % 0x1_0000_0000_0000_0000
  {
    var run :| Run(rules, run) && run[|run|-1] == s;
    RunKeepsInv(rules, run, |run| - 1);
    assert Debts(map[]) == map[];
  }

  // ---------- Overlapping calls on one key ----------

  lemma Extends(rules: Rules, s: State, step: Step)
    requires Reachable(rules, s) && Enabled(rules, s, step)
    ensures Reachable(rules, Apply(rules, s, step))
  {
    var run :| Run(rules, run) && run[|run|-1] == s;
    var s' := Apply(rules, s, step);
    assert Follows(rules, s, s');
    var run' := run + [s'];
    assert Run(rules, run') && run'[|run'|-1] == s';
  }

  lemma Advances(rules: Rules, s: State, t: Caller)
    requires Reachable(rules, s) && t in s.calls && !s.calls[t].Counting?
    ensures Reachable(rules, AdvanceCall(rules, s, t))
  {
    Extends(rules, s, Advance(t));
  }

  lemma Starts(rules: Rules)
    ensures Reachable(rules, EMPTY)
  {
    assert Run(rules, [EMPTY]);
  }

  /** On an empty scope a set passes all checks and finds no old value. */
  lemma Joins(rules: Rules, s: State, t: Caller, k: string, bytes: Bytes)
    requires Reachable(rules, s) && s.data == map[] && s.size == 0 && !s.closed
    requires Enabled(rules, s, BeginSet(t, k, bytes)) && (rules.maxSize > 0 ==> |bytes| <= rules.maxSize)
    ensures Reachable(rules, Goto(s, t, Storing(k, bytes, 0)))
  {
    hide Reachable, Sum, SetOn, DeleteOn;
    Extends(rules, s, BeginSet(t, k, bytes));
    Advances(rules, Goto(s, t, SetCall(k, bytes)), t);
    assert Goto(Goto(s, t, SetCall(k, bytes)), t, Sizing(k, bytes)) == Goto(s, t, Sizing(k, bytes));
    Advances(rules, Goto(s, t, Sizing(k, bytes)), t);
    assert Goto(Goto(s, t, Sizing(k, bytes)), t, Counting(k, bytes)) == Goto(s, t, Counting(k, bytes));
    Extends(rules, Goto(s, t, Counting(k, bytes)), CountKeys(t, 0));
    assert Goto(Goto(s, t, Counting(k, bytes)), t, Looking(k, bytes)) == Goto(s, t, Looking(k, bytes));
    Advances(rules, Goto(s, t, Looking(k, bytes)), t);
    assert Goto(Goto(s, t, Looking(k, bytes)), t, Storing(k, bytes, 0)) == Goto(s, t, Storing(k, bytes, 0));
  }

  /** A set stores its value and counts it. */
  lemma Stores(rules: Rules, s: State, t: Caller)
    requires Reachable(rules, s) && t in s.calls && s.calls[t].Storing?
    ensures var c := s.calls[t];
            Reachable(rules, State(s.data[c.key := c.bytes], Plus(s.size, |c.bytes|), s.closed, s.calls - {t}))
  {
    hide Reachable;
    var c := s.calls[t];
    Advances(rules, s, t);
    var s' := Goto(s.(data := s.data[c.key := c.bytes]), t, Adding(c.key, c.bytes));
    Advances(rules, s', t);
    assert s'.calls - {t} == s.calls - {t};
  }

  const BYTE: Bytes := [0]

  /** Two sets on one new key: both add, one value stays. */
  lemma SetsClash(rules: Rules, k: string)
    requires k in rules.setSet
    ensures Reachable(rules, State(map[k := BYTE], 2, false, map[])) && Total(map[k := BYTE]) == 1
  {
    hide Reachable;
    Starts(rules);
    Joins(rules, EMPTY, 0, k, BYTE);
    var s1 := Goto(EMPTY, 0, Storing(k, BYTE, 0));
    assert s1.calls == map[0 := Storing(k, BYTE, 0)];
    Joins(rules, s1, 1, k, BYTE);
    var s2 := Goto(s1, 1, Storing(k, BYTE, 0));
    Stores(rules, s2, 0);
    var s3 := State(map[k := BYTE], 1, false, s2.calls - {0});
    assert s2.data[k := BYTE] == s3.data;
    Stores(rules, s3, 1);
    assert s3.data[k := BYTE] == s3.data && s3.calls - {1} == map[];
    TotalAfterSet(map[], k, BYTE);
    NothingStored(0, 0);
  }

  /** A set and a delete on one key: both take the old value off. */
  lemma SetAndDeleteClash(rules: Rules, k: string)
    requires k in rules.setDelete
    ensures Reachable(rules, State(map[k := []], WORD - 1, false, map[])) && Total(map[k := []]) == 0
  {
    hide Reachable, AdvanceCall, Enabled;
    OneByte(rules, k);
    var one := State(map[k := BYTE], 1, false, map[]);
    Looks(rules, one, k);
    DeletesBetween(rules, k);
    var s := State(map[], WORD - 1, false, map[0 := Storing(k, [], 1)]);
    Stores(rules, s, 0);
    assert s.calls - {0} == map[] && s.data[k := []] == map[k := []];
    TotalAfterSet(map[], k, []);
    NothingStored(0, 0);
  }

  lemma OneByte(rules: Rules, k: string)
    ensures Reachable(rules, State(map[k := BYTE], 1, false, map[]))
  {
    hide Reachable;
    Starts(rules);
    Joins(rules, EMPTY, 0, k, BYTE);
    var s := Goto(EMPTY, 0, Storing(k, BYTE, 0));
    Stores(rules, s, 0);
    assert s.calls - {0} == map[] && s.data[k := BYTE] == map[k := BYTE];
  }

  /** The delete comes between the set's two looks at the count. */
  lemma DeletesBetween(rules: Rules, k: string)
    requires k in rules.setDelete
    requires Reachable(rules, State(map[k := BYTE], 1, false, map[0 := Subtracting(k, [], 1)]))
    ensures Reachable(rules, State(map[], WORD - 1, false, map[0 := Storing(k, [], 1)]))
  {
    hide Reachable;
    var sub := Subtracting(k, [], 1);
    var s1 := State(map[k := BYTE], 1, false, map[0 := sub]);
    Extends(rules, s1, BeginDelete(1, k));
    var s2 := State(map[k := BYTE], 1, false, map[0 := sub, 1 := DeleteCall(k)]);
    assert Goto(s1, 1, DeleteCall(k)) == s2;
    Advances(rules, s2, 1);
    var s3 := State(map[], 1, false, map[0 := sub, 1 := Removed(k, 1)]);
    assert s2.data - {k} == map[] && s2.calls[1 := Removed(k, 1)] == s3.calls;
    Advances(rules, s3, 1);
    var s4 := State(map[], 0, false, map[0 := sub]);
    assert s3.calls - {1} == s4.calls;
    Advances(rules, s4, 0);
    assert s4.calls[0 := Storing(k, [], 1)] == map[0 := Storing(k, [], 1)];
  }

  /** Setting nothing over the one byte stored passes all checks and finds it. */
  lemma Looks(rules: Rules, s: State, k: string)
    requires Reachable(rules, s) && s == State(map[k := BYTE], 1, false, map[])
    ensures Reachable(rules, State(s.data, 1, false, map[0 := Subtracting(k, [], 1)]))
  {
    hide Reachable;
    Extends(rules, s, BeginSet(0, k, []));
    Advances(rules, Goto(s, 0, SetCall(k, [])), 0);
    assert Goto(Goto(s, 0, SetCall(k, [])), 0, Sizing(k, [])) == Goto(s, 0, Sizing(k, []));
    Advances(rules, Goto(s, 0, Sizing(k, [])), 0);
    assert Goto(Goto(s, 0, Sizing(k, [])), 0, Counting(k, [])) == Goto(s, 0, Counting(k, []));
    Extends(rules, Goto(s, 0, Counting(k, [])), CountKeys(0, 1));
    assert Goto(Goto(s, 0, Counting(k, [])), 0, Looking(k, [])) == Goto(s, 0, Looking(k, []));
    assert Goto(Goto(s, 0, Counting(k, [])), 0, Keyed(k, [])) == Goto(s, 0, Keyed(k, []));
    if rules.maxKeys == 1 {
      Advances(rules, Goto(s, 0, Keyed(k, [])), 0);
      assert Goto(Goto(s, 0, Keyed(k, [])), 0, Looking(k, [])) == Goto(s, 0, Looking(k, []));
    }
    Advances(rules, Goto(s, 0, Looking(k, [])), 0);
    assert Goto(Goto(s, 0, Looking(k, [])), 0, Subtracting(k, [], 1)) == Goto(s, 0, Subtracting(k, [], 1));
  }

  /** Whatever the limits, the count is right whenever no call is in flight, in every interleaving, exactly
      when no set may overlap another set, or a delete, on any key. */
  lemma ExactIff(rules: Rules)
    ensures Strict(rules) <==> forall s :: Reachable(rules, s) && s.calls == map[] ==> s.size == Total(s.data) % 0x1_0000_0000_0000_0000
  {
    if Strict(rules) {
      forall s | Reachable(rules, s) && s.calls == map[] ensures s.size == Total(s.data) % WORD {
        CountIsExact(rules, s);
      }
    } else if k :| k in rules.setSet {
      SetsClash(rules, k);
    } else {
      var k :| k in rules.setDelete;
      SetAndDeleteClash(rules, k);
    }
  }

  // ---------- Overlapping calls and the size limit ----------

  /** Sets on different keys may pass the check together: every size limit can be exceeded. */
  lemma LimitMayBePassed(rules: Rules) returns (s: State)
    requires 0 < rules.maxSize < WORD
    ensures Reachable(rules, s) && s.calls == map[] && Total(s.data) > rules.maxSize
  {
    hide Reachable, Total;
    var n := if rules.maxSize < LONGEST then rules.maxSize else LONGEST - 1;
    var large, small := Filler(n), Filler(if rules.maxSize == 1 then 1 else 2);
    Starts(rules);
    Joins(rules, EMPTY, 0, "a", large);
    var s1 := Goto(EMPTY, 0, Storing("a", large, 0));
    assert s1.calls == map[0 := Storing("a", large, 0)];
    Joins(rules, s1, 1, "b", large);
    var s2 := Goto(s1, 1, Storing("b", large, 0));
    assert s2.calls == map[0 := Storing("a", large, 0), 1 := Storing("b", large, 0)];
    Joins(rules, s2, 2, "c", small);
    s := Goto(s2, 2, Storing("c", small, 0));
    assert s.calls == map[0 := Storing("a", large, 0), 1 := Storing("b", large, 0), 2 := Storing("c", small, 0)];
    Stores(rules, s, 0);
    s := State(s.data["a" := large], Plus(s.size, |large|), false, s.calls - {0});
    Stores(rules, s, 1);
    s := State(s.data["b" := large], Plus(s.size, |large|), false, s.calls - {1});
    Stores(rules, s, 2);
    s := State(s.data["c" := small], Plus(s.size, |small|), false, s.calls - {2});
    assert s.calls == map[];
    var d1: Data := map[]["a" := large];
    var d2 := d1["b" := large];
    NothingStored(0, 0);
    TotalAfterSet(map[], "a", large);
    TotalAfterSet(d1, "b", large);
    TotalAfterSet(d2, "c", small);
    assert s.data == d2["c" := small];
  }

  // ---------- What each call does ----------

  lemma StepAt(rules: Rules, run: seq<State>, k: nat) returns (step: Step)
    requires Run(rules, run) && k + 1 < |run|
    ensures Enabled(rules, run[k], step) && run[k+1] == Apply(rules, run[k], step)
  {
    assert Follows(rules, run[k], run[k+1]);
    step :| Enabled(rules, run[k], step) && run[k+1] == Apply(rules, run[k], step);
  }

  /** How far a set that nothing refuses has come; `known` tells whether its key was there at first. */
  ghost predicate Setting(s: State, t: Caller, k: string, bytes: Bytes, known: bool) {
    if t !in s.calls then k in s.data && s.data[k] == bytes
    else
      && s.calls[t].key == k && IsSet(s.calls[t]) && s.calls[t].bytes == bytes
      && (if s.calls[t].Adding? then k in s.data && s.data[k] == bytes else known ==> k in s.data)
      && (s.calls[t].Keyed? ==> known)
  }

  lemma SettingMoves(rules: Rules, s: State, step: Step, t: Caller, k: string, bytes: Bytes, known: bool)
    requires Strict(rules) && Inv(s) && Enabled(rules, s, step) && t in s.calls && Setting(s, t, k, bytes, known)
    requires !s.closed && (rules.maxSize > 0 ==> Plus(s.size, |bytes|) <= rules.maxSize) && (rules.maxKeys > 0 ==> known)
    ensures Setting(Apply(rules, s, step), t, k, bytes, known)
  {
    hide Total, TotalOwed;
    assert Settled(s.data, s.calls[t]);
    if step.Advance? && step.caller != t {
      assert s.calls[step.caller].key != k;
    }
  }

  lemma Begins(rules: Rules, s: State, t: Caller, k: string, bytes: Bytes)
    ensures Enabled(rules, s, BeginSet(t, k, bytes)) ==> Setting(Apply(rules, s, BeginSet(t, k, bytes)), t, k, bytes, k in s.data)
    ensures Enabled(rules, s, BeginDelete(t, k)) ==> Deleting(Apply(rules, s, BeginDelete(t, k)), t, k)
  {
  }

  lemma {:induction false} SettingRuns(rules: Rules, run: seq<State>, i: nat, j: nat, t: Caller, k: string, bytes: Bytes)
    requires Strict(rules) && Run(rules, run) && i < j < |run| && Enabled(rules, run[i], BeginSet(t, k, bytes))
    requires run[i+1] == Apply(rules, run[i], BeginSet(t, k, bytes))
    requires forall m :: i < m < j ==> t in run[m].calls
    requires forall m :: i < m < j ==> !run[m].closed && (rules.maxSize > 0 ==> Plus(run[m].size, |bytes|) <= rules.maxSize)
    requires rules.maxKeys > 0 ==> k in run[i].data
    ensures Setting(run[j], t, k, bytes, k in run[i].data)
    decreases j
  {
    hide Inv, Setting, Apply, Enabled, Follows, Strict;
    if i + 1 == j { Begins(rules, run[i], t, k, bytes); }
    else {
      SettingRuns(rules, run, i, j - 1, t, k, bytes);
      RunKeepsInv(rules, run, j - 1);
      var step := StepAt(rules, run, j - 1);
      SettingMoves(rules, run[j-1], step, t, k, bytes, k in run[i].data);
    }
  }

  /** When a set returns, and the scope was neither closed nor full meanwhile, its key holds its bytes. */
  lemma SetStores(rules: Rules, run: seq<State>, i: nat, j: nat, t: Caller, k: string, bytes: Bytes)
    requires Strict(rules) && Run(rules, run) && i < j < |run| && Enabled(rules, run[i], BeginSet(t, k, bytes))
    requires run[i+1] == Apply(rules, run[i], BeginSet(t, k, bytes))
    requires t !in run[j].calls && forall m :: i < m < j ==> t in run[m].calls
    requires forall m :: i < m < j ==>
      !run[m].closed && (rules.maxSize > 0 ==> (run[m].size + |bytes|) % 0x1_0000_0000_0000_0000 <= rules.maxSize)
    requires rules.maxKeys > 0 ==> k in run[i].data
    ensures k in run[j].data && run[j].data[k] == bytes
  {
    hide Run;
    SettingRuns(rules, run, i, j, t, k, bytes);
  }

  ghost predicate Deleting(s: State, t: Caller, k: string) {
    if t !in s.calls then k !in s.data
    else s.calls[t] == DeleteCall(k) || (s.calls[t].Removed? && s.calls[t].key == k && k !in s.data)
  }

  lemma DeletingMoves(rules: Rules, s: State, step: Step, t: Caller, k: string)
    requires Strict(rules) && Inv(s) && Enabled(rules, s, step) && t in s.calls && Deleting(s, t, k)
    ensures Deleting(Apply(rules, s, step), t, k)
  {
    hide Total, TotalOwed;
    assert Settled(s.data, s.calls[t]);
    if step.Advance? && step.caller != t {
      assert s.calls[step.caller].key == k ==> !IsSet(s.calls[step.caller]);
    }
  }

  lemma {:induction false} DeletingRuns(rules: Rules, run: seq<State>, i: nat, j: nat, t: Caller, k: string)
    requires Strict(rules) && Run(rules, run) && i < j < |run| && Enabled(rules, run[i], BeginDelete(t, k))
    requires run[i+1] == Apply(rules, run[i], BeginDelete(t, k))
    requires forall m :: i < m < j ==> t in run[m].calls
    ensures Deleting(run[j], t, k)
    decreases j
  {
    hide Inv, Deleting, Apply, Enabled, Follows, Strict;
    if i + 1 == j { Begins(rules, run[i], t, k, []); }
    else {
      DeletingRuns(rules, run, i, j - 1, t, k);
      RunKeepsInv(rules, run, j - 1);
      var step := StepAt(rules, run, j - 1);
      DeletingMoves(rules, run[j-1], step, t, k);
    }
  }

  /** When a delete returns, its key is gone. */
  lemma DeleteDeletes(rules: Rules, run: seq<State>, i: nat, j: nat, t: Caller, k: string)
    requires Strict(rules) && Run(rules, run) && i < j < |run| && Enabled(rules, run[i], BeginDelete(t, k))
    requires run[i+1] == Apply(rules, run[i], BeginDelete(t, k))
    requires t !in run[j].calls && forall m :: i < m < j ==> t in run[m].calls
    ensures k !in run[j].data
  {
    hide Run;
    DeletingRuns(rules, run, i, j, t, k);
  }

  /** A step of a call changes what is stored under its own key at most. */
  lemma OtherKeysStay(rules: Rules, s: State, step: Step, k: string)
    requires Enabled(rules, s, step) && (step.Advance? ==> s.calls[step.caller].key != k)
    ensures var s' := Apply(rules, s, step); (k in s'.data <==> k in s.data) && (k in s.data ==> s'.data[k] == s.data[k])
  {
  }

  /** A closed scope, one that would get too big, and one with too many keys refuse a set. */
  lemma Refusals(rules: Rules, s: State, t: Caller, found: nat)
    requires t in s.calls && IsSet(s.calls[t])
    ensures s.calls[t].SetCall? && s.closed ==> AdvanceCall(rules, s, t) == Return(s, t)
    ensures s.calls[t].Sizing? && rules.maxSize > 0 && (s.size + |s.calls[t].bytes|) % 0x1_0000_0000_0000_0000 > rules.maxSize ==>
      AdvanceCall(rules, s, t) == Return(s, t)
    ensures s.calls[t].Counting? && rules.maxKeys > 0 && found >= rules.maxKeys ==> Apply(rules, s, CountKeys(t, found)).calls[t].Keyed?
    ensures s.calls[t].Keyed? && s.calls[t].key !in s.data ==> AdvanceCall(rules, s, t) == Return(s, t)
  {
  }

  /** How many steps of its own a call still has before it. */
  function CallLeft(call: Call): nat {
    match call
    case SetCall(_, _) => 8
    case Sizing(_, _) => 7
    case Counting(_, _) => 6
    case Keyed(_, _) => 5
    case Looking(_, _) => 4
    case Subtracting(_, _, _) => 3
    case Storing(_, _, _) => 2
    case Adding(_, _) => 1
    case DeleteCall(_) => 2
    case Removed(_, _) => 1
  }

  /** Every call returns after at most eight steps of its own. */
  lemma CallsEnd(rules: Rules, s: State, t: Caller, found: nat)
    requires Inv(s) && t in s.calls
    ensures var step := if s.calls[t].Counting? then CountKeys(t, found) else Advance(t);
            Enabled(rules, s, step) &&
            var s' := Apply(rules, s, step); t in s'.calls ==> CallLeft(s'.calls[t]) < CallLeft(s.calls[t]) <= 8
  {
    hide Total, TotalOwed;
    assert Settled(s.data, s.calls[t]);
  }
}
