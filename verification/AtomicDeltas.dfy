/** Merging a batch of deltas into an atomic integer (internal/core/syncv2/vars/atomic_int.go).
    `half` is 2^63 for AtomicInt64 and 2^31 for AtomicInt32. */
module AtomicDeltas {
  import opened Division
  import opened Options

  datatype Op = SetOp | UpdateOp | OtherOp

  datatype Delta = Delta(version: nat, value: int, op: Op)

  const VERSIONS := 0x1_0000_0000_0000_0000

  // ---------- Wrapping arithmetic ----------

  function Wrap(half: int, x: int): (r: int)
    requires half > 0
    ensures -half <= r < half
  {
    (x + half) % (2 * half) - half
  }

  /** Numbers a whole number of turns apart wrap alike. */
  lemma WrapTurns(half: int, x: int, k: int)
    requires half > 0
    ensures Wrap(half, x + k * (2 * half)) == Wrap(half, x)
  {
    var m := 2 * half;
    var q := (x + half) / m;
    assert x + half == q * m + (x + half) % m;
    assert x + k * m + half == (q + k) * m + (x + half) % m by { assert (q + k) * m == q * m + k * m; }
    RemainderIs(x + k * m + half, m, q + k, (x + half) % m);
  }

  /** Adding and wrapping step by step comes to wrapping the sum. */
  lemma WrapAdds(half: int, a: int, b: int)
    requires half > 0
    ensures Wrap(half, Wrap(half, a) + b) == Wrap(half, a + b)
    ensures Wrap(half, b + Wrap(half, a)) == Wrap(half, a + b)
  {
    var m := 2 * half;
    var q := (a + half) / m;
    assert Wrap(half, a) == a - q * m;
    assert a + b + (-q) * m == Wrap(half, a) + b by { assert (-q) * m == -(q * m); }
    WrapTurns(half, a + b, -q);
  }

  lemma WrapInRange(half: int, x: int)
    requires half > 0 && -half <= x < half
    ensures Wrap(half, x) == x
  {
    RemainderIs(x + half, 2 * half, 0, x + half);
  }

  /** Wrapping goes to the one number in range that is whole turns away. */
  lemma WrapMeans(half: int, x: int, r: int)
    requires half > 0
    ensures Wrap(half, x) == r <==> -half <= r < half && (r - x) % (2 * half) == 0
  {
    var m := 2 * half;
    var w := Wrap(half, x);
    TurnsApart(half, x, w);
    if -half <= r < half && (r - x) % m == 0 {
      var k := (r - x) / m;
      assert r == x + k * m by { assert r - x == k * m + (r - x) % m; }
      WrapTurns(half, x, k);
      WrapInRange(half, r);
    }
  }

  lemma TurnsApart(half: int, x: int, w: int)
    requires half > 0 && w == Wrap(half, x)
    ensures (w - x) % (2 * half) == 0
  {
    var m, q := 2 * half, (x + half) / (2 * half);
    assert x + half == q * m + (x + half) % m;
    assert w - x == (0 - q) * m by { assert (0 - q) * m == 0 - q * m; }
    RemainderIs(w - x, m, 0 - q, 0);
  }

  // ---------- What a batch means ----------

  predicate InOrder(s: seq<Delta>) {
    forall i, j :: 0 <= i < j < |s| ==> s[i].version <= s[j].version
  }

  predicate Arranges(s: seq<Delta>, batch: seq<Delta>) {
    InOrder(s) && multiset(s) == multiset(batch)
  }

  ghost predicate SetsAny(batch: multiset<Delta>) { exists d :: d in batch && d.op == SetOp }

  /** `d` is a Set that no other Set of the batch is newer than. */
  ghost predicate IsTop(batch: multiset<Delta>, d: Delta) {
    d in batch && d.op == SetOp && forall e :: e in batch && e.op == SetOp ==> e.version <= d.version
  }

  /** The newest Sets, if there are several of one version, agree on the value. */
  ghost predicate TopsAgree(batch: multiset<Delta>) {
    forall d, e :: IsTop(batch, d) && IsTop(batch, e) ==> d.value == e.value
  }

  function Amount(d: Delta): int { if d.op == UpdateOp then d.value else 0 }

  function Total(s: seq<Delta>): int {
    if s == [] then 0 else Total(s[..|s|-1]) + Amount(s[|s|-1])
  }

  lemma {:induction false} TotalWithout(s: seq<Delta>, i: nat)
    requires i < |s|
    ensures Total(s) == Total(s[..i] + s[i+1..]) + Amount(s[i])
  {
    var n := |s| - 1;
    var rest := s[..i] + s[i+1..];
    if i == n { assert rest == s[..n]; }
    else {
      TotalWithout(s[..n], i);
      assert s[..n][..i] + s[..n][i+1..] == rest[..|rest|-1];
      assert rest[|rest|-1] == s[n];
    }
  }

  lemma RemoveOne(s: seq<Delta>, i: nat)
    requires i < |s|
    ensures multiset(s) == multiset(s[..i] + s[i+1..]) + multiset{s[i]}
  {
    assert s == s[..i] + [s[i]] + s[i+1..];
  }

  lemma {:induction false} TotalPermutes(s: seq<Delta>, t: seq<Delta>)
    requires multiset(s) == multiset(t)
    ensures Total(s) == Total(t)
    decreases |s|
  {
    assert |s| == |multiset(s)| == |multiset(t)| == |t|;
    if s != [] {
      var n := |s| - 1;
      var x := s[n];
      assert s == s[..n] + [x];
      assert x in multiset(t);
      var i :| 0 <= i < |t| && t[i] == x;
      var rest := t[..i] + t[i+1..];
      RemoveOne(t, i);
      assert multiset(s[..n]) == multiset(s) - multiset{x} == multiset(rest);
      TotalPermutes(s[..n], rest);
      TotalWithout(t, i);
    }
  }

  // ---------- The loop over the batch ----------

  datatype Scan = Scan(newest: Option<int>, total: int)

  function Take(half: int, st: Scan, d: Delta): Scan
    requires half > 0
  {
    match d.op
    case SetOp => Scan(Some(d.value), 0)
    case UpdateOp => if st.newest.None? then st.(total := Wrap(half, st.total + d.value)) else st
    case OtherOp => st
  }

  function ScanAll(half: int, s: seq<Delta>): Scan
    requires half > 0
  {
    if s == [] then Scan(None, 0) else Take(half, ScanAll(half, s[..|s|-1]), s[|s|-1])
  }

  predicate LastSet(s: seq<Delta>, i: nat) {
    i < |s| && s[i].op == SetOp && forall j :: i < j < |s| ==> s[j].op != SetOp
  }

  lemma {:induction false} HasLastSet(s: seq<Delta>, k: nat) returns (i: nat)
    requires k < |s| && s[k].op == SetOp
    ensures LastSet(s, i)
    decreases |s| - k
  {
    if j :| k < j < |s| && s[j].op == SetOp { i := HasLastSet(s, j); } else { i := k; }
  }

  /** The last Set wins over everything before it, and nothing after it counts. */
  lemma {:induction false} LastSetWins(half: int, s: seq<Delta>, i: nat)
    requires half > 0 && LastSet(s, i)
    ensures ScanAll(half, s).newest == Some(s[i].value)
  {
    hide Wrap;
    var n := |s| - 1;
    if i < n {
      assert s[n].op != SetOp;
      LastSetWins(half, s[..n], i);
    }
  }

  /** Without a Set the updates add up, wrapping step by step or once. */
  lemma {:induction false} UpdatesAddUp(half: int, s: seq<Delta>)
    requires half > 0 && forall i :: 0 <= i < |s| ==> s[i].op != SetOp
    ensures ScanAll(half, s) == Scan(None, Wrap(half, Total(s)))
  {
    hide Wrap;
    if s == [] { WrapInRange(half, 0); }
    else {
      var n := |s| - 1;
      UpdatesAddUp(half, s[..n]);
      WrapAdds(half, Total(s[..n]), Amount(s[n]));
    }
  }

  lemma ArrangedHas(s: seq<Delta>, batch: seq<Delta>, d: Delta)
    requires multiset(s) == multiset(batch)
    ensures d in multiset(batch) <==> exists k :: 0 <= k < |s| && s[k] == d
  {
    assert d in multiset(s) <==> d in s;
  }

  /** Whatever order a sort by version leaves equal versions in: the value set is that of a newest Set. */
  lemma ScanFindsTop(half: int, s: seq<Delta>, batch: seq<Delta>)
    requires half > 0 && Arranges(s, batch)
    ensures SetsAny(multiset(batch)) ==>
      exists d :: IsTop(multiset(batch), d) && ScanAll(half, s).newest == Some(d.value)
    ensures !SetsAny(multiset(batch)) ==> ScanAll(half, s) == Scan(None, Wrap(half, Total(batch)))
  {
    hide Wrap, ScanAll, Total;
    var m := multiset(batch);
    if SetsAny(m) {
      var d :| d in m && d.op == SetOp;
      ArrangedHas(s, batch, d);
      var k :| 0 <= k < |s| && s[k] == d;
      var i := HasLastSet(s, k);
      LastSetWins(half, s, i);
      ArrangedHas(s, batch, s[i]);
      forall e | e in m && e.op == SetOp ensures e.version <= s[i].version {
        ArrangedHas(s, batch, e);
      }
      assert IsTop(m, s[i]);
    } else {
      forall i | 0 <= i < |s| ensures s[i].op != SetOp { ArrangedHas(s, batch, s[i]); }
      UpdatesAddUp(half, s);
      TotalPermutes(s, batch);
    }
  }

  // ---------- Independence of the order ----------

  /** What a batch does: the value it sets or the amount it adds. */
  function Effect(half: int, s: seq<Delta>): Scan
    requires half > 0
  {
    var r := ScanAll(half, s);
    if r.newest.Some? then r.(total := 0) else r
  }

  function Insert(s: seq<Delta>, x: Delta): seq<Delta> {
    if s == [] || s[|s|-1].version <= x.version then s + [x] else Insert(s[..|s|-1], x) + [s[|s|-1]]
  }

  lemma {:induction false} InsertOrders(s: seq<Delta>, x: Delta, top: nat)
    requires InOrder(s)
    requires x.version <= top && forall i :: 0 <= i < |s| ==> s[i].version <= top
    ensures InOrder(Insert(s, x)) && forall i :: 0 <= i < |Insert(s, x)| ==> Insert(s, x)[i].version <= top
  {
    if s != [] && s[|s|-1].version > x.version {
      InsertOrders(s[..|s|-1], x, s[|s|-1].version);
    }
  }

  lemma {:induction false} InsertKeeps(s: seq<Delta>, x: Delta)
    ensures multiset(Insert(s, x)) == multiset(s) + multiset{x}
  {
    if s != [] && s[|s|-1].version > x.version {
      InsertKeeps(s[..|s|-1], x);
      assert s == s[..|s|-1] + [s[|s|-1]];
    }
  }

  lemma InsertArranges(s: seq<Delta>, x: Delta)
    requires InOrder(s)
    ensures InOrder(Insert(s, x)) && multiset(Insert(s, x)) == multiset(s) + multiset{x}
  {
    InsertOrders(s, x, if s != [] && s[|s|-1].version > x.version then s[|s|-1].version else x.version);
    InsertKeeps(s, x);
  }

  /** Inserted last among its version, a newest Set decides. */
  lemma {:induction false} InsertDecides(half: int, s: seq<Delta>, x: Delta)
    requires half > 0 && InOrder(s) && x.op == SetOp
    requires forall i :: 0 <= i < |s| && s[i].op == SetOp ==> s[i].version <= x.version
    ensures ScanAll(half, Insert(s, x)).newest == Some(x.value)
  {
    if s == [] || s[|s|-1].version <= x.version {
      assert (s + [x])[..|s|] == s;
    } else {
      var n := |s| - 1;
      InsertDecides(half, s[..n], x);
      var t := Insert(s[..n], x) + [s[n]];
      assert t[..|t|-1] == Insert(s[..n], x);
    }
  }

  function Sorted(s: seq<Delta>): seq<Delta> {
    if s == [] then [] else Insert(Sorted(s[..|s|-1]), s[|s|-1])
  }

  lemma {:induction false} SortedArranges(s: seq<Delta>)
    ensures Arranges(Sorted(s), s)
  {
    if s != [] {
      var n := |s| - 1;
      SortedArranges(s[..n]);
      InsertArranges(Sorted(s[..n]), s[n]);
      assert s == s[..n] + [s[n]];
    }
  }

  /** Every newest Set can come last: some sort by version puts it there. */
  lemma TopCanDecide(half: int, batch: seq<Delta>, x: Delta) returns (s: seq<Delta>)
    requires half > 0 && IsTop(multiset(batch), x)
    ensures Arranges(s, batch) && ScanAll(half, s).newest == Some(x.value)
  {
    var i :| 0 <= i < |batch| && batch[i] == x;
    var rest := batch[..i] + batch[i+1..];
    RemoveOne(batch, i);
    var t := Sorted(rest);
    SortedArranges(rest);
    forall j | 0 <= j < |t| && t[j].op == SetOp ensures t[j].version <= x.version {
      assert t[j] in multiset(t);
      assert t[j] in multiset(batch);
    }
    InsertArranges(t, x);
    InsertDecides(half, t, x);
    s := Insert(t, x);
  }

  /** A batch has one effect, whatever order the sort leaves equal versions in and so whatever order it
      arrives in, exactly when its newest Sets agree; distinct versions are a special case. */
  lemma OrderFreeIff(half: int, batch: seq<Delta>)
    requires half > 0
    ensures TopsAgree(multiset(batch)) <==>
      forall s, t :: Arranges(s, batch) && Arranges(t, batch) ==> Effect(half, s) == Effect(half, t)
  {
    var m := multiset(batch);
    if TopsAgree(m) {
      forall s, t | Arranges(s, batch) && Arranges(t, batch) ensures Effect(half, s) == Effect(half, t) {
        ScanFindsTop(half, s, batch);
        ScanFindsTop(half, t, batch);
      }
    } else {
      var d, e :| IsTop(m, d) && IsTop(m, e) && d.value != e.value;
      var s := TopCanDecide(half, batch, d);
      var t := TopCanDecide(half, batch, e);
      assert Effect(half, s) != Effect(half, t);
    }
  }

  lemma DistinctVersionsAgree(batch: seq<Delta>)
    requires forall i, j :: 0 <= i < j < |batch| ==> batch[i].version != batch[j].version
    ensures TopsAgree(multiset(batch))
  {
    var m := multiset(batch);
    forall d, e | IsTop(m, d) && IsTop(m, e) ensures d.value == e.value {
      assert d in batch && e in batch;
      var i :| 0 <= i < |batch| && batch[i] == d;
      var j :| 0 <= j < |batch| && batch[j] == e;
      assert d.version == e.version;
    }
  }

  /** Two Sets of one version and different values: the order decides. */
  lemma OrderMayMatter(half: int, version: nat, v: int, w: int)
    requires half > 0 && v != w
    ensures var batch := [Delta(version, v, SetOp), Delta(version, w, SetOp)];
            && !TopsAgree(multiset(batch))
            && exists s, t :: Arranges(s, batch) && Arranges(t, batch) && Effect(half, s) != Effect(half, t)
  {
    var d, e := Delta(version, v, SetOp), Delta(version, w, SetOp);
    var batch := [d, e];
    assert d in multiset(batch) && e in multiset(batch);
    forall x | x in multiset(batch) ensures x == d || x == e { assert x in batch; }
    assert IsTop(multiset(batch), d) && IsTop(multiset(batch), e);
    OrderFreeIff(half, batch);
  }

  // ---------- The variable ----------

  /** Sorts by version. The comparison the source passes to its sort is not strict, so nothing is
      promised, and nothing relied on, about the order of equal versions. */
  method SortByVersion(batch: seq<Delta>) returns (s: seq<Delta>)
    ensures Arranges(s, batch)
  {
    s := [];
    for i := 0 to |batch|
      invariant Arranges(s, batch[..i])
    {
      InsertArranges(s, batch[i]);
      assert batch[..i+1] == batch[..i] + [batch[i]];
      s := Insert(s, batch[i]);
    }
    assert batch[..|batch|] == batch;
  }

  /** One pass over the sorted batch: a Set replaces the one before it, and an update counts only
      as long as no Set was met. */
  method Merge(half: int, deltas: seq<Delta>) returns (newest: Option<int>, total: int)
    requires half > 0
    ensures Scan(newest, total) == ScanAll(half, deltas)
  {
    hide Wrap;
    newest, total := None, 0;
    var i := 0;
    while i < |deltas|
      invariant 0 <= i <= |deltas|
      invariant Scan(newest, total) == ScanAll(half, deltas[..i])
    {
      var delta := deltas[i];
      assert deltas[..i+1][..i] == deltas[..i];
      match delta.op {
        case SetOp =>
          newest := Some(delta.value);
          total := 0;
        case UpdateOp =>
          if newest.None? {
            total := Wrap(half, total + delta.value);
          }
        case OtherOp =>
      }
      i := i + 1;
    }
    assert deltas[..i] == deltas;
  }

  predicate InRange(half: int, batch: seq<Delta>) {
    forall i :: 0 <= i < |batch| ==> -half <= batch[i].value < half
  }

  lemma TopInRange(half: int, batch: seq<Delta>)
    requires InRange(half, batch)
    ensures forall d :: IsTop(multiset(batch), d) ==> -half <= d.value < half
  {
    forall d | IsTop(multiset(batch), d) ensures -half <= d.value < half { assert d in batch; }
  }

  lemma TopsAre(batch: seq<Delta>)
    ensures forall d :: IsTop(multiset(batch), d) ==> d in batch && d.op == SetOp && forall e :: e in batch && e.op == SetOp ==> e.version <= d.version
  {
  }

  /** The total counts the updates of the batch and nothing else. */
  lemma TotalCounts(s: seq<Delta>, d: Delta)
    ensures Total([]) == 0 && Total(s + [d]) == Total(s) + if d.op == UpdateOp then d.value else 0
  {
    assert (s + [d])[..|s|] == s;
  }

  class AtomicInt {
    const half: int
    var value: int
    var version: nat
    var dirty: bool

    ghost predicate Valid()
      reads this
    {
      half > 0 && -half <= value < half && version < VERSIONS
    }

    constructor (half: int, initial: int)
      requires half > 0 && -half <= initial < half
      ensures Valid() && this.half == half && value == initial && version == 1 && !dirty
    {
      this.half := half;
      value := initial;
      version := 1;
      dirty := false;
    }

    method Set(v: int)
      requires Valid() && -half <= v < half
      modifies this
      ensures Valid() && value == v && version == (old(version) + 1) % 0x1_0000_0000_0000_0000 && dirty
    {
      value := v;
      version := (version + 1) % VERSIONS;
      dirty := true;
    }

    method Add(delta: int) returns (r: int)
      requires Valid()
      modifies this
      ensures Valid() && r == value == Wrap(half, old(value) + delta)
      ensures version == (old(version) + 1) % 0x1_0000_0000_0000_0000 && dirty
    {
      value := Wrap(half, value + delta);
      version := (version + 1) % VERSIONS;
      dirty := true;
      r := value;
    }

    /** Stores the value of a newest Set, if the batch has any; otherwise adds all the updates. One
        version step at most, and none, with nothing marked, when the updates cancel out. */
    method ApplyDeltas(batch: seq<Delta>) returns (r: int)
      requires Valid() && InRange(half, batch)
      modifies this
      ensures Valid() && r == value
      ensures SetsAny(multiset(batch)) ==>
        && (exists d :: d in batch && d.op == SetOp && value == d.value && forall e :: e in batch && e.op == SetOp ==> e.version <= d.version)
        && version == (old(version) + 1) % 0x1_0000_0000_0000_0000 && dirty
      ensures !SetsAny(multiset(batch)) ==>
        && value == Wrap(half, old(value) + Total(batch))
        && (if Wrap(half, Total(batch)) == 0 then value == old(value) && version == old(version) && dirty == old(dirty)
            else version == (old(version) + 1) % 0x1_0000_0000_0000_0000 && dirty)
    {
      hide Wrap, InOrder, Arranges, Total, ScanAll, IsTop, SetsAny, InRange;
      var deltas := SortByVersion(batch);
      var newest, total := Merge(half, deltas);
      ScanFindsTop(half, deltas, batch);
      WrapAdds(half, Total(batch), value);
      TopInRange(half, batch);
      TopsAre(batch);
      if newest.Some? {
        Set(newest.value);
        r := newest.value;
      } else if total != 0 {
        r := Add(total);
      } else {
        WrapInRange(half, value);
        r := value;
      }
    }
  }
}
