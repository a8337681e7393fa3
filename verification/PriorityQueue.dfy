/** Binary max-heaps laid out in a sequence, and what one swap of a sift does to them. */
module HeapOrder {

  /** Go's (j - 1) / 2, which rounds toward zero: -1 and 0 are their own parents. */
  function Parent(j: int): int
    requires j >= -1
  {
    if j <= 0 then j else (j - 1) / 2
  }

  /** The first `n` keys form a heap. */
  ghost predicate Heap(s: seq<int>, n: nat)
    requires n <= |s|
  {
    forall j {:trigger Parent(j)} :: 0 < j < n ==> s[Parent(j)] >= s[j]
  }

  /** Only `k` may be out of place with respect to its parent. */
  ghost predicate HeapBelow(s: seq<int>, k: int, n: nat)
    requires n <= |s|
  {
    forall j {:trigger Parent(j)} :: 0 < j < n && j != k ==> s[Parent(j)] >= s[j]
  }

  /** Only `k` may be out of place, with respect to its parent or to its children. */
  ghost predicate HeapAround(s: seq<int>, k: int, n: nat)
    requires n <= |s|
  {
    forall j {:trigger Parent(j)} :: 0 < j < n && j != k && Parent(j) != k ==> s[Parent(j)] >= s[j]
  }

  /** The children of `k` are in place with respect to the parent of `k`. */
  ghost predicate Bridged(s: seq<int>, k: int, n: nat)
    requires n <= |s|
  {
    0 < k < |s| ==> forall j {:trigger Parent(j)} :: 0 < j < n && Parent(j) == k ==> s[Parent(k)] >= s[j]
  }

  function Swapped<X>(s: seq<X>, i: int, j: int): (t: seq<X>)
    requires 0 <= i < |s| && 0 <= j < |s|
    ensures |t| == |s| && t[i] == s[j] && t[j] == s[i]
    ensures forall k :: 0 <= k < |s| && k != i && k != j ==> t[k] == s[k]
  {
    seq(|s|, k requires 0 <= k < |s| => if k == i then s[j] else if k == j then s[i] else s[k])
  }

  lemma SwapPermutes<X>(s: seq<X>, i: int, j: int)
    requires 0 <= i < |s| && 0 <= j < |s|
    ensures multiset(Swapped(s, i, j)) == multiset(s)
  {
    assert Swapped(s, i, j) == s[i := s[j]][j := s[i]];
  }

  /** One step up: the hole moves to the parent. */
  lemma StepUp(s: seq<int>, k: int, n: nat)
    requires 0 < k < n <= |s| && HeapBelow(s, k, n) && Bridged(s, k, n)
    requires s[Parent(k)] < s[k]
    ensures var i := Parent(k); var t := Swapped(s, i, k);
            HeapBelow(t, i, n) && Bridged(t, i, n)
  {
    var i := Parent(k);
    var t := Swapped(s, i, k);
    forall j | 0 < j < n && j != i ensures t[Parent(j)] >= t[j] {
      assert j == k || s[Parent(j)] >= s[j];
    }
    forall j | 0 < i && 0 < j < n && Parent(j) == i ensures t[Parent(i)] >= t[j] {
      assert j == k || s[Parent(j)] >= s[j];
      assert s[Parent(i)] >= s[i];
    }
  }

  /** The child of `k` that Go's down loop compares with it. */
  ghost predicate LargerChild(s: seq<int>, k: int, c: int, n: nat)
    requires n <= |s|
  {
    && 0 <= k < c < n && Parent(c) == k
    && forall j {:trigger Parent(j)} :: 0 < j < n && Parent(j) == k ==> s[c] >= s[j]
  }

  lemma Children(s: seq<int>, k: int, c: int, n: nat)
    requires 0 <= k && 2 * k + 1 < n <= |s|
    requires c == if 2 * k + 2 < n && s[2 * k + 2] > s[2 * k + 1] then 2 * k + 2 else 2 * k + 1
    ensures LargerChild(s, k, c, n)
  {
  }

  /** One step down: the hole moves to the larger child, which fits where the hole was. */
  lemma StepDown(s: seq<int>, k: int, c: int, n: nat)
    requires n <= |s| && HeapAround(s, k, n) && Bridged(s, k, n)
    requires LargerChild(s, k, c, n) && s[c] > s[k]
    ensures var t := Swapped(s, k, c);
            HeapAround(t, c, n) && Bridged(t, c, n) && t[k] >= t[c] && (k > 0 ==> t[Parent(k)] >= t[k])
  {
    var t := Swapped(s, k, c);
    forall j | 0 < j < n && j != c && Parent(j) != c ensures t[Parent(j)] >= t[j] {
      assert s[j] == t[j] || j == k;
      assert j == k || Parent(j) == k || s[Parent(j)] >= s[j];
    }
    forall j | 0 < j < n && Parent(j) == c ensures t[Parent(c)] >= t[j] {
      assert s[Parent(j)] >= s[j];
    }
  }

  /** Sifting down ends at a leaf, or where no child is larger. */
  lemma StopAtLeaf(s: seq<int>, k: int, n: nat)
    requires -1 <= k && n <= |s| && HeapAround(s, k, n)
    requires 2 * k + 1 >= n || 2 * k + 1 < 0
    ensures HeapBelow(s, k, n)
  {
  }

  lemma HoleCloses(s: seq<int>, k: int, n: nat)
    requires n <= |s| && HeapBelow(s, k, n) && (0 < k < n ==> s[Parent(k)] >= s[k])
    ensures Heap(s, n)
  {
  }

  lemma StopAbove(s: seq<int>, k: int, c: int, n: nat)
    requires n <= |s| && HeapAround(s, k, n)
    requires LargerChild(s, k, c, n) && s[k] >= s[c]
    ensures HeapBelow(s, k, n)
  {
  }

  /** The root is a maximum. */
  lemma {:induction false} RootIsMax(s: seq<int>, j: nat)
    requires j < |s| && Heap(s, |s|)
    ensures s[0] >= s[j]
    decreases j
  {
    if j > 0 {
      RootIsMax(s, Parent(j));
    }
  }

  /** Changing one key of a heap leaves only that key out of place. */
  lemma KeyChanges(s: seq<int>, k: nat, key: int)
    requires k < |s| && Heap(s, |s|)
    ensures HeapAround(s[k := key], k, |s|) && Bridged(s[k := key], k, |s|)
  {
    var t := s[k := key];
    forall j | 0 < j < |s| && j != k && Parent(j) != k ensures t[Parent(j)] >= t[j] {
      assert s[Parent(j)] >= s[j];
    }
    forall j | 0 < k && 0 < j < |s| && Parent(j) == k ensures t[Parent(k)] >= t[j] {
      assert s[Parent(j)] >= s[j] && s[Parent(k)] >= s[k];
    }
  }

  /** A heap has nothing out of place anywhere. */
  lemma HeapIsAround(s: seq<int>, k: int)
    requires Heap(s, |s|)
    ensures HeapAround(s, k, |s|) && Bridged(s, k, |s|)
  {
    forall j | 0 < k < |s| && 0 < j < |s| && Parent(j) == k ensures s[Parent(k)] >= s[j] {
      assert s[Parent(j)] >= s[j] && s[Parent(k)] >= s[k];
    }
  }

  /** A key appended to a heap is all that may be out of place. */
  lemma KeyAppended(s: seq<int>, key: int)
    requires Heap(s, |s|)
    ensures HeapBelow(s + [key], |s|, |s| + 1) && Bridged(s + [key], |s|, |s| + 1)
  {
    var t := s + [key];
    forall j | 0 < j < |s| ensures t[Parent(j)] >= t[j] {
      assert s[Parent(j)] >= s[j];
    }
  }

  lemma HeapTruncated(s: seq<int>, n: nat)
    requires n <= |s| && Heap(s, n)
    ensures Heap(s[..n], n)
  {
    forall j | 0 < j < n ensures s[..n][Parent(j)] >= s[..n][j] {
      assert s[Parent(j)] >= s[j];
    }
  }

  /** Swapping the root behind the heap leaves only the root out of place. */
  lemma RootLeaves(s: seq<int>)
    requires |s| > 0 && Heap(s, |s|)
    ensures var n := |s| - 1; var t := Swapped(s, 0, n); HeapAround(t, 0, n) && Bridged(t, 0, n)
  {
    var n := |s| - 1;
    var t := Swapped(s, 0, n);
    forall j | 0 < j < n && Parent(j) != 0 ensures t[Parent(j)] >= t[j] {
      assert s[Parent(j)] >= s[j];
    }
  }
}

/** The priority queue with handles (pkg/sequence/queue.go): items know their own position,
    so that a queued item can be given a new priority. The sifting loops are those of Go's
    container/heap driven by this queue's Less, Swap, Push and Pop. */
module PriorityQueues {
  import opened HeapOrder
  import opened Options

  lemma LastOne<X>(s: seq<X>)
    requires |s| > 0
    ensures multiset(s) == multiset(s[..|s|-1]) + multiset{s[|s|-1]}
  {
    assert s == s[..|s|-1] + [s[|s|-1]];
  }

  class PriorityItem<T> {
    var value: T
    var priority: int
    var index: int

    constructor (value: T, priority: int)
      ensures this.value == value && this.priority == priority
    {
      this.value, this.priority, index := value, priority, 0;
    }
  }

  class PriorityQueue<T> {
    var items: seq<PriorityItem<T>>
    ghost var Repr: set<PriorityItem<T>>

    /** Every queued item knows where it is. */
    ghost predicate Indexed()
      reads this, items
    {
      forall i :: 0 <= i < |items| ==> items[i] in Repr && items[i].index == i
    }

    predicate Queued(item: PriorityItem<T>)
      reads this, item
    {
      0 <= item.index < |items| && items[item.index] == item
    }

    ghost function Keys(): (s: seq<int>)
      reads this, items
      ensures |s| == |items| && forall i :: 0 <= i < |s| ==> s[i] == items[i].priority
    {
      seq(|items|, i requires 0 <= i < |items| reads this, items => items[i].priority)
    }

    ghost predicate Valid()
      reads this, items
    {
      Indexed() && Heap(Keys(), |items|)
    }

    /** What sifting may change: the order of the items, and their indices along with it. */
    twostate predicate Rearranged()
      reads this, items
    {
      Indexed() && Repr == old(Repr) && |items| == old(|items|) && multiset(items) == multiset(old(items))
    }

    constructor ()
      ensures Valid() && items == [] && Repr == {}
    {
      items, Repr := [], {};
    }

    predicate Less(i: int, j: int)
      requires 0 <= i < |items| && 0 <= j < |items|
      reads this, items
    {
      items[i].priority > items[j].priority
    }

    method Swap(i: int, j: int)
      requires 0 <= i < |items| && 0 <= j < |items| && Indexed()
      modifies this`items, Repr`index
      ensures items == Swapped(old(items), i, j) && Keys() == Swapped(old(Keys()), i, j)
      ensures Rearranged()
    {
      SwapPermutes(items, i, j);
      items := Swapped(items, i, j);
      items[i].index := i;
      items[j].index := j;
    }

    method Push(item: PriorityItem<T>)
      requires Indexed() && item !in Repr
      modifies this`items, this`Repr, item`index
      ensures items == old(items) + [item] && Repr == old(Repr) + {item}
      ensures Indexed() && Keys() == old(Keys()) + [item.priority]
    {
      ghost var s := Keys();
      item.index := |items|;
      items := items + [item];
      Repr := Repr + {item};
      assert Keys() == s + [item.priority];
    }

    method Pop() returns (item: PriorityItem<T>)
      requires Indexed() && |items| > 0
      modifies this`items, Repr`index
      ensures items == old(items)[..|old(items)|-1] && item == old(items)[|old(items)|-1]
      ensures Indexed() && item.index == -1 && Keys() == old(Keys())[..|items|]
      ensures multiset(old(items)) == multiset(items) + multiset{item}
    {
      LastOne(items);
      var n := |items|;
      item := items[n-1];
      item.index := -1;
      items := items[..n-1];
    }

    // ---------- container/heap ----------

    method Up(j0: int)
      requires -1 <= j0 < |items| && Indexed()
      requires HeapBelow(Keys(), j0, |items|) && Bridged(Keys(), j0, |items|)
      modifies this`items, Repr`index
      ensures Valid() && Rearranged()
      ensures j0 <= 0 ==> items == old(items)
    {
      var j := j0;
      while true
        invariant -1 <= j < |items| && Rearranged()
        invariant j0 <= 0 ==> j == j0 && items == old(items)
        invariant HeapBelow(Keys(), j, |items|) && Bridged(Keys(), j, |items|)
        decreases j
      {
        var i := Parent(j);
        if i == j || !Less(j, i) {
          break;
        }
        StepUp(Keys(), j, |items|);
        Swap(i, j);
        j := i;
      }
    }

    /** Sifts down within the first `n` items; tells whether anything moved. */
    method Down(i0: int, n: int) returns (moved: bool)
      requires -1 <= i0 < |items| && 0 <= n <= |items| && Indexed()
      requires HeapAround(Keys(), i0, n) && Bridged(Keys(), i0, n)
      modifies this`items, Repr`index
      ensures Rearranged() && (n < |items| ==> items[n] == old(items)[n])
      ensures if moved then i0 >= 0 && Heap(Keys(), n) else items == old(items) && HeapBelow(Keys(), i0, n)
    {
      hide HeapAround, HeapBelow, Bridged, Heap;
      var i := i0;
      ghost var s := Keys();
      while true
        invariant i0 <= i < |items| && Rearranged() && s == Keys()
        invariant n < |items| ==> items[n] == old(items)[n]
        invariant HeapAround(s, i, n) && Bridged(s, i, n)
        invariant i == i0 ==> items == old(items)
        invariant i > i0 ==> i0 >= 0 && i < n && s[Parent(i)] >= s[i]
        decreases n - i
      {
        var j1 := 2 * i + 1;
        if j1 >= n || j1 < 0 {
          StopAtLeaf(s, i, n);
          break;
        }
        var j2 := j1 + 1;
        var j := if j2 < n && Less(j2, j1) then j2 else j1;
        Children(s, i, j, n);
        if !Less(j, i) {
          StopAbove(s, i, j, n);
          break;
        }
        StepDown(s, i, j, n);
        s := Swapped(s, i, j);
        Swap(i, j);
        i := j;
      }
      moved := i > i0;
      if moved {
        HoleCloses(s, i, n);
      }
    }

    /** Sifts down, and if that moved nothing, up. */
    method Fix(i: int)
      requires -1 <= i < |items| && Indexed()
      requires HeapAround(Keys(), i, |items|) && Bridged(Keys(), i, |items|)
      modifies this`items, Repr`index
      ensures Valid() && Rearranged()
      ensures i == -1 ==> items == old(items)
    {
      var moved := Down(i, |items|);
      if !moved {
        Up(i);
      }
    }

    /** The root goes behind the heap, and its stand-in sifts down. */
    method PopRoot() returns (item: PriorityItem<T>)
      requires Valid() && |items| > 0
      modifies this`items, Repr`index
      ensures Valid() && item == old(items)[0] && item.index == -1
      ensures multiset(old(items)) == multiset(items) + multiset{item}
    {
      hide HeapAround, HeapBelow, Bridged, Heap;
      var n := |items| - 1;
      RootLeaves(Keys());
      Swap(0, n);
      var moved := Down(0, n);
      if !moved {
        HoleCloses(Keys(), 0, n);
      }
      HeapTruncated(Keys(), n);
      item := Pop();
    }

    /** The new item goes last and sifts up. */
    method PushItem(item: PriorityItem<T>)
      requires Valid() && item !in Repr
      modifies this, Repr`index, item`index
      ensures Valid() && Repr == old(Repr) + {item}
      ensures multiset(items) == multiset(old(items)) + multiset{item}
    {
      ghost var s := Keys();
      KeyAppended(s, item.priority);
      Push(item);
      assert Keys() == s + [item.priority];
      Up(|items| - 1);
    }

    // ---------- the queue ----------

    method Enqueue(value: T, priority: int) returns (item: PriorityItem<T>)
      requires Valid()
      modifies this, Repr`index
      ensures Valid() && fresh(item) && item.value == value && item.priority == priority && Queued(item)
      ensures multiset(items) == multiset(old(items)) + multiset{item} && Repr == old(Repr) + {item}
    {
      item := new PriorityItem(value, priority);
      PushItem(item);
      StillQueued(item);
    }

    lemma StillQueued(item: PriorityItem<T>)
      requires Indexed() && item in multiset(items)
      ensures Queued(item)
    {
      assert item in items;
    }

    lemma RootIsHighest()
      requires Valid() && |items| > 0
      ensures forall i :: 0 <= i < |items| ==> items[i].priority <= items[0].priority
    {
      forall i | 0 <= i < |items| ensures items[i].priority <= items[0].priority {
        RootIsMax(Keys(), i);
      }
    }

    /** Takes out an item of highest priority, if there is one, and marks it as not queued. */
    method Dequeue() returns (r: Option<T>)
      requires Valid()
      modifies this`items, Repr`index
      ensures Valid()
      ensures old(items) == [] ==> r == None && items == []
      ensures old(items) != [] ==>
                var top := old(items)[0];
                && r == Some(top.value) && top.index == -1
                && multiset(old(items)) == multiset(items) + multiset{top}
                && forall i :: 0 <= i < |old(items)| ==> old(items)[i].priority <= top.priority
    {
      if |items| == 0 {
        return None;
      }
      RootIsHighest();
      var item := PopRoot();
      return Some(item.value);
    }

    method Peek() returns (r: Option<T>)
      requires Valid()
      ensures items == [] <==> r == None
      ensures items != [] ==>
                r == Some(items[0].value) && forall i :: 0 <= i < |items| ==> items[i].priority <= items[0].priority
    {
      if |items| == 0 {
        return None;
      }
      RootIsHighest();
      return Some(items[0].value);
    }

    /** Gives an item a new value and priority. An item that is not in the queue, because it was taken
        out or belongs to another one, is changed but not queued; its index must at least be a place here. */
    method Update(item: PriorityItem<T>, value: T, priority: int)
      requires Valid() && -1 <= item.index < |items|
      modifies this`items, Repr`index, item`value, item`priority
      ensures Valid() && multiset(items) == multiset(old(items))
      ensures item.value == value && item.priority == priority
      ensures old(Queued(item)) ==> Queued(item)
      ensures old(item.index) == -1 ==> items == old(items)
    {
      ghost var s := Keys();
      item.value := value;
      item.priority := priority;
      if Queued(item) {
        assert Keys() == s[item.index := priority];
        KeyChanges(s, item.index, priority);
        assert item in multiset(items);
      } else {
        assert Keys() == s;
        HeapIsAround(s, item.index);
      }
      Fix(item.index);
      if old(Queued(item)) {
        StillQueued(item);
      }
    }
  }

  /** What was put in is what was taken out and what is still queued. */
  ghost predicate Balanced<X>(sent: seq<X>, taken: seq<X>, queued: seq<X>) {
    multiset(sent) == multiset(taken) + multiset(queued)
  }

  lemma SentOne<X>(sent: seq<X>, taken: seq<X>, queued: seq<X>, queued': seq<X>, x: X)
    requires Balanced(sent, taken, queued) && multiset(queued') == multiset(queued) + multiset{x}
    ensures Balanced(sent + [x], taken, queued') && |queued'| == |queued| + 1
  {
    Taken(queued', queued, x);
  }

  lemma TookOne<X>(sent: seq<X>, taken: seq<X>, queued: seq<X>, queued': seq<X>, x: X)
    requires Balanced(sent, taken, queued) && multiset(queued) == multiset(queued') + multiset{x}
    ensures Balanced(sent, taken + [x], queued') && |queued'| == |queued| - 1
  {
    Taken(queued, queued', x);
  }

  ghost predicate NonIncreasing(s: seq<int>) {
    forall i, j :: 0 <= i < j < |s| ==> s[i] >= s[j]
  }

  lemma NonIncreasingExtends(s: seq<int>, p: int)
    requires NonIncreasing(s) && (s != [] ==> s[|s|-1] >= p)
    ensures NonIncreasing(s + [p])
  {
    forall i | 0 <= i < |s| ensures s[i] >= p { assert s[i] >= s[|s|-1]; }
  }

  /** Draining a queue gives all its items, highest priority first. */
  method Drain<T>(q: PriorityQueue<T>) returns (values: seq<T>, ghost order: seq<PriorityItem<T>>, ghost priorities: seq<int>)
    requires q.Valid()
    modifies q`items, q.Repr`index
    ensures q.items == [] && multiset(order) == multiset(old(q.items))
    ensures |values| == |order| == |priorities|
    ensures forall i :: 0 <= i < |order| ==> values[i] == order[i].value && priorities[i] == order[i].priority
    ensures NonIncreasing(priorities)
  {
    hide NonIncreasing, Balanced, Heap, PriorityQueue.Valid, PriorityQueue.Indexed;
    ghost var all := q.items;
    values, order, priorities := [], [], [];
    NothingDrained(all);
    while |q.items| > 0
      invariant q.Valid() && q.Repr == old(q.Repr)
      invariant Balanced(all, order, q.items)
      invariant |values| == |order| == |priorities| && NonIncreasing(priorities)
      invariant forall i :: 0 <= i < |order| ==> values[i] == order[i].value && priorities[i] == order[i].priority
      invariant priorities != [] ==> forall j :: 0 <= j < |q.items| ==> q.items[j].priority <= priorities[|priorities|-1]
      decreases |q.items|
    {
      ghost var before := q.items;
      var r := q.Dequeue();
      TookOne(all, order, before, q.items, before[0]);
      Taken(before, q.items, before[0]);
      NonIncreasingExtends(priorities, before[0].priority);
      values, order, priorities := values + [r.value], order + [before[0]], priorities + [before[0].priority];
    }
    AllDrained(all, order);
  }

  lemma NothingDrained<X>(all: seq<X>)
    ensures NonIncreasing([]) && Balanced(all, [], all)
  {
  }

  lemma AllDrained<X>(all: seq<X>, order: seq<X>)
    requires Balanced(all, order, [])
    ensures multiset(order) == multiset(all)
  {
  }

  lemma Taken<X>(before: seq<X>, after: seq<X>, x: X)
    requires multiset(before) == multiset(after) + multiset{x}
    ensures |before| == |after| + 1
    ensures forall j :: 0 <= j < |after| ==> after[j] in before
  {
    assert |multiset(before)| == |before| && |multiset(after)| == |after|;
    forall j | 0 <= j < |after| ensures after[j] in before {
      assert after[j] in multiset(after) && after[j] in multiset(before);
    }
  }
}
