/** The overwrite-oldest ring buffer of internal/core/syncv2/vars/channel.go (CycleChannel).
    Its cursors are uint32 counters that run freely and are reduced modulo the buffer size
    only when a slot is read or written, so they wrap at 2^32, not at the size.

    `Ring` is the state as plain data with each operation as a function; the class performs
    the same operations in place. `Bounded` is what the buffer is for: a sequence that drops
    its oldest item when full. */
module CycleChannels {
  import opened Options

  const WRAP: int := 0x1_0000_0000
  const WRAP64: int := 0x1_0000_0000_0000_0000
  const HALF: int := 0x8000_0000

  function U32(x: int): (r: nat)
    ensures r < WRAP && (0 <= x < WRAP ==> r == x) && (x == WRAP ==> r == 0)
  {
    x % WRAP
  }

  /** Go's conversion to int32. */
  function I32(x: int): (r: int)
    ensures -HALF <= r < HALF && (0 <= x < HALF ==> r == x)
  {
    if x % WRAP < HALF then x % WRAP else x % WRAP - WRAP
  }

  lemma U32Add(a: int, b: int)
    ensures U32(a + U32(b)) == U32(a + b) && U32(U32(a) + b) == U32(a + b)
  {
    WrapShift(a + b % WRAP, b / WRAP);
    WrapShift(a % WRAP + b, a / WRAP);
  }

  lemma WrapShift(x: int, k: int)
    ensures U32(x + WRAP * k) == U32(x)
  {
    var q, q' := x / WRAP, (x + WRAP * k) / WRAP;
    assert x == WRAP * q + x % WRAP && x + WRAP * k == WRAP * q' + (x + WRAP * k) % WRAP;
  }

  /** The slot of the `i`-th item after the tail. */
  function SlotOf(size: nat, tail: nat, i: int): (p: nat)
    requires 0 < size
    ensures p < size
  {
    U32(tail + i) % size
  }

  /** The first `n` items from the tail on. */
  function Window<T>(buffer: seq<T>, size: nat, tail: nat, n: nat): (s: seq<T>)
    requires 0 < size <= |buffer|
    ensures |s| == n && forall i :: 0 <= i < n ==> s[i] == buffer[SlotOf(size, tail, i)]
  {
    seq(n, i => buffer[SlotOf(size, tail, i)])
  }

  datatype Ring<T> = Ring(buffer: seq<T>, size: nat, head: nat, tail: nat, count: int,
                          current: T, version: nat, dirty: bool, closed: bool)
  {
    /** What the Go types and the allocation of the buffer guarantee. */
    predicate Formed() {
      0 < size < WRAP && size <= |buffer| && head < WRAP && tail < WRAP && -HALF <= count < HALF
    }

    function Slot(i: int): (p: nat)
      requires 0 < size
    {
      SlotOf(size, tail, i)
    }

    function Touched(): Ring<T> {
      this.(version := (version + 1) % WRAP64, dirty := true)
    }

    /** The part of a send that runs under the lock. */
    function Append(value: T): Ring<T>
      requires Formed()
    {
      var c := I32(count + 1);
      var full := c > I32(size);
      this.(buffer := buffer[head % size := value], head := U32(head + 1),
            tail := if full then U32(tail + 1) else tail,
            count := if full then I32(size) else c, current := value).Touched()
    }

    function Send(value: T): (Ring<T>, bool)
      requires Formed()
    {
      if closed then (this, false) else (Append(value), true)
    }

    function Receive(): (Ring<T>, Option<T>)
      requires Formed()
    {
      if count == 0 then (this, None)
      else
        var value := buffer[Slot(0)];
        (this.(tail := U32(tail + 1), count := I32(count - 1), current := value), Some(value))
    }

    function Peek(): Option<T>
      requires Formed()
    {
      if count == 0 then None else Some(buffer[Slot(0)])
    }

    function Front(n: nat): (s: seq<T>)
      requires Formed()
      ensures |s| == n
    {
      Window(buffer, size, tail, n)
    }

    lemma FirstSlot()
      requires Formed()
      ensures Slot(0) == tail % size
    {
      assert U32(tail) == tail;
    }

    lemma FrontStep(n: nat)
      requires Formed()
      ensures Front(n + 1) == Front(n) + [buffer[Slot(n)]] && Slot(n) == U32(tail + U32(n)) % size
    {
      U32Add(tail, n);
    }

    function DrainAll(): (Ring<T>, seq<T>)
      requires Formed() && count >= 0
    {
      if count == 0 then (this, [])
      else (this.(head := 0, tail := 0, count := 0).Touched(), Front(count))
    }

    /** Moves the tail past the oldest items that do not fit into `n` slots. */
    function Trimmed(n: nat): Ring<T> {
      if count > I32(n) then this.(tail := U32(tail + U32(count - I32(n))), count := I32(n)) else this
    }

    /** The remaining items, moved to the front of `n` slots. */
    function Moved(n: nat, zero: T): Ring<T>
      requires Formed() && count <= n
    {
      var front := if count > 0 then Front(count) else [];
      this.(buffer := front + seq(n - |front|, _ => zero), size := U32(n), head := U32(count), tail := 0).Touched()
    }

    function SetBufferSize(n: int, zero: T): (Ring<T>, bool)
      requires Formed()
    {
      if n <= 0 || closed then (this, false) else (Trimmed(n).Moved(n, zero), true)
    }

    function Close(): Ring<T> {
      this.(closed := true)
    }
  }

  /** The size is kept as a uint32, which must not come out as 0: nothing can be reduced modulo that. */
  predicate Usable(n: int) { n <= 0 || U32(n) != 0 }

  /** A new channel; a size that is not positive becomes 1. */
  function NewRing<T>(bufferSize: int, initial: T, zero: T): (r: Ring<T>)
    ensures Usable(bufferSize) ==> r.Formed()
  {
    var n := if bufferSize <= 0 then 1 else bufferSize;
    Ring(seq(n, _ => zero), U32(n), 0, 0, 0, initial, 0, false, false)
  }

  class CycleChannel<T(0)> {
    var buffer: array<T>
    var size: nat
    var head: nat
    var tail: nat
    var count: int
    var current: T
    var version: nat
    var dirty: bool
    var closed: bool
    const zero: T

    ghost function View(): Ring<T>
      reads this, buffer
    {
      Ring(buffer[..], size, head, tail, count, current, version, dirty, closed)
    }

    ghost predicate Valid()
      reads this, buffer
    {
      View().Formed()
    }

    constructor (bufferSize: int, initialValue: T, zero: T)
      ensures View() == NewRing(bufferSize, initialValue, zero) && fresh(buffer) && this.zero == zero
      ensures count == 0 && current == initialValue && version == 0 && !dirty && !closed
      ensures buffer.Length == (if bufferSize <= 0 then 1 else bufferSize) && size == buffer.Length % 0x1_0000_0000
      ensures Usable(bufferSize) ==> Valid()
    {
      var n := if bufferSize <= 0 then 1 else bufferSize;
      this.zero := zero;
      buffer := new T[n](_ => zero);
      size, head, tail, count := U32(n), 0, 0, 0;
      current, version, dirty, closed := initialValue, 0, false, false;
      new;
      assert buffer[..] == seq(n, _ => zero);
    }

    /** What a send does once it has seen the channel open and holds the lock, closed by now or not. */
    method Append(value: T)
      requires Valid()
      modifies this, buffer
      ensures Valid() && buffer == old(buffer)
      ensures View() == old(View()).Append(value)
      ensures current == value && version == (old(version) + 1) % 0x1_0000_0000_0000_0000 && dirty && closed == old(closed)
    {
      var headPos := head % size;
      buffer[headPos] := value;
      head := U32(head + 1);
      var currentCount := I32(count + 1);
      count := currentCount;
      if currentCount > I32(size) {
        tail := U32(tail + 1);
        count := I32(size);
      }
      current := value;
      version := (version + 1) % WRAP64;
      dirty := true;
    }

    /** A send with no close between its check and the lock. */
    method Send(value: T) returns (ok: bool)
      requires Valid()
      modifies this, buffer
      ensures Valid() && buffer == old(buffer)
      ensures (View(), ok) == old(View()).Send(value)
      ensures ok == !old(closed) && (!ok ==> View() == old(View()))
      ensures ok ==> current == value && version == (old(version) + 1) % 0x1_0000_0000_0000_0000 && dirty
    {
      if closed {
        return false;
      }
      Append(value);
      return true;
    }

    method Receive() returns (r: Option<T>)
      requires Valid()
      modifies this
      ensures Valid() && buffer == old(buffer)
      ensures (View(), r) == old(View()).Receive()
      ensures (r.None? <==> old(count) == 0) && (r.None? ==> View() == old(View())) && (r.Some? ==> current == r.value)
      ensures version == old(version) && dirty == old(dirty) && closed == old(closed)
    {
      if count == 0 {
        return None;
      }
      View().FirstSlot();
      var tailPos := tail % size;
      var value := buffer[tailPos];
      tail := U32(tail + 1);
      count := I32(count - 1);
      current := value;
      return Some(value);
    }

    method Peek() returns (r: Option<T>)
      requires Valid()
      ensures r == View().Peek()
    {
      if count == 0 {
        return None;
      }
      View().FirstSlot();
      var tailPos := tail % size;
      return Some(buffer[tailPos]);
    }

    /** Copies the first `n` items from the tail on to the front of `dst`. */
    method CopyFront(dst: array<T>, n: nat)
      requires Valid() && n <= dst.Length && dst != buffer
      modifies dst
      ensures dst[..n] == View().Front(n) && dst[n..] == old(dst[n..])
    {
      var i := 0;
      while i < n
        invariant 0 <= i <= n && dst[..i] == View().Front(i)
        invariant forall k :: n <= k < dst.Length ==> dst[k] == old(dst[k])
      {
        View().FrontStep(i);
        var pos := U32(tail + U32(i)) % size;
        dst[i] := buffer[pos];
        i := i + 1;
      }
    }

    method DrainAll() returns (result: seq<T>)
      requires Valid() && count >= 0
      modifies this
      ensures Valid() && buffer == old(buffer)
      ensures (View(), result) == old(View()).DrainAll()
      ensures |result| == old(count) && (result == [] ==> View() == old(View())) && current == old(current) && closed == old(closed)
      ensures result != [] ==> version == (old(version) + 1) % 0x1_0000_0000_0000_0000 && dirty
    {
      if count == 0 {
        return [];
      }
      var items := new T[count](_ => zero);
      CopyFront(items, count);
      result := items[..];
      assert result == items[..count];
      head, tail, count := 0, 0, 0;
      version := (version + 1) % WRAP64;
      dirty := true;
    }

    /** Moves the items into a new buffer of `n` slots and restarts the cursors. */
    method Reallocate(n: nat)
      requires Valid() && 0 < n && count <= n
      modifies this
      ensures fresh(buffer) && buffer.Length == n && View() == old(View()).Moved(n, zero)
    {
      var newBuffer := new T[n](_ => zero);
      var copied := if count > 0 then count else 0;
      CopyFront(newBuffer, copied);
      assert newBuffer[..] == newBuffer[..copied] + newBuffer[copied..];
      assert newBuffer[copied..] == seq(n - copied, _ => zero);
      buffer := newBuffer;
      size := U32(n);
      head := U32(count);
      tail := 0;
      version := (version + 1) % WRAP64;
      dirty := true;
    }

    method SetBufferSize(n: int) returns (ok: bool)
      requires Valid()
      modifies this
      ensures (Usable(n) ==> Valid()) && (buffer == old(buffer) || fresh(buffer))
      ensures (View(), ok) == old(View()).SetBufferSize(n, zero)
      ensures ok == (n > 0 && !old(closed)) && (!ok ==> View() == old(View())) && current == old(current) && closed == old(closed)
      ensures ok ==> buffer.Length == n && version == (old(version) + 1) % 0x1_0000_0000_0000_0000 && dirty
    {
      if n <= 0 {
        return false;
      }
      if closed {
        return false;
      }
      var preserveCount := count;
      if preserveCount > I32(n) {
        preserveCount := I32(n);
        tail := U32(tail + U32(count - preserveCount));
      }
      count := preserveCount;
      assert View() == old(View()).Trimmed(n);
      Reallocate(n);
      return true;
    }

    method Close()
      requires Valid()
      modifies this`closed
      ensures Valid() && View() == old(View()).Close()
    {
      closed := true;
    }
  }

  // ---------- The queue the channel stands for ----------

  /** A sequence of at most `cap` items, oldest first. */
  datatype Bounded<T> = Bounded(cap: nat, items: seq<T>, closed: bool) {
    function Append(value: T): Bounded<T> {
      this.(items := (if |items| > 0 && |items| == cap then items[1..] else items) + [value])
    }

    function Send(value: T): (Bounded<T>, bool) {
      if closed then (this, false) else (Append(value), true)
    }

    function Receive(): (Bounded<T>, Option<T>) {
      if items == [] then (this, None) else (this.(items := items[1..]), Some(items[0]))
    }

    /** The newest `n` items, still oldest first. */
    function Newest(n: nat): seq<T> {
      if |items| > n then items[|items| - n..] else items
    }

    function SetBufferSize(n: int): (Bounded<T>, bool) {
      if n <= 0 || closed then (this, false) else (Bounded(n, Newest(n), closed), true)
    }
  }

  /** What the queue is: it grows at one end, keeping the newest that fit, and shrinks at the other. */
  lemma QueueMeans<T>(q: Bounded<T>, v: T, n: int)
    requires 0 < q.cap && |q.items| <= q.cap
    ensures var all, s := q.items + [v], q.Append(v).items;
            |s| == (if |all| <= q.cap then |all| else q.cap) && s == all[|all| - |s|..]
    ensures q.Append(v).cap == q.cap && q.Append(v).closed == q.closed
    ensures q.Send(v) == if q.closed then (q, false) else (q.Append(v), true)
    ensures var (q', out) := q.Receive();
            && (out == None <==> |q.items| == 0) && (out == None ==> q' == q)
            && (out != None ==> [out.value] + q'.items == q.items && q'.cap == q.cap && q'.closed == q.closed)
    ensures var (q', ok) := q.SetBufferSize(n);
            && ok == (n > 0 && !q.closed) && (!ok ==> q' == q)
            && (ok ==>
                  && q'.cap == n && q'.closed == q.closed && |q'.items| == (if |q.items| <= n then |q.items| else n)
                  && q'.items == q.items[|q.items| - |q'.items|..])
  {
  }

  /** What every operation keeps of the ring: the cursors are `count` apart, modulo 2^32. */
  ghost predicate Sound<T>(r: Ring<T>) {
    r.Formed() && r.size < HALF - 1 && 0 <= r.count <= r.size && r.head == U32(r.tail + r.count)
  }

  ghost function Abs<T>(r: Ring<T>): Bounded<T>
    requires Sound(r)
  {
    Bounded(r.size, r.Front(r.count), r.closed)
  }

  /** The next write hits no slot whose item must survive it. */
  ghost predicate SlotFree<T>(r: Ring<T>)
    requires Sound(r)
  {
    forall i :: 0 <= i < r.count && (r.count == r.size ==> i > 0) ==> r.Slot(i) != r.head % r.size
  }

  /** The write cursor has not wrapped past the items still held, or wrapping does no harm. */
  predicate Unwrapped<T>(r: Ring<T>)
    requires r.size > 0
  {
    WRAP % r.size == 0 || r.tail + r.count < WRAP
  }

  lemma ModDistinct(a: nat, d: nat, n: nat)
    requires 0 < d < n
    ensures (a + d) % n != a % n
  {
    var q, q' := a / n, (a + d) / n;
    assert a == n * q + a % n && a + d == n * q' + (a + d) % n;
    Multiple(q' - q, n);
    assert n * q' - n * q == n * (q' - q);
  }

  /** A multiple of `n` is zero or at least `n` away from it. */
  lemma Multiple(k: int, n: nat)
    requires 0 < n
    ensures k > 0 ==> n * k >= n
    ensures k < 0 ==> n * k + n <= 0
    ensures k == 0 ==> n * k == 0
  {
  }

  /** Reducing modulo 2^32 first does not matter where 2^32 is a multiple of the size. */
  lemma ModMod(x: nat, n: nat)
    requires 0 < n && WRAP % n == 0
    ensures U32(x) % n == x % n
  {
    var k, q := x / WRAP, WRAP / n;
    assert x == U32(x) + WRAP * k && WRAP == n * q;
    assert x == U32(x) + n * (q * k);
    ModShift(U32(x), q * k, n);
  }

  lemma ModShift(a: nat, k: nat, n: nat)
    requires 0 < n
    ensures (a + n * k) % n == a % n
  {
    var q, q' := a / n, (a + n * k) / n;
    assert a == n * q + a % n && a + n * k == n * q' + (a + n * k) % n;
    assert n * (q + k - q') == (a + n * k) % n - a % n;
    Multiple(q + k - q', n);
  }

  lemma UnwrappedIsFree<T>(r: Ring<T>)
    requires Sound(r) && Unwrapped(r)
    ensures SlotFree(r)
  {
    forall i | 0 <= i < r.count && (r.count == r.size ==> i > 0) ensures r.Slot(i) != r.head % r.size {
      ModDistinct(r.tail + i, r.count - i, r.size);
      if WRAP % r.size == 0 {
        ModMod(r.tail + i, r.size);
        ModMod(r.tail + r.count, r.size);
      } else {
        assert U32(r.tail + i) == r.tail + i && U32(r.tail + r.count) == r.tail + r.count;
      }
    }
  }

  lemma SlotShift(size: nat, tail: nat, d: nat, i: int)
    requires 0 < size
    ensures SlotOf(size, U32(tail + d), i) == SlotOf(size, tail, i + d)
  {
    U32Add(tail + d, i);
  }

  /** The slots of the first `n` items from the tail on. */
  ghost function Positions(size: nat, tail: nat, n: nat): (ps: seq<nat>)
    requires 0 < size
    ensures |ps| == n && forall i :: 0 <= i < n ==> ps[i] == SlotOf(size, tail, i)
  {
    seq(n, i => SlotOf(size, tail, i))
  }

  ghost function Read<T>(buffer: seq<T>, ps: seq<nat>): (s: seq<T>)
    requires forall i :: 0 <= i < |ps| ==> ps[i] < |buffer|
    ensures |s| == |ps| && forall i :: 0 <= i < |s| ==> s[i] == buffer[ps[i]]
  {
    seq(|ps|, i requires 0 <= i < |ps| => buffer[ps[i]])
  }

  lemma PositionsStep(size: nat, tail: nat, n: nat, head: nat, d: nat)
    requires 0 < size && d <= 1 && d <= n && head == U32(tail + n) && tail < WRAP
    ensures Positions(size, U32(tail + d), n + 1 - d) == Positions(size, tail, n)[d..] + [head % size]
  {
    var a, b := Positions(size, U32(tail + d), n + 1 - d), Positions(size, tail, n)[d..] + [head % size];
    forall i | 0 <= i < |a| ensures a[i] == b[i] {
      SlotShift(size, tail, d, i);
    }
  }

  /** Writing to a position no survivor uses appends; writing to one that a survivor uses replaces it. */
  lemma WriteReads<T>(buffer: seq<T>, ps: seq<nat>, p: nat, v: T)
    requires p < |buffer| && forall i :: 0 <= i < |ps| ==> ps[i] < |buffer|
    ensures var s := Read(buffer[p := v], ps + [p]);
            if p in ps then forall i :: 0 <= i < |ps| && ps[i] == p ==> s[i] == v
            else s == Read(buffer, ps) + [v]
  {
  }

  lemma SendState<T>(r: Ring<T>, v: T)
    requires Sound(r)
    ensures var d := if r.count == r.size then 1 else 0; var r' := r.Append(v);
            && r'.buffer == r.buffer[r.head % r.size := v] && r'.size == r.size && r'.closed == r.closed
            && r'.tail == U32(r.tail + d) && r'.count == r.count + 1 - d && r'.head == U32(r.head + 1)
  {
  }

  lemma SendKeepsSound<T>(r: Ring<T>, v: T)
    requires Sound(r)
    ensures Sound(r.Append(v))
  {
    SendState(r, v);
    U32Add(r.tail + r.count, 1);
    U32Add(r.tail + 1, r.count);
  }

  /** The slots of the items that must survive the next send. */
  ghost function Survivors<T>(r: Ring<T>): seq<nat>
    requires Sound(r)
  {
    Positions(r.size, r.tail, r.count)[if r.count == r.size then 1 else 0..]
  }

  lemma SlotFreeIsFree<T>(r: Ring<T>)
    requires Sound(r)
    ensures SlotFree(r) <==> r.head % r.size !in Survivors(r)
  {
    var d := if r.count == r.size then 1 else 0;
    var ps := Survivors(r);
    assert forall i :: 0 <= i < |ps| ==> ps[i] == r.Slot(i + d);
    forall i | 0 <= i < r.count && (r.count == r.size ==> i > 0) ensures r.Slot(i) == ps[i - d] {
    }
  }

  /** What the channel holds after a send, and what it should hold. */
  lemma SendReads<T>(r: Ring<T>, v: T)
    requires Sound(r)
    ensures Sound(r.Append(v))
    ensures var ps, p := Survivors(r), r.head % r.size;
            && Abs(r.Append(v)) == Bounded(r.size, Read(r.buffer[p := v], ps + [p]), r.closed)
            && Abs(r).Append(v) == Bounded(r.size, Read(r.buffer, ps) + [v], r.closed)
  {
    hide SlotOf;
    var d := if r.count == r.size then 1 else 0;
    var ps := Positions(r.size, r.tail, r.count);
    SendKeepsSound(r, v);
    SendState(r, v);
    PositionsStep(r.size, r.tail, r.count, r.head, d);
    assert Abs(r.Append(v)).items == Read(r.Append(v).buffer, ps[d..] + [r.head % r.size]);
    assert Abs(r).items[d..] == Read(r.buffer, ps[d..]);
  }

  /** A send adds the newest item and drops the oldest of a full buffer, whatever the value,
      exactly when the slot it writes is free. */
  lemma SendAgreesIff<T>(r: Ring<T>, x: T, y: T)
    requires Sound(r) && x != y
    ensures SlotFree(r) <==> forall v :: Sound(r.Append(v)) && Abs(r.Append(v)) == Abs(r).Append(v)
  {
    if SlotFree(r) {
      forall v ensures Sound(r.Append(v)) && Abs(r.Append(v)) == Abs(r).Append(v) {
        SendAgrees(r, v);
      }
    } else {
      SlotFreeIsFree(r);
      SendClobbers(r, if r.buffer[r.head % r.size] == x then y else x);
    }
  }

  lemma SendAgrees<T>(r: Ring<T>, v: T)
    requires Sound(r) && SlotFree(r)
    ensures Sound(r.Append(v)) && Abs(r.Append(v)) == Abs(r).Append(v)
  {
    SlotFreeIsFree(r);
    SendReads(r, v);
    WriteReads(r.buffer, Survivors(r), r.head % r.size, v);
  }

  lemma SendClobbers<T>(r: Ring<T>, v: T)
    requires Sound(r)
    requires r.head % r.size in Survivors(r) && v != r.buffer[r.head % r.size]
    ensures Sound(r.Append(v)) && Abs(r.Append(v)) != Abs(r).Append(v)
  {
    hide SlotOf;
    var ps, p := Survivors(r), r.head % r.size;
    SendReads(r, v);
    WriteReads(r.buffer, ps, p, v);
    var i :| 0 <= i < |ps| && ps[i] == p;
    assert (Read(r.buffer, ps) + [v])[i] != v;
  }

  // ---------- The other operations ----------

  lemma ReceiveAgrees<T>(r: Ring<T>)
    requires Sound(r)
    ensures var (r', out) := r.Receive();
            Sound(r') && Abs(r') == Abs(r).Receive().0 && out == Abs(r).Receive().1
    ensures r.Peek() == Abs(r).Receive().1
  {
    hide SlotOf;
    if r.count > 0 {
      var r' := r.Receive().0;
      U32Add(r.tail + 1, r.count - 1);
      forall i | 0 <= i < r.count - 1 ensures Abs(r').items[i] == Abs(r).items[i + 1] {
        SlotShift(r.size, r.tail, 1, i);
      }
    }
  }

  lemma DrainAgrees<T>(r: Ring<T>)
    requires Sound(r)
    ensures var (r', out) := r.DrainAll();
            Sound(r') && out == Abs(r).items && Abs(r') == Abs(r).(items := [])
  {
  }

  lemma TrimState<T>(r: Ring<T>, n: nat)
    requires Sound(r) && n < HALF - 1 && r.count > n
    ensures r.Trimmed(n) == r.(tail := U32(r.tail + (r.count - n)), count := n)
    ensures r.head == U32(U32(r.tail + (r.count - n)) + n)
  {
    U32Add(r.tail + (r.count - n), n);
  }

  lemma TrimAgrees<T>(r: Ring<T>, n: nat)
    requires Sound(r) && n < HALF - 1
    ensures Sound(r.Trimmed(n)) && r.Trimmed(n).count <= n
    ensures Abs(r.Trimmed(n)).items == Abs(r).Newest(n)
  {
    hide SlotOf, U32, I32;
    if r.count > n {
      var d := r.count - n;
      TrimState(r, n);
      forall i | 0 <= i < n ensures Abs(r.Trimmed(n)).items[i] == Abs(r).Newest(n)[i] {
        SlotShift(r.size, r.tail, d, i);
        assert Abs(r.Trimmed(n)).items[i] == r.buffer[SlotOf(r.size, U32(r.tail + d), i)];
        assert Abs(r).Newest(n)[i] == Abs(r).items[i + d] == r.buffer[SlotOf(r.size, r.tail, i + d)];
      }
    }
  }

  lemma SlotIdentity(n: nat, i: nat)
    requires i < n < WRAP
    ensures SlotOf(n, 0, i) == i
  {
    SmallMod(i, n);
  }

  lemma SmallMod(i: nat, n: nat)
    requires i < n
    ensures i % n == i
  {
    assert i == n * (i / n) + i % n;
    Multiple(i / n, n);
  }

  lemma MoveAgrees<T>(r: Ring<T>, n: nat, zero: T)
    requires Sound(r) && r.count <= n && 0 < n < HALF - 1
    ensures Sound(r.Moved(n, zero)) && Abs(r.Moved(n, zero)) == Bounded(n, Abs(r).items, r.closed)
  {
    hide SlotOf, U32, I32;
    var r' := r.Moved(n, zero);
    forall i | 0 <= i < r.count ensures Abs(r').items[i] == Abs(r).items[i] {
      SlotIdentity(n, i);
    }
  }

  lemma ResizeAgrees<T>(r: Ring<T>, n: int, zero: T)
    requires Sound(r) && n < HALF - 1
    ensures var (r', ok) := r.SetBufferSize(n, zero);
            Sound(r') && Abs(r') == Abs(r).SetBufferSize(n).0 && ok == Abs(r).SetBufferSize(n).1
  {
    hide SlotOf;
    if n > 0 && !r.closed {
      TrimAgrees(r, n);
      var t := r.Trimmed(n);
      MoveAgrees(t, n, zero);
      assert r.SetBufferSize(n, zero) == (t.Moved(n, zero), true);
      assert Abs(r).SetBufferSize(n) == (Bounded(n, Abs(t).items, t.closed), true);
    }
  }

  // ---------- Runs ----------

  /** Append is the locked part of a send that checked earlier that the channel was open. */
  datatype Op<T> = Send(v: T) | Append(v: T) | Receive | Peek | Drain | Resize(n: int) | Close

  /** What an operation answers; draining a negative count panics. */
  datatype Out<T> = Flag(ok: bool) | Item(item: Option<T>) | All(items: seq<T>) | Panic

  /** No resize leaves a size of 0. */
  ghost predicate AllUsable<T>(ops: seq<Op<T>>) {
    forall op :: op in ops && op.Resize? ==> Usable(op.n)
  }

  /** No resize asks for more slots than the count can tell. */
  ghost predicate AllSmall<T>(ops: seq<Op<T>>): (small: bool)
    ensures small ==> AllUsable(ops)
  {
    forall op :: op in ops && op.Resize? ==> op.n < HALF - 1
  }

  function RingStep<T>(r: Ring<T>, op: Op<T>, zero: T): (Ring<T>, Out<T>)
    requires r.Formed() && (op.Resize? ==> Usable(op.n))
  {
    match op
    case Send(v) => var (r', ok) := r.Send(v); (r', Flag(ok))
    case Append(v) => (r.Append(v), Flag(true))
    case Receive => var (r', item) := r.Receive(); (r', Item(item))
    case Peek => (r, Item(r.Peek()))
    case Drain =>
      if r.count < 0 then (r, Panic)
      else var (r', items) := r.DrainAll(); (r', All(items))
    case Resize(n) => var (r', ok) := r.SetBufferSize(n, zero); (r', Flag(ok))
    case Close => (r.Close(), Flag(true))
  }

  function QueueStep<T>(q: Bounded<T>, op: Op<T>): (Bounded<T>, Out<T>) {
    match op
    case Send(v) => var (q', ok) := q.Send(v); (q', Flag(ok))
    case Append(v) => (q.Append(v), Flag(true))
    case Receive => var (q', item) := q.Receive(); (q', Item(item))
    case Peek => (q, Item(q.Receive().1))
    case Drain => (q.(items := []), All(q.items))
    case Resize(n) => var (q', ok) := q.SetBufferSize(n); (q', Flag(ok))
    case Close => (q.(closed := true), Flag(true))
  }

  /** Every operation agrees with the queue; a send does if its cursor has not wrapped. */
  lemma StepAgrees<T>(r: Ring<T>, op: Op<T>, zero: T)
    requires Sound(r) && (op.Resize? ==> op.n < HALF - 1) && (op.Send? || op.Append? ==> Unwrapped(r))
    ensures var (r', out) := RingStep(r, op, zero); var (q', out') := QueueStep(Abs(r), op);
            Sound(r') && Abs(r') == q' && out == out'
  {
    match op
    case Send(v) =>
      UnwrappedIsFree(r);
      if !r.closed { SendAgrees(r, v); }
    case Append(v) =>
      UnwrappedIsFree(r);
      SendAgrees(r, v);
    case Receive => ReceiveAgrees(r);
    case Peek => ReceiveAgrees(r);
    case Drain => DrainAgrees(r);
    case Resize(n) => ResizeAgrees(r, n, zero);
    case Close =>
  }

  lemma StepKeepsFormed<T>(r: Ring<T>, op: Op<T>, zero: T)
    requires r.Formed() && (op.Resize? ==> Usable(op.n))
    ensures RingStep(r, op, zero).0.Formed()
    ensures op.Resize? || RingStep(r, op, zero).0.size == r.size
  {
  }

  /** The ring after a run of operations, and everything it answered. */
  ghost function RingRun<T>(r: Ring<T>, ops: seq<Op<T>>, zero: T): (res: (Ring<T>, seq<Out<T>>))
    requires r.Formed() && AllUsable(ops)
    ensures res.0.Formed() && |res.1| == |ops|
  {
    if ops == [] then (r, []) else
      var n := |ops| - 1;
      var (r1, outs) := RingRun(r, ops[..n], zero);
      var (r2, out) := RingStep(r1, ops[n], zero);
      StepKeepsFormed(r1, ops[n], zero);
      (r2, outs + [out])
  }

  ghost function QueueRun<T>(q: Bounded<T>, ops: seq<Op<T>>): (res: (Bounded<T>, seq<Out<T>>))
    ensures |res.1| == |ops|
  {
    if ops == [] then (q, []) else
      var n := |ops| - 1;
      var (q1, outs) := QueueRun(q, ops[..n]);
      var (q2, out) := QueueStep(q1, ops[n]);
      (q2, outs + [out])
  }

  /** No send of the run happens after the write cursor wrapped, unless wrapping is harmless. */
  ghost predicate NeverWraps<T>(r: Ring<T>, ops: seq<Op<T>>, zero: T)
    requires r.Formed() && AllUsable(ops)
  {
    ops != [] ==>
      var n := |ops| - 1;
      NeverWraps(r, ops[..n], zero) && (ops[n].Send? || ops[n].Append? ==> Unwrapped(RingRun(r, ops[..n], zero).0))
  }

  lemma {:induction false} RunAgrees<T>(r: Ring<T>, ops: seq<Op<T>>, zero: T)
    requires Sound(r) && AllSmall(ops) && NeverWraps(r, ops, zero)
    ensures var (r', outs) := RingRun(r, ops, zero); var (q', outs') := QueueRun(Abs(r), ops);
            Sound(r') && Abs(r') == q' && outs == outs'
  {
    if ops != [] {
      var n := |ops| - 1;
      RunAgrees(r, ops[..n], zero);
      StepAgrees(RingRun(r, ops[..n], zero).0, ops[n], zero);
    }
  }

  // ---------- Which sizes are safe for ever ----------

  ghost predicate Fixed<T>(ops: seq<Op<T>>): (fixed: bool)
    ensures fixed ==> AllUsable(ops) && AllSmall(ops)
  {
    forall op :: op in ops ==> !op.Resize?
  }

  lemma {:induction false} DividingNeverWraps<T>(r: Ring<T>, ops: seq<Op<T>>, zero: T)
    requires r.Formed() && Fixed(ops) && WRAP % r.size == 0
    ensures NeverWraps(r, ops, zero) && RingRun(r, ops, zero).0.size == r.size
  {
    if ops != [] {
      DividingNeverWraps(r, ops[..|ops|-1], zero);
    }
  }

  ghost function Sends<T>(n: nat, x: T): (ops: seq<Op<T>>)
    ensures |ops| == n && Fixed(ops)
  {
    seq(n, _ => Op.Send(x))
  }

  ghost predicate Filled<T>(r: Ring<T>, q: Bounded<T>, size: nat, x: T, n: nat) {
    && Sound(r) && r.size == size && !r.closed
    && r.count == (if n < size then n else size) && r.tail == n - r.count
    && q.cap == size && !q.closed && |q.items| == r.count
    && forall i :: 0 <= i < |q.items| ==> q.items[i] == x
  }

  lemma FillStep<T>(r: Ring<T>, q: Bounded<T>, size: nat, x: T, n: nat)
    requires 0 < size < HALF - 1 && n < WRAP && Filled(r, q, size, x, n)
    ensures Unwrapped(r) && Filled(r.Send(x).0, q.Send(x).0, size, x, n + 1)
  {
    hide SlotOf;
    SendState(r, x);
    SendKeepsSound(r, x);
  }

  lemma FillStart<T>(size: nat, x: T, initial: T, zero: T)
    requires 0 < size < HALF - 1
    ensures var r := NewRing(size, initial, zero); Sound(r) && Filled(r, Abs(r), size, x, 0)
  {
  }

  /** Until the write cursor wraps, `n` sends of `x` leave it at `n` and fill the queue with `x`. */
  lemma {:induction false} SendsFill<T>(size: nat, x: T, initial: T, zero: T, n: nat)
    requires 0 < size < HALF - 1 && n <= WRAP
    ensures var r := NewRing(size, initial, zero); var ops := Sends(n, x);
            && Sound(r) && NeverWraps(r, ops, zero)
            && Filled(RingRun(r, ops, zero).0, QueueRun(Abs(r), ops).0, size, x, n)
  {
    hide Filled, Unwrapped, SlotOf;
    var r := NewRing(size, initial, zero);
    FillStart(size, x, initial, zero);
    if n > 0 {
      var ops := Sends(n, x);
      SendsFill(size, x, initial, zero, n - 1);
      assert ops[..n-1] == Sends(n - 1, x) && ops[n-1] == Op.Send(x);
      FillStep(RingRun(r, ops[..n-1], zero).0, QueueRun(Abs(r), ops[..n-1]).0, size, x, n - 1);
    }
  }

  lemma OneMore<T>(r: Ring<T>, q: Bounded<T>, ops: seq<Op<T>>, op: Op<T>, zero: T)
    requires r.Formed() && Fixed(ops) && !op.Resize?
    ensures Fixed(ops + [op])
    ensures var (r', outs) := RingRun(r, ops + [op], zero);
            r' == RingStep(RingRun(r, ops, zero).0, op, zero).0 &&
            outs[|ops|] == RingStep(RingRun(r, ops, zero).0, op, zero).1
    ensures var (q', outs) := QueueRun(q, ops + [op]);
            q' == QueueStep(QueueRun(q, ops).0, op).0 && outs[|ops|] == QueueStep(QueueRun(q, ops).0, op).1
  {
    hide RingStep, QueueStep, AllUsable, AllSmall;
    assert (ops + [op])[..|ops|] == ops;
  }

  /** Two runs differ if their answers to the last of two more operations do. */
  lemma LastTwo<T>(r: Ring<T>, q: Bounded<T>, ops: seq<Op<T>>, o1: Op<T>, o2: Op<T>, zero: T)
    requires r.Formed() && Fixed(ops) && !o1.Resize? && !o2.Resize?
    requires var r1, q1 := RingStep(RingRun(r, ops, zero).0, o1, zero).0, QueueStep(QueueRun(q, ops).0, o1).0;
             r1.Formed() && RingStep(r1, o2, zero).1 != QueueStep(q1, o2).1
    ensures Fixed(ops + [o1, o2])
    ensures RingRun(r, ops + [o1, o2], zero).1 != QueueRun(q, ops + [o1, o2]).1
  {
    hide RingStep, QueueStep, AllUsable, AllSmall, RingRun, QueueRun;
    OneMore(r, q, ops, o1, zero);
    OneMore(r, q, ops + [o1], o2, zero);
    assert ops + [o1] + [o2] == ops + [o1, o2];
  }

  /** After 2^32 sends of `x` the next send overwrites an item that should have survived. */
  lemma WrapBreaks<T>(size: nat, x: T, y: T, initial: T, zero: T)
    requires 0 < size < HALF - 1 && WRAP % size != 0 && x != y
    ensures var r := NewRing(size, initial, zero); var ops := Sends(WRAP, x) + [Op.Send(y), Op.Drain];
            Sound(r) && Fixed(ops) && RingRun(r, ops, zero).1 != QueueRun(Abs(r), ops).1
  {
    hide NewRing, RingRun, QueueRun;
    var r, fill := NewRing(size, initial, zero), Sends(WRAP, x);
    SendsFill(size, x, initial, zero, WRAP);
    var r1, q1 := RingRun(r, fill, zero).0, QueueRun(Abs(r), fill).0;
    WrapClobbers(r1, q1, size, x, y);
    LastTwo(r, Abs(r), fill, Op.Send(y), Op.Drain, zero);
  }

  lemma WrapClobbers<T>(r: Ring<T>, q: Bounded<T>, size: nat, x: T, y: T)
    requires 0 < size < HALF - 1 && WRAP % size != 0 && x != y && Filled(r, q, size, x, WRAP)
    ensures Sound(r.Send(y).0) && r.Send(y).0.DrainAll().1 != q.Send(y).0.items
  {
    var m, r' := WRAP % size, r.Send(y).0;
    SendState(r, y);
    SendKeepsSound(r, y);
    DrainAgrees(r');
    SmallMod(0, size);
    assert r'.tail == U32(WRAP - size + 1) && r'.count == size && r'.buffer == r.buffer[0 := y];
    hide U32, I32, SlotOf, Sound;
    // the slot the wrapped cursor writes still belongs to item size - 1 - m
    var k := size - 1 - m;
    SlotOfWrap(size, m);
    assert Abs(r').items[k] == y;
    assert q.Send(y).0.items[k] == x;
  }

  lemma SlotOfWrap(size: nat, m: nat)
    requires 0 < size < WRAP && m == WRAP % size && m > 0
    ensures SlotOf(size, U32(WRAP - size + 1), size - 1 - m) == 0
  {
    SlotShift(size, WRAP - size, 1, size - 1 - m);
    var q := WRAP / size;
    assert WRAP == size * q + m;
    assert U32(WRAP - m) == WRAP - m == 0 + size * q;
    ModShift(0, q, size);
  }

  // Sizes that an int32 count or a uint32 size cannot tell

  /** As an int32 a size from 2^31 on is negative: the first item sent is lost. */
  lemma HugeBreaks<T>(size: nat, x: T, initial: T, zero: T)
    requires size > 0 && U32(size) >= HALF && x != zero
    ensures var ops := [Op.Send(x), Op.Receive];
            Fixed(ops) && RingRun(NewRing(size, initial, zero), ops, zero).1 != QueueRun(Bounded(size, [], false), ops).1
  {
    var r := NewRing(size, initial, zero);
    var q: Bounded<T> := Bounded(size, [], false);
    var r1 := r.Send(x).0;
    SmallMod(0, U32(size));
    assert r1.tail == 1 && r1.count == U32(size) - WRAP && r1.buffer == r.buffer[0 := x];
    hide U32, I32, RingRun, QueueRun;
    assert SlotOf(r1.size, 1, 0) == 1 by { SmallMod(1, r1.size); }
    assert RingStep(r1, Op.Receive, zero).1 == Item(Some(zero));
    assert QueueStep(q.Send(x).0, Op.Receive).1 == Item(Some(x));
    LastTwo(r, q, [], Op.Send(x), Op.Receive, zero);
    assert [] + [Op.Send(x), Op.Receive] == [Op.Send(x), Op.Receive];
  }

  /** `n` sends of `x` into a new channel they all fit in. */
  lemma {:induction false} FitsIn<T>(size: nat, x: T, initial: T, zero: T, n: nat)
    requires 0 < n <= U32(size) < HALF && n <= size
    ensures var r, q := RingRun(NewRing(size, initial, zero), Sends(n, x), zero).0, QueueRun(Bounded(size, [], false), Sends(n, x)).0;
            && r.size == U32(size) && r.head == n && r.tail == 0 && r.count == n && !r.closed
            && q.cap == size && !q.closed && |q.items| == n && forall i :: 0 <= i < n ==> q.items[i] == x
  {
    var ops := Sends(n, x);
    assert ops[..n-1] == Sends(n - 1, x) && ops[n-1] == Op.Send(x);
    if n > 1 { FitsIn(size, x, initial, zero, n - 1); }
  }

  /** With 2^31 - 1 slots the count of a full channel turns negative at the next send, which drops nothing. */
  lemma LargestCountBreaks<T>(size: nat, x: T, y: T, initial: T, zero: T)
    requires U32(size) == HALF - 1 && x != y
    ensures var ops := Sends(HALF - 1, x) + [Op.Send(y), Op.Receive];
            Fixed(ops) && RingRun(NewRing(size, initial, zero), ops, zero).1 != QueueRun(Bounded(size, [], false), ops).1
  {
    hide RingRun, QueueRun;
    var n := HALF - 1;
    var fill := Sends(n, x);
    FitsIn(size, x, initial, zero, n);
    var r, q := RingRun(NewRing(size, initial, zero), fill, zero).0, QueueRun(Bounded(size, [], false), fill).0;
    var r1 := r.Send(y).0;
    SmallMod(0, n);
    assert r1.count == -HALF && r1.tail == 0 && r1.buffer == r.buffer[0 := y];
    SlotIdentity(n, 0);
    assert RingStep(r1, Op.Receive, zero).1 == Item(Some(y));
    assert QueueStep(q.Send(y).0, Op.Receive).1 == Item(Some(x));
    LastTwo(NewRing(size, initial, zero), Bounded(size, [], false), fill, Op.Send(y), Op.Receive, zero);
  }

  /** Beyond 2^32 the channel drops items although it was asked to hold them. */
  lemma TruncatedSizeBreaks<T>(size: nat, x: T, initial: T, zero: T)
    requires size > WRAP && 0 < U32(size) < HALF - 1
    ensures var ops := Sends(U32(size), x) + [Op.Send(x), Op.Drain];
            Fixed(ops) && RingRun(NewRing(size, initial, zero), ops, zero).1 != QueueRun(Bounded(size, [], false), ops).1
  {
    hide RingRun, QueueRun;
    var n := U32(size);
    var fill := Sends(n, x);
    FitsIn(size, x, initial, zero, n);
    var r, q := RingRun(NewRing(size, initial, zero), fill, zero).0, QueueRun(Bounded(size, [], false), fill).0;
    assert Sound(r);
    SendState(r, x);
    SendKeepsSound(r, x);
    DrainAgrees(r.Send(x).0);
    assert |r.Send(x).0.DrainAll().1| == n && |q.Send(x).0.items| == n + 1;
    LastTwo(NewRing(size, initial, zero), Bounded(size, [], false), fill, Op.Send(x), Op.Drain, zero);
  }

  /** A channel that is never resized answers every run of operations as the queue would
      exactly when its size divides 2^32 and is less than 2^31. */
  lemma AlwaysAgreesIff<T>(size: nat, x: T, y: T, initial: T, zero: T)
    requires size > 0 && Usable(size) && x != y
    ensures (forall ops: seq<Op<T>> :: Fixed(ops) ==>
              RingRun(NewRing(size, initial, zero), ops, zero).1 == QueueRun(Bounded(size, [], false), ops).1)
            <==> 0x1_0000_0000 % size == 0 && size < 0x8000_0000
  {
    hide Sound, Abs, NeverWraps, RingRun, QueueRun, NewRing, Sends, Fixed;
    var r := NewRing(size, initial, zero);
    hide U32;
    if U32(size) >= HALF {
      HugeBreaks(size, if x == zero then y else x, initial, zero);
    } else if U32(size) == HALF - 1 {
      if size == HALF - 1 { assert WRAP % (HALF - 1) == 2; }
      LargestCountBreaks(size, x, y, initial, zero);
      assert Fixed(Sends(HALF - 1, x) + [Op.Send(y), Op.Receive]);
    } else if size >= WRAP {
      TruncatedSizeBreaks(size, x, initial, zero);
      assert Fixed(Sends(U32(size), x) + [Op.Send(x), Op.Drain]);
    } else {
      StartsEmpty(size, initial, zero);
      if WRAP % size == 0 {
        forall ops: seq<Op<T>> | Fixed(ops) ensures RingRun(r, ops, zero).1 == QueueRun(Abs(r), ops).1 {
          DividingNeverWraps(r, ops, zero);
          RunAgrees(r, ops, zero);
        }
      } else {
        WrapBreaks(size, x, y, initial, zero);
        assert Fixed(Sends(WRAP, x) + [Op.Send(y), Op.Drain]);
      }
    }
  }

  lemma StartsEmpty<T>(size: nat, initial: T, zero: T)
    requires 0 < size < HALF - 1
    ensures var r := NewRing(size, initial, zero); Sound(r) && r.size == size && Abs(r) == Bounded(size, [], false)
  {
  }
}
