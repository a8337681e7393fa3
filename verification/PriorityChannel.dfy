/** PriorityChannel of internal/core/syncv2/vars/channel.go: a bounded channel over the priority
    queue. Its calls hold one lock, so they follow one another, except that a send checks whether the
    channel is closed before it takes the lock: `Offer` is what it does then. */
module PriorityChannels {
  import opened Options
  import opened PriorityQueues

  const VERSIONS := 0x1_0000_0000_0000_0000

  class PriorityChannel<T> {
    const queue: PriorityQueue<T>
    var current: T
    var version: nat
    var dirty: bool
    var closed: bool
    var maxSize: int
    /** Everything ever sent, everything received so far, and the largest size the channel ever had. */
    ghost var sent: seq<PriorityItem<T>>
    ghost var taken: seq<PriorityItem<T>>
    ghost var peak: nat

    /** Nothing is lost or made up, and the channel was never fuller than it was allowed to be. */
    ghost predicate Valid()
      reads this, queue, queue.items
    {
      && queue.Valid()
      && Balanced(sent, taken, queue.items)
      && maxSize <= peak && |queue.items| <= peak
    }

    constructor (maxSize: int, initial: T)
      ensures Valid() && fresh(queue) && sent == [] && taken == [] && queue.Repr == {}
      ensures this.maxSize == maxSize && current == initial && version == 1 && !dirty && !closed
    {
      queue := new PriorityQueue();
      this.maxSize, current, version, dirty, closed := maxSize, initial, 1, false, false;
      sent, taken := [], [];
      peak := if maxSize < 0 then 0 else maxSize;
    }

    /** What a send does once it has seen the channel open and holds the lock, closed by now or not:
        it fails exactly when the channel is full. */
    method Offer(value: T, priority: int) returns (ok: bool)
      requires Valid()
      modifies this, queue, queue.Repr`index
      ensures Valid() && (ok <==> |old(queue.items)| < old(maxSize))
      ensures maxSize == old(maxSize) && closed == old(closed) && taken == old(taken) && peak == old(peak)
      ensures ok ==>
        && |sent| > 0 && sent[..|sent|-1] == old(sent) && fresh(sent[|sent|-1])
        && sent[|sent|-1].value == value && sent[|sent|-1].priority == priority
        && current == value && version == (old(version) + 1) % 0x1_0000_0000_0000_0000 && dirty
      ensures !ok ==> sent == old(sent) && queue.items == old(queue.items) && current == old(current) && version == old(version)
    {
      hide Balanced;
      if |queue.items| >= maxSize {
        return false;
      }
      ghost var before := queue.items;
      var item := queue.Enqueue(value, priority);
      SentOne(sent, taken, before, queue.items, item);
      sent := sent + [item];
      current := value;
      version := (version + 1) % VERSIONS;
      dirty := true;
      ok := true;
    }

    /** A send with no close between its check and the lock fails exactly when the channel is closed or full. */
    method SendWithPriority(value: T, priority: int) returns (ok: bool)
      requires Valid()
      modifies this, queue, queue.Repr`index
      ensures Valid() && (ok <==> !old(closed) && |old(queue.items)| < old(maxSize))
      ensures maxSize == old(maxSize) && closed == old(closed) && taken == old(taken) && peak == old(peak)
      ensures ok ==>
        && |sent| > 0 && sent[..|sent|-1] == old(sent) && fresh(sent[|sent|-1])
        && sent[|sent|-1].value == value && sent[|sent|-1].priority == priority
        && current == value && version == (old(version) + 1) % 0x1_0000_0000_0000_0000 && dirty
      ensures !ok ==> sent == old(sent) && queue.items == old(queue.items) && current == old(current) && version == old(version)
    {
      if closed {
        return false;
      }
      ok := Offer(value, priority);
    }

    /** Takes out an item of highest priority, if there is any, closed or not. The version stays. */
    method Receive() returns (r: Option<T>)
      requires Valid()
      modifies this, queue, queue.Repr`index
      ensures Valid() && maxSize == old(maxSize) && closed == old(closed) && sent == old(sent) && peak == old(peak)
      ensures version == old(version) && dirty == old(dirty)
      ensures r == None <==> old(queue.items) == []
      ensures r == None ==> taken == old(taken) && current == old(current)
      ensures r.Some? ==>
        && |taken| > 0 && taken[..|taken|-1] == old(taken) && taken[|taken|-1] in old(queue.items)
        && r.value == taken[|taken|-1].value == current
        && forall i :: 0 <= i < |old(queue.items)| ==> old(queue.items)[i].priority <= taken[|taken|-1].priority
    {
      hide Balanced;
      ghost var before := queue.items;
      r := queue.Dequeue();
      if r.Some? {
        TookOne(sent, taken, before, queue.items, before[0]);
        taken := taken + [before[0]];
        current := r.value;
      }
    }

    /** A closed channel keeps its size. Shrinking below what is queued drops nothing. */
    method SetBufferSize(size: int) returns (ok: bool)
      requires Valid()
      modifies this`maxSize, this`peak
      ensures Valid() && ok == !closed && maxSize == (if ok then size else old(maxSize)) && peak >= old(peak)
      ensures |queue.items| <= old(maxSize) && size >= old(maxSize) && ok ==> |queue.items| <= maxSize
    {
      if closed {
        return false;
      }
      maxSize := size;
      if peak < size { peak := size; }
      ok := true;
    }

    method Close()
      requires Valid()
      modifies this`closed
      ensures Valid() && closed
    {
      closed := true;
    }
  }
}
