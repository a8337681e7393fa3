/** The data of a scope and the count of its bytes (BaseScope in internal/core/protocol/group.go),
    for calls that follow one another; ScopeRaces has those that overlap. The count is a 64-bit
    word; removing n bytes adds the complement of n - 1, as the source does. */
module ScopeData {
  import opened MapSums

  const WORD := 0x1_0000_0000_0000_0000

  /** 2^63: one more than a slice can be long. */
  const LONGEST := 0x8000_0000_0000_0000

  type Bytes = seq<bv8>
  type Data = map<string, Bytes>

  datatype Reply = Done | Closed | TooMuchData | TooManyKeys

  function Plus(a: nat, b: nat): nat { (a + b) % WORD }

  /** The word with every bit of `x` flipped, where -1 stands for the word of all ones. */
  function Complement(x: int): nat
    requires -1 <= x < WORD
  {
    if x == -1 then 0 else WORD - 1 - x
  }

  ghost function Sizes(data: Data): map<string, int> { map k | k in data :: |data[k]| }

  /** All bytes stored. */
  ghost function Total(data: Data): int { Sum(Sizes(data)) }

  predicate Short(data: Data) { forall k :: k in data ==> |data[k]| < LONGEST }

  lemma TotalAfterSet(data: Data, k: string, bytes: Bytes)
    ensures Total(data[k := bytes]) == Total(data) - (if k in data then |data[k]| else 0) + |bytes|
  {
    assert Sizes(data[k := bytes]) == Sizes(data)[k := |bytes|];
    SumUpdated(Sizes(data), k, |bytes|);
  }

  lemma TotalAfterDelete(data: Data, k: string)
    requires k in data
    ensures Total(data - {k}) == Total(data) - |data[k]|
  {
    assert Sizes(data - {k}) == Sizes(data) - {k};
    SumWithout(Sizes(data), k);
  }

  lemma TotalBounds(data: Data)
    requires Short(data)
    ensures 0 <= Total(data) <= |data| * (LONGEST - 1)
  {
    assert Sizes(data).Keys == data.Keys;
    SumBounds(Sizes(data), LONGEST - 1);
  }

  /** Adding to a word is adding to what it stands for. */
  lemma PlusAdds(total: int, n: nat)
    ensures Plus(total % WORD, n) == (total + n) % WORD
  {
    assert total % WORD + n == total + n + WORD * (0 - total / WORD);
  }

  /** Adding the complement of n - 1 takes n away again. */
  lemma ComplementSubtracts(total: int, n: nat)
    requires n < WORD
    ensures Plus(total % WORD, Complement(n - 1)) == (total - n) % WORD
  {
    assert total % WORD + (WORD - n) == total - n + WORD * (1 - total / WORD);
  }

  // ---------- What the limits are worth ----------

  /** The checks of SetData, in terms of what is stored. Replacing is checked as if the old value stayed. */
  ghost predicate Accepts(maxSize: nat, maxKeys: int, data: Data, key: string, bytes: Bytes) {
    && !(maxSize > 0 && (Total(data) + |bytes|) % WORD > maxSize)
    && !(maxKeys > 0 && |data| >= maxKeys && key !in data)
  }

  datatype Op = Set(key: string, bytes: Bytes) | Delete(key: string)

  ghost function Perform(maxSize: nat, maxKeys: int, data: Data, op: Op): Data {
    match op
    case Set(key, bytes) => if Accepts(maxSize, maxKeys, data, key, bytes) then data[key := bytes] else data
    case Delete(key) => data - {key}
  }

  ghost function PerformAll(maxSize: nat, maxKeys: int, ops: seq<Op>): Data {
    if ops == [] then map[] else Perform(maxSize, maxKeys, PerformAll(maxSize, maxKeys, ops[..|ops|-1]), ops[|ops|-1])
  }

  /** After an accepted set the key holds exactly the given bytes, and all others hold what they held;
      after a refused one nothing has changed. A delete takes out its key alone. */
  lemma PerformStores(maxSize: nat, maxKeys: int, data: Data, key: string, bytes: Bytes)
    ensures var refused := (maxSize > 0 && (Total(data) + |bytes|) % 0x1_0000_0000_0000_0000 > maxSize)
                        || (maxKeys > 0 && |data| >= maxKeys && key !in data);
            var data' := Perform(maxSize, maxKeys, data, Set(key, bytes));
            && (refused ==> data' == data)
            && (!refused ==> key in data' && data'[key] == bytes)
            && forall k :: k != key ==> (k in data' <==> k in data) && (k in data ==> data'[k] == data[k])
    ensures var data' := Perform(maxSize, maxKeys, data, Delete(key));
            key !in data' && forall k :: k != key ==> (k in data' <==> k in data) && (k in data ==> data'[k] == data[k])
  {
  }

  predicate AllShort(ops: seq<Op>) {
    forall i :: 0 <= i < |ops| && ops[i].Set? ==> |ops[i].bytes| < LONGEST
  }

  ghost predicate WithinLimits(maxSize: nat, maxKeys: int, data: Data) {
    (maxSize > 0 ==> Total(data) <= maxSize) && (maxKeys > 0 ==> |data| <= maxKeys)
  }

  /** A sum of sizes that wraps around cannot be accepted wrongly. */
  predicate LimitsHold(maxSize: nat, maxKeys: int) {
    maxSize <= LONGEST || maxKeys == 1 || (maxKeys == 2 && maxSize >= 2 * (LONGEST - 1))
  }

  lemma KeysAfterSet(data: Data, k: string, bytes: Bytes)
    ensures |data[k := bytes]| == |data| + if k in data then 0 else 1
  {
    assert data[k := bytes].Keys == data.Keys + {k};
  }

  lemma KeysAfterDelete(data: Data, k: string)
    ensures |data - {k}| == |data| - if k in data then 1 else 0
  {
    var keys := data.Keys;
    assert (data - {k}).Keys == keys - {k};
    if k !in data { assert keys - {k} == keys; }
  }

  lemma SetKeepsLimits(maxSize: nat, maxKeys: int, data: Data, key: string, bytes: Bytes)
    requires maxSize < WORD && LimitsHold(maxSize, maxKeys) && Short(data) && |bytes| < LONGEST
    requires WithinLimits(maxSize, maxKeys, data) && Accepts(maxSize, maxKeys, data, key, bytes)
    ensures WithinLimits(maxSize, maxKeys, data[key := bytes])
  {
    hide Total;
    KeysAfterSet(data, key, bytes);
    TotalAfterSet(data, key, bytes);
    TotalBounds(data);
    TotalBounds(data[key := bytes]);
  }

  lemma DeleteKeepsLimits(maxSize: nat, maxKeys: int, data: Data, key: string)
    requires Short(data) && WithinLimits(maxSize, maxKeys, data)
    ensures WithinLimits(maxSize, maxKeys, data - {key})
  {
    hide Total;
    KeysAfterDelete(data, key);
    if key in data { TotalAfterDelete(data, key); } else { assert data - {key} == data; }
  }

  lemma {:induction false} RunKeepsLimits(maxSize: nat, maxKeys: int, ops: seq<Op>)
    requires maxSize < WORD && LimitsHold(maxSize, maxKeys) && AllShort(ops)
    ensures var data := PerformAll(maxSize, maxKeys, ops); Short(data) && WithinLimits(maxSize, maxKeys, data)
  {
    hide LimitsHold, WithinLimits, Accepts;
    if ops == [] { NothingStored(maxSize, maxKeys); }
    else {
      var rest, op := ops[..|ops|-1], ops[|ops|-1];
      RunKeepsLimits(maxSize, maxKeys, rest);
      var data := PerformAll(maxSize, maxKeys, rest);
      match op
      case Set(key, bytes) =>
        if Accepts(maxSize, maxKeys, data, key, bytes) { SetKeepsLimits(maxSize, maxKeys, data, key, bytes); }
      case Delete(key) => DeleteKeepsLimits(maxSize, maxKeys, data, key);
    }
  }

  lemma NothingStored(maxSize: nat, maxKeys: int)
    ensures WithinLimits(maxSize, maxKeys, map[]) && Total(map[]) == 0
  {
    assert Sizes(map[]) == map[];
  }

  function Filler(n: nat): (b: Bytes)
    ensures |b| == n
  {
    seq(n, _ => 0)
  }

  /** A value of 2^63 - 1 bytes, one of 2, and another of 2^63 - 1, under a third key or in place of the second. */
  ghost function Overflow(third: string): seq<Op> {
    [Set("a", Filler(LONGEST - 1)), Set("b", Filler(2)), Set(third, Filler(LONGEST - 1))]
  }

  lemma OverflowPasses(maxSize: nat, maxKeys: int, third: string)
    requires LONGEST < maxSize < WORD && maxKeys != 1 && third in {"b", "c"}
    requires third == "c" ==> maxKeys != 2
    ensures var data := PerformAll(maxSize, maxKeys, Overflow(third));
            Total(data) == if third == "c" then WORD else 2 * (LONGEST - 1)
  {
    hide Total, Filler;
    var ops := Overflow(third);
    var one: Data := map["a" := Filler(LONGEST - 1)];
    var two: Data := one["b" := Filler(2)];
    NothingStored(maxSize, maxKeys);
    TotalAfterSet(map[], "a", Filler(LONGEST - 1));
    TotalAfterSet(one, "b", Filler(2));
    TotalAfterSet(two, third, Filler(LONGEST - 1));
    KeysAfterSet(map[], "a", Filler(LONGEST - 1));
    KeysAfterSet(one, "b", Filler(2));
    assert map[]["a" := Filler(LONGEST - 1)] == one;
    assert ops[..2][..1] == [ops[0]] && ops[..2][1] == ops[1] && [ops[0]][..0] == [];
    assert PerformAll(maxSize, maxKeys, []) == map[];
    assert PerformAll(maxSize, maxKeys, [ops[0]]) == one;
    assert PerformAll(maxSize, maxKeys, ops[..2]) == two;
    assert PerformAll(maxSize, maxKeys, ops) == two[third := Filler(LONGEST - 1)];
  }

  /** Over all runs of calls that follow one another, the limits are kept exactly when the size limit is
      at most 2^63, or the key limit leaves no room for a sum that wraps around. */
  lemma LimitsHoldIff(maxSize: nat, maxKeys: int)
    requires maxSize < WORD
    ensures LimitsHold(maxSize, maxKeys) <==>
      forall ops :: AllShort(ops) ==> WithinLimits(maxSize, maxKeys, PerformAll(maxSize, maxKeys, ops))
  {
    if LimitsHold(maxSize, maxKeys) {
      forall ops | AllShort(ops) ensures WithinLimits(maxSize, maxKeys, PerformAll(maxSize, maxKeys, ops)) {
        RunKeepsLimits(maxSize, maxKeys, ops);
      }
    } else {
      var third := if maxKeys == 2 then "b" else "c";
      OverflowPasses(maxSize, maxKeys, third);
      assert AllShort(Overflow(third));
      assert !WithinLimits(maxSize, maxKeys, PerformAll(maxSize, maxKeys, Overflow(third)));
    }
  }

  // ---------- The scope ----------

  class Scope {
    const maxDataSize: nat
    const maxKeys: int
    var data: Data
    var dataSize: nat
    var closed: bool

    /** The word counts the stored bytes. */
    ghost predicate Valid()
      reads this
    {
      maxDataSize < WORD && Short(data) && dataSize == Total(data) % WORD
    }

    constructor (maxDataSize: nat, maxKeys: int)
      requires maxDataSize < WORD
      ensures Valid() && data == map[] && !closed
      ensures this.maxDataSize == maxDataSize && this.maxKeys == maxKeys
    {
      this.maxDataSize, this.maxKeys := maxDataSize, maxKeys;
      data, dataSize, closed := map[], 0, false;
      new;
      NothingStored(maxDataSize, maxKeys);
    }

    method SetData(key: string, bytes: Bytes) returns (r: Reply)
      requires Valid() && |bytes| < LONGEST
      modifies this
      ensures Valid() && closed == old(closed)
      ensures r == (if old(closed) then Closed
                    else if maxDataSize > 0 && (Total(old(data)) + |bytes|) % 0x1_0000_0000_0000_0000 > maxDataSize then TooMuchData
                    else if maxKeys > 0 && |old(data)| >= maxKeys && key !in old(data) then TooManyKeys
                    else Done)
      ensures data == if r == Done then old(data)[key := bytes] else old(data)
      ensures !old(closed) ==> data == Perform(maxDataSize, maxKeys, old(data), Set(key, bytes))
    {
      hide Plus, Complement, Total;
      if closed {
        return Closed;
      }
      PlusAdds(Total(data), |bytes|);
      var newSize := Plus(dataSize, |bytes|);
      if maxDataSize > 0 && newSize > maxDataSize {
        return TooMuchData;
      }
      var keyCount := |data|;
      if maxKeys > 0 && keyCount >= maxKeys {
        if key !in data {
          return TooManyKeys;
        }
      }
      TotalAfterSet(data, key, bytes);
      ghost var total := Total(data);
      if key in data {
        ComplementSubtracts(total, |data[key]|);
        dataSize := Plus(dataSize, Complement(|data[key]| - 1));
        total := total - |data[key]|;
      }
      data := data[key := bytes];
      PlusAdds(total, |bytes|);
      dataSize := Plus(dataSize, |bytes|);
      r := Done;
    }

    method DeleteData(key: string)
      requires Valid()
      modifies this
      ensures Valid() && closed == old(closed) && data == old(data) - {key}
      ensures data == Perform(maxDataSize, maxKeys, old(data), Delete(key))
    {
      hide Plus, Complement, Total;
      if key in data {
        TotalAfterDelete(data, key);
        ComplementSubtracts(Total(data), |data[key]|);
        dataSize := Plus(dataSize, Complement(|data[key]| - 1));
        data := data - {key};
      } else {
        assert data - {key} == data;
      }
    }
  }

  /** Deleting a key just set for the first time brings back the data and the count. */
  method SetThenDelete(s: Scope, key: string, bytes: Bytes) returns (r: Reply)
    requires s.Valid() && key !in s.data && |bytes| < LONGEST
    modifies s
    ensures s.Valid() && s.data == old(s.data) && s.dataSize == old(s.dataSize)
  {
    r := s.SetData(key, bytes);
    s.DeleteData(key);
    assert s.data == old(s.data);
  }
}
