/** Bitwise operations on natural numbers, digit by digit. */
module Binary {
  import opened Division

  function Pow2(k: nat): (r: nat)
    ensures r >= 1
  {
    if k == 0 then 1 else 2 * Pow2(k - 1)
  }

  predicate Bit(x: nat, i: nat) {
    if i == 0 then x % 2 == 1 else Bit(x / 2, i - 1)
  }

  function Or(x: nat, y: nat): nat {
    if x == 0 && y == 0 then 0 else 2 * Or(x / 2, y / 2) + if x % 2 == 1 || y % 2 == 1 then 1 else 0
  }

  function And(x: nat, y: nat): nat {
    if x == 0 || y == 0 then 0 else 2 * And(x / 2, y / 2) + if x % 2 == 1 && y % 2 == 1 then 1 else 0
  }

  function Shr(x: nat, s: nat): nat {
    if s == 0 then x else Shr(x / 2, s - 1)
  }

  lemma {:induction false} NoBits(i: nat)
    ensures !Bit(0, i)
  {
    if i > 0 { NoBits(i - 1); }
  }

  lemma {:induction false} BitOfOr(x: nat, y: nat, i: nat)
    ensures Bit(Or(x, y), i) <==> Bit(x, i) || Bit(y, i)
  {
    if x == 0 && y == 0 { NoBits(i); }
    else if i > 0 {
      assert Or(x, y) / 2 == Or(x / 2, y / 2);
      BitOfOr(x / 2, y / 2, i - 1);
    }
  }

  lemma {:induction false} BitOfAnd(x: nat, y: nat, i: nat)
    ensures Bit(And(x, y), i) <==> Bit(x, i) && Bit(y, i)
  {
    if x == 0 || y == 0 { NoBits(i); }
    else if i > 0 {
      assert And(x, y) / 2 == And(x / 2, y / 2);
      BitOfAnd(x / 2, y / 2, i - 1);
    }
  }

  lemma {:induction false} BitOfShr(x: nat, s: nat, i: nat)
    ensures Bit(Shr(x, s), i) <==> Bit(x, i + s)
    decreases s
  {
    if s > 0 { BitOfShr(x / 2, s - 1, i); }
  }

  lemma {:induction false} BitOfMask(k: nat, i: nat)
    ensures Bit(Pow2(k) - 1, i) <==> i < k
    decreases k
  {
    if k == 0 { NoBits(i); }
    else if i > 0 {
      assert (Pow2(k) - 1) / 2 == Pow2(k - 1) - 1;
      BitOfMask(k - 1, i - 1);
    }
  }

  lemma {:induction false} BitOfPow2(k: nat, i: nat)
    ensures Bit(Pow2(k), i) <==> i == k
    decreases k
  {
    if k == 0 { if i > 0 { NoBits(i - 1); } }
    else if i > 0 { BitOfPow2(k - 1, i - 1); }
  }

  /** Numbers with the same digits are equal. */
  lemma {:induction false} BitsDecide(x: nat, y: nat)
    requires forall i: nat :: Bit(x, i) == Bit(y, i)
    ensures x == y
    decreases x + y
  {
    if x + y > 0 {
      assert Bit(x, 0) == Bit(y, 0);
      forall i: nat ensures Bit(x / 2, i) == Bit(y / 2, i) { assert Bit(x, i + 1) == Bit(y, i + 1); }
      BitsDecide(x / 2, y / 2);
    }
  }

  lemma {:induction false} MoreBits(x: nat, y: nat)
    requires forall i: nat :: Bit(x, i) ==> Bit(y, i)
    ensures x <= y
  {
    if x > 0 {
      assert Bit(x, 0) ==> Bit(y, 0);
      forall i: nat | Bit(x / 2, i) ensures Bit(y / 2, i) { assert Bit(x, i + 1) && Bit(y, i + 1); }
      MoreBits(x / 2, y / 2);
    }
  }

  /** The highest digit. */
  lemma {:induction false} TopBit(x: nat) returns (t: nat)
    requires x > 0
    ensures Bit(x, t) && Pow2(t) <= x < Pow2(t + 1) && forall i :: i > t ==> !Bit(x, i)
  {
    if x == 1 {
      t := 0;
      assert Pow2(1) == 2;
      forall i: nat | i > 0 ensures !Bit(1, i) { NoBits(i - 1); }
    } else {
      var u := TopBit(x / 2);
      t := u + 1;
      forall i: nat | i > t ensures !Bit(x, i) { assert !Bit(x / 2, i - 1); }
    }
  }

  lemma {:induction false} Pow2Grows(j: nat, k: nat)
    requires j < k
    ensures 2 * Pow2(j) <= Pow2(k)
    decreases k
  {
    if j < k - 1 { Pow2Grows(j, k - 1); }
  }

  predicate IsPow2(x: int) { x == 1 || (x > 1 && x % 2 == 0 && IsPow2(x / 2)) }

  lemma {:induction false} Pow2Is(k: nat)
    ensures IsPow2(Pow2(k))
  {
    if k > 0 { Pow2Is(k - 1); }
  }

  lemma {:induction false} Exponent(x: int) returns (k: nat)
    requires IsPow2(x)
    ensures x == Pow2(k)
  {
    if x == 1 { k := 0; } else {
      k := Exponent(x / 2);
      k := k + 1;
    }
  }

  lemma {:induction false} AndIsSmaller(x: nat, y: nat)
    ensures And(x, y) <= y
  {
    if x != 0 && y != 0 { AndIsSmaller(x / 2, y / 2); }
  }

  /** The test of the constructor: exactly the powers of two share no digit with their predecessor. */
  lemma {:induction false} SharesNoDigitIff(x: nat)
    requires x > 0
    ensures And(x, x - 1) == 0 <==> IsPow2(x)
  {
    if x > 1 {
      if x % 2 == 0 {
        assert (x - 1) / 2 == x / 2 - 1;
        SharesNoDigitIff(x / 2);
      } else {
        assert (x - 1) / 2 == x / 2;
        AndSelf(x / 2);
      }
    }
  }

  lemma {:induction false} AndSelf(x: nat)
    ensures And(x, x) == x
  {
    if x != 0 { AndSelf(x / 2); }
  }

  /** Masking with one less than a power of two is taking the remainder. */
  lemma {:induction false} MaskIsRemainder(h: nat, k: nat)
    ensures And(h, Pow2(k) - 1) == h % Pow2(k)
    decreases k
  {
    if k > 0 {
      var p := Pow2(k - 1);
      assert (2 * p - 1) / 2 == p - 1;
      MaskIsRemainder(h / 2, k - 1);
      HalvesRemainder(h, p);
      if h == 0 {} else if p == 1 {
        assert And(h / 2, 0) == 0;
      }
    }
  }

  lemma HalvesRemainder(h: nat, p: nat)
    requires p > 0
    ensures h % (2 * p) == 2 * (h / 2 % p) + h % 2
  {
    var q, r := h / 2 / p, h / 2 % p;
    assert h / 2 == q * p + r;
    assert h == q * (2 * p) + (2 * r + h % 2) by { assert q * (2 * p) == 2 * (q * p); }
    RemainderIs(h, 2 * p, q, 2 * r + h % 2);
  }
}

/** The shard count and the choice of a shard (internal/core/sync/vars/sharded.go). */
module Sharding {
  import opened Binary
  import opened Division

  /** 2^63: one more than the largest int of the source. */
  const LIMIT := 0x8000_0000_0000_0000

  // ---------- The next power of two ----------

  /** Each digit of `s` tells whether `m` has a digit among the `width` from there on. */
  ghost predicate Smeared(m: nat, s: nat, width: nat) {
    forall i: nat :: Bit(s, i) <==> Within(m, i, width)
  }

  ghost predicate Within(m: nat, i: nat, width: nat) { exists j: nat :: i <= j < i + width && Bit(m, j) }

  lemma SmearDoubles(m: nat, s: nat, width: nat)
    requires Smeared(m, s, width)
    ensures Smeared(m, Or(s, Shr(s, width)), 2 * width)
  {
    hide Bit;
    forall i: nat ensures Bit(Or(s, Shr(s, width)), i) <==> Within(m, i, 2 * width) {
      BitOfOr(s, Shr(s, width), i);
      BitOfShr(s, width, i);
      assert Bit(s, i) <==> Within(m, i, width);
      assert Bit(s, i + width) <==> Within(m, i + width, width);
      if Within(m, i, 2 * width) {
        var j: nat :| i <= j < i + 2 * width && Bit(m, j);
        assert if j < i + width then Within(m, i, width) else Within(m, i + width, width);
      }
    }
  }

  /** No 32 zero digits in a row below the highest one. */
  ghost predicate NoGap(m: nat) {
    forall i: nat, j: nat :: i <= j && Bit(m, j) ==> Within(m, i, 32)
  }

  predicate LeastPower(r: int, n: int) {
    IsPow2(r) && r >= n && (r > 1 ==> r / 2 < n)
  }

  lemma LeastPowerIsLeast(r: int, n: int, k: nat)
    requires LeastPower(r, n) && Pow2(k) >= n
    ensures r <= Pow2(k)
  {
    var e := Exponent(r);
    if k < e { Pow2Grows(k, e); } else if k > e { Pow2Grows(e, k); }
  }

  lemma NothingAbove(m: nat, t: nat, i: nat, width: nat)
    requires i > t && forall j :: j > t ==> !Bit(m, j)
    ensures !Within(m, i, width)
  {
    hide Bit;
  }

  lemma GapAt(m: nat, t: nat, i: nat)
    requires Bit(m, t) && i <= t
    ensures NoGap(m) ==> Within(m, i, 32)
  {
    hide Bit, Within;
  }

  /** The digits up to the highest one are all set in the smear exactly when there is no gap. */
  lemma SmearIsMaskIff(m: nat, s: nat, t: nat)
    requires Smeared(m, s, 32) && Bit(m, t) && forall i :: i > t ==> !Bit(m, i)
    ensures s == Pow2(t + 1) - 1 <==> NoGap(m)
  {
    hide Bit, Within, NoGap;
    var mask := Pow2(t + 1) - 1;
    forall i: nat ensures Bit(s, i) == Within(m, i, 32) && Bit(mask, i) == (i <= t) {
      BitOfMask(t + 1, i);
    }
    if NoGap(m) {
      forall i: nat ensures Bit(s, i) == Bit(mask, i) {
        if i <= t { GapAt(m, t, i); } else { NothingAbove(m, t, i, 32); }
      }
      BitsDecide(s, mask);
    }
    if s == mask { AllWithin(m, t); }
  }

  lemma AllWithin(m: nat, t: nat)
    requires (forall i: nat :: i <= t ==> Within(m, i, 32)) && forall i :: i > t ==> !Bit(m, i)
    ensures NoGap(m)
  {
    hide Bit, Within;
  }

  /** Up to 2^32 there is no room for a gap. */
  lemma SmallHasNoGap(m: nat)
    requires m < 0x1_0000_0000
    ensures NoGap(m)
  {
    hide Bit;
    if m > 0 {
      var t := TopBit(m);
      assert Pow2(32) == 0x1_0000_0000 by { PowerOf32(); }
      if t >= 32 { if t > 32 { Pow2Grows(32, t); } }
      forall i: nat, j: nat | i <= j && Bit(m, j) ensures Within(m, i, 32) { assert j <= t; }
    } else {
      forall j: nat ensures !Bit(0, j) { NoBits(j); }
    }
  }

  lemma PowerOf32()
    ensures Pow2(32) == 0x1_0000_0000
  {
    assert Pow2(8) == 256;
    assert Pow2(16) == 65536;
    assert Pow2(24) == 0x100_0000;
  }

  lemma SmearIsBounded(m: nat, s: nat, t: nat)
    requires Smeared(m, s, 32) && Bit(m, t) && forall i :: i > t ==> !Bit(m, i)
    ensures Pow2(t) <= s < Pow2(t + 1)
  {
    hide Bit, Within;
    assert Within(m, t, 32) by { WithinHere(m, t, 32); }
    assert Bit(s, t);
    forall i: nat | i > t ensures !Bit(s, i) { NothingAbove(m, t, i, 32); }
    NonZero(s, t);
    var u := TopBit(s);
    assert u <= t && t <= u;
  }

  lemma SmearCovers(m: nat, s: nat)
    requires Smeared(m, s, 32)
    ensures m <= s
  {
    hide Bit, Within;
    forall i: nat | Bit(m, i) ensures Bit(s, i) { WithinHere(m, i, 32); }
    MoreBits(m, s);
  }

  lemma WithinHere(m: nat, i: nat, width: nat)
    requires Bit(m, i) && width > 0
    ensures Within(m, i, width)
  {
  }

  lemma NonZero(s: nat, t: nat)
    requires Bit(s, t)
    ensures s > 0
  {
    if s == 0 { NoBits(t); }
  }

  /** What adding one to an int gives: the largest wraps around. */
  function Increment(x: int): int { if x == LIMIT - 1 then -LIMIT else x + 1 }

  lemma PowerOf63()
    ensures Pow2(63) == LIMIT && Pow2(62) == LIMIT / 2
  {
    PowerOf32();
    assert Pow2(40) == 0x100_0000_0000;
    assert Pow2(48) == 0x1_0000_0000_0000;
    assert Pow2(56) == 0x100_0000_0000_0000;
  }

  /** What the last increment makes of a smear whose highest bit is `t`. */
  lemma IncrementDecides(n: nat, s: nat, t: nat)
    requires 0 < n < LIMIT && Pow2(t) <= n - 1 <= s < Pow2(t + 1)
    ensures s < LIMIT && (n <= LIMIT / 2 ==> s + 1 <= LIMIT / 2)
    ensures LeastPower(Increment(s), n) <==> n <= LIMIT / 2 && s == Pow2(t + 1) - 1
  {
    hide Pow2;
    PowerOf63();
    Doubles(t);
    Pow2Is(t + 1);
    if t >= 63 { if t > 63 { Pow2Grows(63, t); } }
    if t < 62 { Pow2Grows(t, 62); }
    if IsPow2(s + 1) { OnlyPowerBetween(s + 1, t); }
  }

  lemma SmearDecides(n: nat, s: nat)
    requires 0 < n < LIMIT && Smeared(n - 1, s, 32)
    ensures s < LIMIT && (n <= LIMIT / 2 ==> n <= s + 1 <= LIMIT / 2)
    ensures LeastPower(Increment(s), n) <==> n <= LIMIT / 2 && NoGap(n - 1)
  {
    hide Bit, Within, NoGap, Smeared, Pow2;
    SmearCovers(n - 1, s);
    if n == 1 {
      ZeroSmears(s);
      SmallHasNoGap(0);
    } else {
      var t := TopBit(n - 1);
      SmearIsBounded(n - 1, s, t);
      SmearIsMaskIff(n - 1, s, t);
      IncrementDecides(n, s, t);
    }
  }

  lemma Doubles(t: nat)
    ensures Pow2(t + 1) == 2 * Pow2(t)
  {
  }

  lemma OnlyPowerBetween(r: int, t: nat)
    requires Pow2(t) < r <= Pow2(t + 1) && IsPow2(r)
    ensures r == Pow2(t + 1)
  {
    var e := Exponent(r);
    if e <= t { if e < t { Pow2Grows(e, t); } } else if e > t + 1 { Pow2Grows(t + 1, e); }
  }

  lemma ZeroSmears(s: nat)
    requires Smeared(0, s, 32)
    ensures s == 0
  {
    hide Bit;
    forall i: nat ensures !Bit(0, i) { NoBits(i); }
    forall i: nat ensures Bit(s, i) == Bit(0, i) { assert Bit(s, i) <==> Within(0, i, 32); }
    BitsDecide(s, 0);
  }

  lemma SmearStarts(m: nat)
    ensures Smeared(m, m, 1)
  {
    hide Bit;
    forall i: nat ensures Bit(m, i) <==> Within(m, i, 1) {
    }
  }

  /** The source's shifts and ors, on its 64-bit int. For every positive n the result is the least
      power of two from n on exactly when that is an int and n - 1 has no gap. */
  method NextPowerOf2(n0: int) returns (n: int)
    requires 0 < n0 < LIMIT
    ensures LeastPower(n, n0) <==> n0 <= LIMIT / 2 && NoGap(n0 - 1)
    ensures n0 <= 0x1_0000_0000 ==> LeastPower(n, n0)
    ensures n0 <= LIMIT / 2 ==> n0 <= n <= LIMIT / 2
  {
    hide Bit, Smeared, NoGap, Or, Shr, LeastPower;
    ghost var m := n0 - 1;
    n := n0 - 1;
    SmearStarts(m);
    SmearDoubles(m, n, 1);
    n := Or(n, Shr(n, 1));
    SmearDoubles(m, n, 2);
    n := Or(n, Shr(n, 2));
    SmearDoubles(m, n, 4);
    n := Or(n, Shr(n, 4));
    SmearDoubles(m, n, 8);
    n := Or(n, Shr(n, 8));
    SmearDoubles(m, n, 16);
    n := Or(n, Shr(n, 16));
    SmearDecides(n0, n);
    n := Increment(n);
    if n0 <= 0x1_0000_0000 { SmallHasNoGap(m); }
  }

  /** From 2^32 on powers of two have a gap. */
  lemma PowersHaveGaps(t: nat)
    requires t >= 32
    ensures !NoGap(Pow2(t))
  {
    hide Bit;
    forall j: nat ensures Bit(Pow2(t), j) <==> j == t { BitOfPow2(t, j); }
    assert Bit(Pow2(t), t);
    assert !Within(Pow2(t), 0, 32);
  }

  /** So rounding up one more than 2^32, 2^33, ... or 2^61 gives no least power of two. */
  method RoundsWrongly(t: nat) returns (n: int)
    requires 32 <= t <= 61
    ensures Pow2(t) + 1 <= LIMIT / 2 && !LeastPower(n, Pow2(t) + 1)
  {
    PowerOf63();
    Pow2Grows(t, 62);
    PowersHaveGaps(t);
    n := NextPowerOf2(Pow2(t) + 1);
  }

  // ---------- Choosing a shard ----------

  /** Masking a hash picks the shard of its remainder for every hash exactly when the count is a power of two. */
  lemma MaskPicksRemainderIff(count: nat)
    requires count > 0
    ensures IsPow2(count) <==> forall h: nat :: And(h, count - 1) == h % count
  {
    if IsPow2(count) {
      var k := Exponent(count);
      forall h: nat ensures And(h, count - 1) == h % count { MaskIsRemainder(h, k); }
    } else {
      SharesNoDigitIff(count);
      assert And(count, count - 1) != count % count;
    }
  }

  /** Every shard is somebody's exactly when the count is a power of two. */
  lemma EveryShardUsedIff(count: nat)
    requires count > 0
    ensures IsPow2(count) <==> forall i :: 0 <= i < count ==> Used(count, i)
  {
    hide Bit, And;
    if IsPow2(count) {
      MaskPicksRemainderIff(count);
      forall i | 0 <= i < count ensures Used(count, i) {
        assert And(i, count - 1) == i % count;
        assert i % count == i by { RemainderIs(i, count, 0, i); }
        assert Picks(i, count, i);
      }
    } else if forall i :: 0 <= i < count ==> Used(count, i) {
      var mask := count - 1;
      var t := TopBit(mask);
      forall i: nat | i <= t ensures Bit(mask, i) {
        if i < t { Pow2Grows(i, t); }
        UsedBit(count, i);
      }
      AllOnes(mask, t);
      Pow2Is(t + 1);
    }
  }

  ghost predicate Used(count: nat, i: nat)
    requires count > 0
  {
    exists h: nat :: Picks(h, count, i)
  }

  predicate Picks(h: nat, count: nat, i: nat)
    requires count > 0
  {
    And(h, count - 1) == i
  }

  lemma UsedBit(count: nat, i: nat)
    requires count > 0 && Used(count, Pow2(i))
    ensures Bit(count - 1, i)
  {
    hide Bit, And;
    var h: nat :| Picks(h, count, Pow2(i));
    BitOfAnd(h, count - 1, i);
    BitOfPow2(i, i);
  }

  lemma AllOnes(m: nat, t: nat)
    requires (forall i: nat :: i <= t ==> Bit(m, i)) && forall i :: i > t ==> !Bit(m, i)
    ensures m == Pow2(t + 1) - 1
  {
    hide Bit;
    forall i: nat ensures Bit(m, i) == Bit(Pow2(t + 1) - 1, i) { BitOfMask(t + 1, i); }
    BitsDecide(m, Pow2(t + 1) - 1);
  }

  const VERSIONS := 0x1_0000_0000_0000_0000

  datatype Shard<T> = Shard(value: T, version: nat, dirty: bool)

  class Sharded<T> {
    const shards: array<Shard<T>>
    const mask: nat

    ghost predicate Valid() { shards.Length == mask + 1 }

    /** The count asked for is kept if it is a power of two and else rounded up; that makes it the least
        power of two that is enough exactly when there is no gap to miss. Asking for none leaves no shard
        and a mask of all ones, so that every later lookup fails. */
    constructor (initial: T, n: int)
      requires 0 <= n <= LIMIT / 2
      ensures fresh(shards) && n <= shards.Length <= LIMIT / 2
      ensures n > 0 ==> Valid() && (LeastPower(shards.Length, n) <==> IsPow2(n) || NoGap(n - 1))
      ensures 0 < n <= 0x1_0000_0000 ==> LeastPower(shards.Length, n)
      ensures n == 0 ==> shards.Length == 0 && mask == 0xFFFF_FFFF_FFFF_FFFF
      ensures forall i :: 0 <= i < shards.Length ==> shards[i] == Shard(initial, 1, false)
    {
      hide And, NoGap;
      var count := n;
      if n > 0 {
        SharesNoDigitIff(n);
        if And(n, n - 1) != 0 {
          count := NextPowerOf2(n);
        }
      }
      shards := new Shard<T>[count](_ => Shard(initial, 1, false));
      mask := if count == 0 then VERSIONS - 1 else count - 1;
    }

    method ShardOf(hash: nat) returns (i: nat)
      requires Valid()
      ensures i < shards.Length && i == And(hash, mask)
      ensures IsPow2(shards.Length) ==> i == hash % shards.Length
    {
      AndIsSmaller(hash, mask);
      MaskPicksRemainderIff(shards.Length);
      i := And(hash, mask);
    }

    method GetWithKey(hash: nat) returns (v: T)
      requires Valid()
      ensures And(hash, mask) < shards.Length && v == shards[And(hash, mask)].value
      ensures IsPow2(shards.Length) ==> v == shards[hash % shards.Length].value
    {
      var i := ShardOf(hash);
      v := shards[i].value;
    }

    /** Only the hash's own shard changes. */
    method SetWithKey(hash: nat, v: T)
      requires Valid()
      modifies shards
      ensures And(hash, mask) < shards.Length
      ensures shards[..] == old(shards[..])[And(hash, mask) :=
                Shard(v, (old(shards[And(hash, mask)].version) + 1) % 0x1_0000_0000_0000_0000, true)]
    {
      var i := ShardOf(hash);
      shards[i] := Shard(v, (shards[i].version + 1) % VERSIONS, true);
    }
  }

  /** Two keys share a shard exactly when their hashes have the same remainder: a write to one is seen
      by the other then, and only then. */
  method WriteThenRead<T>(s: Sharded<T>, h: nat, g: nat, v: T) returns (seen: T)
    requires s.Valid() && IsPow2(s.shards.Length)
    modifies s.shards
    ensures h % s.shards.Length == g % s.shards.Length ==> seen == v
    ensures h % s.shards.Length != g % s.shards.Length ==> seen == old(s.shards[g % s.shards.Length].value)
  {
    MaskPicksRemainderIff(s.shards.Length);
    s.SetWithKey(h, v);
    seen := s.GetWithKey(g);
  }
}
