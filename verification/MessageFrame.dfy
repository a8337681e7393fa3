/** Big-endian integers and fixed-width text fields. */
module ByteFields {
  import opened Division

  type Byte = x: int | 0 <= x < 256
  type Bytes = seq<Byte>

  function Pow256(n: nat): (p: nat)
    ensures p > 0
  {
    if n == 0 then 1 else 256 * Pow256(n - 1)
  }

  /** The low `n` bytes of `v`, most significant first. */
  function BigEndian(v: nat, n: nat): (s: Bytes)
    ensures |s| == n
  {
    if n == 0 then [] else BigEndian(v / 256, n - 1) + [v % 256]
  }

  function FromBigEndian(s: Bytes): nat {
    if s == [] then 0 else 256 * FromBigEndian(s[..|s|-1]) + s[|s|-1]
  }

  lemma {:induction false} BigEndianValue(v: nat, n: nat)
    ensures v < Pow256(n) ==> FromBigEndian(BigEndian(v, n)) == v
  {
    if n > 0 {
      BigEndianValue(v / 256, n - 1);
      var s := BigEndian(v, n);
      assert s[..n-1] == BigEndian(v / 256, n - 1);
    }
  }

  lemma {:induction false} BigEndianBytes(s: Bytes)
    ensures FromBigEndian(s) < Pow256(|s|) && BigEndian(FromBigEndian(s), |s|) == s
  {
    if s != [] {
      BigEndianBytes(s[..|s|-1]);
      assert s == s[..|s|-1] + [s[|s|-1]];
    }
  }

  lemma DivideTwice(v: nat, a: nat, b: nat)
    requires a > 0 && b > 0
    ensures a * b > 0 && v / a / b == v / (a * b)
  {
    var w, q, r := v / a, v / a / b, v / a % b;
    Parts(w, b);
    Parts(v, a);
    Regroup(q, r, a, b);
    AtMost(r, b - 1, a);
    QuotientIs(v, a * b, q, r * a + v % a);
  }

  lemma Parts(v: nat, m: nat)
    requires m > 0
    ensures v == (v / m) * m + v % m && 0 <= v % m < m
  {
  }

  lemma Regroup(q: nat, r: nat, a: nat, b: nat)
    ensures (q * b + r) * a == q * (a * b) + r * a && (b - 1) * a == a * b - a
    ensures a > 0 && b > 0 ==> a * b > 0
  {
  }

  lemma AtMost(r: nat, m: nat, a: nat)
    requires r <= m
    ensures 0 <= r * a <= m * a
  {
  }

  lemma QuotientIs(v: nat, m: nat, q: nat, r: nat)
    requires m > 0 && v == q * m + r && r < m
    ensures v / m == q
  {
    var d := q - v / m;
    assert d * m == v % m - r by { assert v == (v / m) * m + v % m && d * m == q * m - (v / m) * m; }
    TimesAtLeast(d, m);
  }

  /** Byte `i` of `n` is what is left of `v` over 256 to the power of n - 1 - i: the first weighs most. */
  lemma {:induction false} BigEndianAt(v: nat, n: nat, i: nat)
    requires i < n
    ensures BigEndian(v, n)[i] == v / Pow256(n - 1 - i) % 256
    decreases n
  {
    if i == n - 1 {
      assert Pow256(0) == 1;
    } else {
      BigEndianAt(v / 256, n - 1, i);
      DivideTwice(v, 256, Pow256(n - 2 - i));
    }
  }

  lemma FourBytes(v: nat)
    ensures BigEndian(v, 4) == [v / 0x100_0000 % 256, v / 0x1_0000 % 256, v / 0x100 % 256, v % 256]
  {
    BigEndianAt(v, 4, 0);
    BigEndianAt(v, 4, 1);
    BigEndianAt(v, 4, 2);
    BigEndianAt(v, 4, 3);
    SmallPowers();
  }

  lemma EightBytes(v: nat)
    ensures BigEndian(v, 8) ==
              [v / 0x100_0000_0000_0000 % 256, v / 0x1_0000_0000_0000 % 256, v / 0x100_0000_0000 % 256, v / 0x1_0000_0000 % 256,
               v / 0x100_0000 % 256, v / 0x1_0000 % 256, v / 0x100 % 256, v % 256]
  {
    hide BigEndian, Pow256;
    var s := BigEndian(v, 8);
    forall i: nat | i < 8 ensures s[i] == v / Pow256(7 - i) % 256 { BigEndianAt(v, 8, i); }
    SmallPowers();
    assert s[0] == v / Pow256(7) % 256 && s[1] == v / Pow256(6) % 256 && s[2] == v / Pow256(5) % 256;
    assert s[3] == v / Pow256(4) % 256 && s[4] == v / Pow256(3) % 256 && s[5] == v / Pow256(2) % 256;
    assert s[6] == v / Pow256(1) % 256 && s[7] == v / Pow256(0) % 256;
  }

  lemma SmallPowers()
    ensures Pow256(0) == 1 && Pow256(1) == 0x100 && Pow256(2) == 0x1_0000 && Pow256(3) == 0x100_0000
    ensures Pow256(4) == 0x1_0000_0000 && Pow256(5) == 0x100_0000_0000
    ensures Pow256(6) == 0x1_0000_0000_0000 && Pow256(7) == 0x100_0000_0000_0000
  {
    assert Pow256(3) == 0x100_0000;
    assert Pow256(5) == 0x100_0000_0000;
  }

  /** Four bytes as a number, the first weighing most. */
  function Number4(s: Bytes): nat
    requires |s| == 4
  {
    (s[0] as int) * 0x100_0000 + (s[1] as int) * 0x1_0000 + (s[2] as int) * 0x100 + (s[3] as int)
  }

  function Number8(s: Bytes): nat
    requires |s| == 8
  {
    (s[0] as int) * 0x100_0000_0000_0000 + (s[1] as int) * 0x1_0000_0000_0000 + (s[2] as int) * 0x100_0000_0000 + (s[3] as int) * 0x1_0000_0000
    + (s[4] as int) * 0x100_0000 + (s[5] as int) * 0x1_0000 + (s[6] as int) * 0x100 + (s[7] as int)
  }

  lemma ReadsFour(s: Bytes)
    requires |s| == 4
    ensures FromBigEndian(s) == Number4(s)
  {
    assert s[..3][..2] == s[..2] && s[..2][..1] == s[..1] && s[..1][..0] == [];
    assert FromBigEndian(s[..1]) == s[0];
    assert FromBigEndian(s[..2]) == 256 * (s[0] as int) + s[1] as int;
    assert FromBigEndian(s[..3]) == 256 * FromBigEndian(s[..2]) + s[2];
  }

  lemma ReadsEight(s: Bytes)
    requires |s| == 8
    ensures FromBigEndian(s) == Number8(s)
  {
    ReadsFour(s[..4]);
    assert s[..7][..6] == s[..6] && s[..6][..5] == s[..5] && s[..5][..4] == s[..4];
    assert FromBigEndian(s[..5]) == 256 * FromBigEndian(s[..4]) + s[4];
    assert FromBigEndian(s[..6]) == 256 * FromBigEndian(s[..5]) + s[5];
    assert FromBigEndian(s[..7]) == 256 * FromBigEndian(s[..6]) + s[6];
  }

  const TWO32: int := 0x1_0000_0000
  const TWO63: int := 0x8000_0000_0000_0000
  const TWO64: int := 0x1_0000_0000_0000_0000

  lemma Powers()
    ensures Pow256(4) == TWO32 && Pow256(8) == TWO64
  {
    assert Pow256(3) == 0x100_0000;
    assert Pow256(5) == 0x100_0000_0000;
    assert Pow256(7) == 0x100_0000_0000_0000;
  }

  type Int64 = x: int | -TWO63 <= x < TWO63

  /** Go's conversions between int64 and uint64. */
  function ToUint64(x: Int64): (u: nat)
    ensures u < TWO64
  {
    if x < 0 then x + TWO64 else x
  }

  function ToInt64(u: nat): (x: Int64)
    requires u < TWO64
    ensures ToUint64(x) == u
  {
    if u < TWO63 then u else u - TWO64
  }

  /** An ID field is 36 bytes: the ID cut to that length, then zeros. */
  const FIELD: nat := 36

  function Zeros(n: nat): Bytes {
    seq(n, _ => 0)
  }

  function Pad(id: Bytes): (s: Bytes)
    ensures |s| == FIELD
  {
    if |id| >= FIELD then id[..FIELD] else id + Zeros(FIELD - |id|)
  }

  /** The position of the first zero byte, or the length if there is none. */
  function NullAt(s: Bytes): (i: nat)
    ensures i <= |s| && 0 !in s[..i] && (i < |s| ==> s[i] == 0)
  {
    if s == [] || s[0] == 0 then 0
    else
      var i := 1 + NullAt(s[1..]);
      assert s[..i] == [s[0]] + s[1..][..i-1];
      i
  }

  function Trim(s: Bytes): (id: Bytes)
    ensures 0 !in id && |id| <= |s|
  {
    s[..NullAt(s)]
  }

  lemma NullAtIs(s: Bytes, i: nat)
    requires i <= |s| && 0 !in s[..i] && (i < |s| ==> s[i] == 0)
    ensures NullAt(s) == i
  {
  }

  /** A field gives an ID back exactly when the ID is short enough and has no zero byte. */
  lemma FieldRoundTrip(id: Bytes)
    ensures Trim(Pad(id)) == id <==> |id| <= FIELD && 0 !in id
  {
    if |id| <= FIELD && 0 !in id {
      assert Pad(id)[..|id|] == id;
      NullAtIs(Pad(id), |id|);
    }
  }

  /** Only zeros after the first zero. */
  ghost predicate CleanPadding(s: Bytes) {
    forall i :: NullAt(s) <= i < |s| ==> s[i] == 0
  }

  lemma FieldReencodes(s: Bytes)
    requires |s| == FIELD
    ensures Pad(Trim(s)) == s <==> CleanPadding(s)
  {
    var n := NullAt(s);
    assert Pad(Trim(s)) == s[..n] + Zeros(FIELD - n);
    assert s == s[..n] + s[n..];
    if CleanPadding(s) {
      assert s[n..] == Zeros(FIELD - n);
    } else {
      var i :| n <= i < |s| && s[i] != 0;
      assert Pad(Trim(s))[i] == 0;
    }
  }
}

/** The message frames of internal/core/protocol/quic/stream.go and the length-prefixed
    stream they travel on. */
module MessageFrames {
  import opened ByteFields

  datatype Message = Message(id: Bytes, kind: Byte, priority: Byte, timestamp: Int64, ttl: Int64,
                             source: Bytes, target: Bytes, group: Bytes, scope: Bytes, payload: Bytes)

  datatype Error = InvalidMessage | MessageTooLarge | StreamClosed | EndOfStream | ReadFailed

  datatype Result<+T> = Ok(value: T) | Err(error: Error)

  /** What the sender puts before the payload, and the least the parser accepts. */
  const HEADER: nat := 202
  const MIN_FRAME: nat := 234

  function Encode(m: Message): (f: Bytes)
    ensures |f| == HEADER + |m.payload|
  {
    Pad(m.id) + [m.kind] + [m.priority] + BigEndian(ToUint64(m.timestamp), 8) + BigEndian(ToUint64(m.ttl), 8)
    + Pad(m.source) + Pad(m.target) + Pad(m.group) + Pad(m.scope)
    + BigEndian(|m.payload| % TWO32, 4) + m.payload
  }

  lemma EightBytesFit(s: Bytes)
    requires |s| == 8
    ensures FromBigEndian(s) < TWO64
  {
    BigEndianBytes(s);
    Powers();
  }

  function ReadInt64(s: Bytes): Int64
    requires |s| == 8
  {
    EightBytesFit(s);
    ToInt64(FromBigEndian(s))
  }

  function Decode(f: Bytes): Result<Message> {
    if |f| < MIN_FRAME then Err(InvalidMessage)
    else if HEADER + FromBigEndian(f[198..202]) != |f| then Err(InvalidMessage)
    else Ok(Message(Trim(f[0..36]), f[36], f[37], ReadInt64(f[38..46]), ReadInt64(f[46..54]),
                    Trim(f[54..90]), Trim(f[90..126]), Trim(f[126..162]), Trim(f[162..198]), f[202..]))
  }

  // ---------- Round trips ----------

  lemma Pieces(m: Message)
    ensures var f := Encode(m);
            && f[0..36] == Pad(m.id) && f[36] == m.kind && f[37] == m.priority
            && f[38..46] == BigEndian(ToUint64(m.timestamp), 8) && f[46..54] == BigEndian(ToUint64(m.ttl), 8)
            && f[54..90] == Pad(m.source) && f[90..126] == Pad(m.target)
            && f[126..162] == Pad(m.group) && f[162..198] == Pad(m.scope)
            && f[198..202] == BigEndian(|m.payload| % TWO32, 4) && f[202..] == m.payload
  {
  }

  predicate GoodId(id: Bytes) {
    |id| <= FIELD && 0 !in id
  }

  predicate GoodIds(m: Message) {
    GoodId(m.id) && GoodId(m.source) && GoodId(m.target) && GoodId(m.group) && GoodId(m.scope)
  }

  /** What survives of the IDs: the first 36 bytes, up to the first zero. */
  function Clipped(m: Message): Message {
    m.(id := Trim(Pad(m.id)), source := Trim(Pad(m.source)), target := Trim(Pad(m.target)),
       group := Trim(Pad(m.group)), scope := Trim(Pad(m.scope)))
  }

  lemma IntSurvives(x: Int64)
    ensures ReadInt64(BigEndian(ToUint64(x), 8)) == x
  {
    Powers();
    BigEndianValue(ToUint64(x), 8);
  }

  /** What the parser makes of every frame the sender builds. */
  lemma DecodeEncode(m: Message)
    ensures Decode(Encode(m)) == if 32 <= |m.payload| < TWO32 then Ok(Clipped(m)) else Err(InvalidMessage)
  {
    hide Encode, Pad, Trim, BigEndian, FromBigEndian, ReadInt64, ToUint64, Pow256;
    Pieces(m);
    Powers();
    BigEndianValue(|m.payload| % TWO32, 4);
    IntSurvives(m.timestamp);
    IntSurvives(m.ttl);
  }

  /** A message comes back whole exactly when its IDs fit and its payload has 32 bytes or more (and under 2^32). */
  lemma RoundTripIff(m: Message)
    ensures Decode(Encode(m)) == Ok(m) <==> GoodIds(m) && 32 <= |m.payload| < TWO32
  {
    DecodeEncode(m);
    FieldRoundTrip(m.id);
    FieldRoundTrip(m.source);
    FieldRoundTrip(m.target);
    FieldRoundTrip(m.group);
    FieldRoundTrip(m.scope);
  }

  ghost predicate CleanFields(f: Bytes)
    requires |f| >= HEADER
  {
    && CleanPadding(f[0..36]) && CleanPadding(f[54..90]) && CleanPadding(f[90..126])
    && CleanPadding(f[126..162]) && CleanPadding(f[162..198])
  }

  lemma IntReencodes(s: Bytes)
    requires |s| == 8
    ensures BigEndian(ToUint64(ReadInt64(s)), 8) == s
  {
    EightBytesFit(s);
    BigEndianBytes(s);
  }

  /** Encoding a parsed message again gives the same frame exactly when its ID padding is all zero. */
  lemma ReencodeIff(f: Bytes)
    requires Decode(f).Ok?
    ensures Encode(Decode(f).value) == f <==> CleanFields(f)
  {
    var m := Decode(f).value;
    FieldReencodes(f[0..36]);
    FieldReencodes(f[54..90]);
    FieldReencodes(f[90..126]);
    FieldReencodes(f[126..162]);
    FieldReencodes(f[162..198]);
    if CleanFields(f) {
      Reencodes(f);
    } else {
      Pieces(m);
    }
  }

  lemma LengthReencodes(f: Bytes)
    requires Decode(f).Ok?
    ensures BigEndian(|Decode(f).value.payload| % TWO32, 4) == f[198..202]
  {
    hide BigEndian, FromBigEndian, Trim, ReadInt64, Pow256;
    Powers();
    BigEndianBytes(f[198..202]);
    assert |Decode(f).value.payload| == FromBigEndian(f[198..202]) < TWO32;
  }

  lemma Reencodes(f: Bytes)
    requires Decode(f).Ok?
    requires Pad(Trim(f[0..36])) == f[0..36] && Pad(Trim(f[54..90])) == f[54..90]
    requires Pad(Trim(f[90..126])) == f[90..126] && Pad(Trim(f[126..162])) == f[126..162]
    requires Pad(Trim(f[162..198])) == f[162..198]
    ensures Encode(Decode(f).value) == f
  {
    hide Pad, Trim, BigEndian, FromBigEndian, ReadInt64;
    IntReencodes(f[38..46]);
    IntReencodes(f[46..54]);
    LengthReencodes(f);
    SplitAt(f);
  }

  lemma SplitAt(f: Bytes)
    requires |f| >= HEADER
    ensures f == f[0..36] + [f[36]] + [f[37]] + f[38..46] + f[46..54] + f[54..90] + f[90..126]
                 + f[126..162] + f[162..198] + f[198..202] + f[202..]
  {
  }

  // ---------- The layout, byte by byte ----------

  /** The field at `at` holds the ID and zeros behind it, cut to 36 bytes. */
  ghost predicate Holds(f: Bytes, at: nat, id: Bytes) {
    at + 36 <= |f| && forall i :: 0 <= i < 36 ==> f[at + i] == if i < |id| then id[i] else 0
  }

  /** The eight bytes from `at` on are those of `v`, the highest first. */
  ghost predicate Spells8(f: Bytes, at: nat, v: nat) {
    at + 8 <= |f| &&
    f[at..at+8] == [v / 0x100_0000_0000_0000 % 256, v / 0x1_0000_0000_0000 % 256, v / 0x100_0000_0000 % 256, v / 0x1_0000_0000 % 256,
                    v / 0x100_0000 % 256, v / 0x1_0000 % 256, v / 0x100 % 256, v % 256]
  }

  lemma PadHolds(f: Bytes, at: nat, id: Bytes)
    requires at + 36 <= |f| && f[at..at+36] == Pad(id)
    ensures Holds(f, at, id)
  {
    forall i | 0 <= i < 36 ensures f[at + i] == if i < |id| then id[i] else 0 {
      assert f[at + i] == f[at..at+36][i];
    }
  }

  /** Every byte of the frame built for a message. */
  lemma FrameBytes(m: Message)
    ensures var f := Encode(m); var n := |m.payload| % 0x1_0000_0000;
            && |f| == 202 + |m.payload|
            && Holds(f, 0, m.id) && f[36] == m.kind && f[37] == m.priority
            && Spells8(f, 38, if m.timestamp < 0 then m.timestamp + 0x1_0000_0000_0000_0000 else m.timestamp)
            && Spells8(f, 46, if m.ttl < 0 then m.ttl + 0x1_0000_0000_0000_0000 else m.ttl)
            && Holds(f, 54, m.source) && Holds(f, 90, m.target) && Holds(f, 126, m.group) && Holds(f, 162, m.scope)
            && f[198..202] == [n / 0x100_0000, n / 0x1_0000 % 256, n / 0x100 % 256, n % 256]
            && f[202..] == m.payload
  {
    hide Encode, Pad, BigEndian, Holds, Spells8;
    Pieces(m);
    var f := Encode(m);
    PadHolds(f, 0, m.id);
    PadHolds(f, 54, m.source);
    PadHolds(f, 90, m.target);
    PadHolds(f, 126, m.group);
    PadHolds(f, 162, m.scope);
    assert f[38..38+8] == f[38..46] && f[46..46+8] == f[46..54];
    BigEndianSpells(f, 38, ToUint64(m.timestamp));
    BigEndianSpells(f, 46, ToUint64(m.ttl));
    LengthBytes(|m.payload| % TWO32);
  }

  lemma BigEndianSpells(f: Bytes, at: nat, v: nat)
    requires at + 8 <= |f| && f[at..at+8] == BigEndian(v, 8)
    ensures Spells8(f, at, v)
  {
    EightBytes(v);
  }

  lemma LengthBytes(n: nat)
    requires n < TWO32
    ensures n / 0x100_0000 < 256
    ensures BigEndian(n, 4) == [n / 0x100_0000, n / 0x1_0000 % 256, n / 0x100 % 256, n % 256]
  {
    hide BigEndian;
    FourBytes(n);
  }

  /** The bytes on the stream: eight for the length of the frame, the highest first, then the frame. */
  lemma WireBytes(m: Message)
    requires 202 + |m.payload| < 0x1_0000_0000_0000_0000
    ensures Spells8(Wire(m), 0, 202 + |m.payload|) && Wire(m)[7] == (202 + |m.payload|) % 256 && Wire(m)[8..] == Encode(m)
  {
    hide Encode, BigEndian;
    EightBytes(202 + |m.payload|);
    assert Wire(m)[0..0+8] == BigEndian(202 + |m.payload|, 8);
    assert Wire(m)[7] == Wire(m)[0..0+8][7];
  }

  /** The ID read from the field at `at`: all before the first zero, or all 36 bytes. */
  ghost predicate ReadFrom(f: Bytes, at: nat, id: Bytes)
    requires at + 36 <= |f|
  {
    |id| <= 36 && id == f[at..at+|id|] && 0 !in id && (|id| < 36 ==> f[at + |id|] == 0)
  }

  lemma TrimReads(f: Bytes, at: nat)
    requires at + 36 <= |f|
    ensures ReadFrom(f, at, Trim(f[at..at+36]))
  {
    var field := f[at..at+36];
    var n := NullAt(field);
    assert field[..n] == f[at..at+n];
    if n < 36 { assert field[n] == f[at + n]; }
  }

  /** What the parser reads: which frames it takes, and the bytes each field comes from. */
  lemma FrameMeans(f: Bytes)
    ensures Decode(f).Ok? <==> |f| >= 234 && 202 + Number4(f[198..202]) == |f|
    ensures Decode(f).Err? ==> Decode(f).error == InvalidMessage
    ensures Decode(f).Ok? ==>
      var m, t, l := Decode(f).value, Number8(f[38..46]), Number8(f[46..54]);
      && ReadFrom(f, 0, m.id) && m.kind == f[36] && m.priority == f[37]
      && m.timestamp == (if t < 0x8000_0000_0000_0000 then t else t - 0x1_0000_0000_0000_0000)
      && m.ttl == (if l < 0x8000_0000_0000_0000 then l else l - 0x1_0000_0000_0000_0000)
      && ReadFrom(f, 54, m.source) && ReadFrom(f, 90, m.target) && ReadFrom(f, 126, m.group) && ReadFrom(f, 162, m.scope)
      && m.payload == f[202..]
  {
    hide FromBigEndian, Trim, Number4, Number8;
    if |f| >= 234 {
      ReadsFour(f[198..202]);
      ReadsEight(f[38..46]);
      ReadsEight(f[46..54]);
      TrimReads(f, 0);
      TrimReads(f, 54);
      TrimReads(f, 90);
      TrimReads(f, 126);
      TrimReads(f, 162);
    }
  }

  // ---------- Filling and reading a frame ----------

  /** Go's copy(dst[offset:offset+width], src). */
  method CopyInto(dst: array<Byte>, offset: nat, width: nat, src: Bytes)
    requires offset + width <= dst.Length
    modifies dst
    ensures var n := if |src| < width then |src| else width;
            dst[..] == old(dst[..offset]) + src[..n] + old(dst[offset + n..])
  {
    var n := if |src| < width then |src| else width;
    var i := 0;
    while i < n
      invariant 0 <= i <= n
      invariant forall k :: 0 <= k < dst.Length ==>
                  dst[k] == if offset <= k < offset + i then src[k - offset] else old(dst[k])
    {
      dst[offset + i] := src[i];
      i := i + 1;
    }
  }

  /** `frame` holds `done`, then zeros. */
  ghost predicate Filled(frame: array<Byte>, done: Bytes)
    reads frame
  {
    |done| <= frame.Length && frame[..] == done + Zeros(frame.Length - |done|)
  }

  method PutBytes(frame: array<Byte>, offset: nat, src: Bytes, ghost done: Bytes)
    requires Filled(frame, done) && offset == |done| && offset + |src| <= frame.Length
    modifies frame
    ensures Filled(frame, done + src)
  {
    CopyInto(frame, offset, |src|, src);
  }

  method PutId(frame: array<Byte>, offset: nat, id: Bytes, ghost done: Bytes)
    requires Filled(frame, done) && offset == |done| && offset + FIELD <= frame.Length
    modifies frame
    ensures Filled(frame, done + Pad(id))
  {
    CopyInto(frame, offset, FIELD, id);
  }

  method NewFrame(n: nat) returns (frame: array<Byte>)
    ensures fresh(frame) && frame.Length == n && Filled(frame, [])
  {
    frame := new Byte[n](_ => 0);
  }

  lemma FilledWhole(frame: array<Byte>, done: Bytes)
    requires Filled(frame, done) && |done| == frame.Length
    ensures frame[..] == done
  {
  }

  method CreateMessageFrame(m: Message) returns (frame: array<Byte>)
    ensures fresh(frame) && frame[..] == Encode(m)
  {
    hide Filled, Pad, BigEndian, ToUint64;
    frame := NewFrame(HEADER + |m.payload|);
    ghost var d: Bytes := [];
    var offset := 0;
    PutId(frame, offset, m.id, d);
    d := Pad(m.id);
    assert [] + d == d;
    offset := offset + 36;
    PutBytes(frame, offset, [m.kind], d);
    d := d + [m.kind];
    offset := offset + 1;
    PutBytes(frame, offset, [m.priority], d);
    d := d + [m.priority];
    offset := offset + 1;
    PutBytes(frame, offset, BigEndian(ToUint64(m.timestamp), 8), d);
    d := d + BigEndian(ToUint64(m.timestamp), 8);
    offset := offset + 8;
    PutBytes(frame, offset, BigEndian(ToUint64(m.ttl), 8), d);
    d := d + BigEndian(ToUint64(m.ttl), 8);
    offset := offset + 8;
    PutId(frame, offset, m.source, d);
    d := d + Pad(m.source);
    offset := offset + 36;
    PutId(frame, offset, m.target, d);
    d := d + Pad(m.target);
    offset := offset + 36;
    PutId(frame, offset, m.group, d);
    d := d + Pad(m.group);
    offset := offset + 36;
    PutId(frame, offset, m.scope, d);
    d := d + Pad(m.scope);
    offset := offset + 36;
    PutBytes(frame, offset, BigEndian(|m.payload| % TWO32, 4), d);
    d := d + BigEndian(|m.payload| % TWO32, 4);
    offset := offset + 4;
    PutBytes(frame, offset, m.payload, d);
    FilledWhole(frame, d + m.payload);
  }

  method FindNullTerminator(data: array<Byte>) returns (n: nat)
    ensures n == NullAt(data[..])
  {
    var i := 0;
    while i < data.Length
      invariant 0 <= i <= data.Length && 0 !in data[..i]
    {
      if data[i] == 0 {
        NullAtIs(data[..], i);
        return i;
      }
      i := i + 1;
    }
    NullAtIs(data[..], i);
    return i;
  }

  /** Copies a 36-byte field out of the frame and cuts it at its first zero. */
  method TakeId(frame: array<Byte>, offset: nat) returns (id: Bytes)
    requires offset + FIELD <= frame.Length
    ensures id == Trim(frame[offset..offset + FIELD])
  {
    var field := new Byte[FIELD](_ => 0);
    CopyInto(field, 0, FIELD, frame[offset..offset + FIELD]);
    assert field[..] == frame[offset..offset + FIELD];
    var n := FindNullTerminator(field);
    return field[..n];
  }

  method ParseMessageFrame(frame: array<Byte>) returns (r: Result<Message>)
    ensures r == Decode(frame[..])
  {
    if frame.Length < MIN_FRAME {
      return Err(InvalidMessage);
    }
    ghost var f := frame[..];
    var offset := 0;
    var id := TakeId(frame, offset);
    offset := offset + 36;
    var kind := frame[offset];
    offset := offset + 1;
    var priority := frame[offset];
    offset := offset + 1;
    var timestamp := ReadInt64(frame[offset..offset + 8]);
    offset := offset + 8;
    var ttl := ReadInt64(frame[offset..offset + 8]);
    offset := offset + 8;
    var source := TakeId(frame, offset);
    offset := offset + 36;
    var target := TakeId(frame, offset);
    offset := offset + 36;
    var group := TakeId(frame, offset);
    offset := offset + 36;
    var scope := TakeId(frame, offset);
    offset := offset + 36;
    var payloadLength := FromBigEndian(frame[offset..offset + 4]);
    offset := offset + 4;
    if offset + payloadLength != frame.Length {
      return Err(InvalidMessage);
    }
    var payload := frame[offset..];
    return Ok(Message(id, kind, priority, timestamp, ttl, source, target, group, scope, payload));
  }

  // ---------- The stream ----------

  /** The bytes of one message on the stream: the frame behind its length. */
  function Wire(m: Message): (w: Bytes)
    ensures |w| == 8 + HEADER + |m.payload|
  {
    BigEndian(|Encode(m)| % TWO64, 8) + Encode(m)
  }

  /** One receive: its result, and the bytes it leaves unread. */
  function Receive(incoming: Bytes, max: Int64): (Result<Message>, Bytes) {
    if incoming == [] then (Err(EndOfStream), [])
    else if |incoming| < 8 then (Err(ReadFailed), [])
    else
      var n, rest := FromBigEndian(incoming[..8]), incoming[8..];
      if n > ToUint64(max) then (Err(MessageTooLarge), rest)
      else if |rest| < n then (Err(ReadFailed), [])
      else (Decode(rest[..n]), rest[n..])
  }

  /** One receive, in terms of the bytes that come in. */
  lemma ReceiveMeans(incoming: Bytes, max: Int64)
    ensures var (r, rest) := Receive(incoming, max);
            if |incoming| < 8 then r == Err(if |incoming| == 0 then EndOfStream else ReadFailed) && rest == []
            else
              var n := Number8(incoming[..8]);
              if n > (if max < 0 then max + 0x1_0000_0000_0000_0000 else max) then r == Err(MessageTooLarge) && rest == incoming[8..]
              else if |incoming| - 8 < n then r == Err(ReadFailed) && rest == []
              else r == Decode(incoming[8..8+n]) && rest == incoming[8+n..]
  {
    hide FromBigEndian, Decode, Number8;
    if |incoming| >= 8 {
      ReadsEight(incoming[..8]);
      var n := Number8(incoming[..8]);
      if n <= |incoming| - 8 { assert incoming[8..][..n] == incoming[8..8+n] && incoming[8..][n..] == incoming[8+n..]; }
    }
  }

  class Stream {
    var incoming: Bytes
    var outgoing: Bytes
    var closed: bool
    const maxMessageSize: Int64

    constructor (max: Int64)
      ensures incoming == [] && outgoing == [] && !closed && maxMessageSize == max
    {
      incoming, outgoing, closed := [], [], false;
      maxMessageSize := max;
    }

    method SendMessage(m: Message) returns (r: Result<nat>)
      modifies this`outgoing
      ensures closed ==> r == Err(StreamClosed) && outgoing == old(outgoing)
      ensures !closed ==> r == Ok(HEADER + |m.payload|) && outgoing == old(outgoing) + Wire(m)
    {
      if closed {
        return Err(StreamClosed);
      }
      var frame := CreateMessageFrame(m);
      var header := BigEndian(frame.Length % TWO64, 8);
      outgoing := outgoing + header;
      outgoing := outgoing + frame[..];
      assert outgoing == old(outgoing) + Wire(m);
      return Ok(frame.Length);
    }

    /** io.ReadFull: all `n` bytes, or an error once the incoming bytes run out. */
    method ReadFull(n: nat) returns (r: Result<Bytes>)
      modifies this`incoming
      ensures n <= |old(incoming)| ==> r == Ok(old(incoming)[..n]) && incoming == old(incoming)[n..]
      ensures n > |old(incoming)| ==> incoming == [] && r == Err(if old(incoming) == [] then EndOfStream else ReadFailed)
    {
      if n <= |incoming| {
        r := Ok(incoming[..n]);
        incoming := incoming[n..];
      } else {
        r := Err(if incoming == [] then EndOfStream else ReadFailed);
        incoming := [];
      }
    }

    method ReceiveMessage() returns (r: Result<Message>)
      modifies this`incoming
      ensures closed ==> r == Err(StreamClosed) && incoming == old(incoming)
      ensures !closed ==> (r, incoming) == Receive(old(incoming), maxMessageSize)
    {
      if closed {
        return Err(StreamClosed);
      }
      var header := ReadFull(8);
      if header.Err? {
        return Err(header.error);
      }
      var frameLength := FromBigEndian(header.value);
      if frameLength > ToUint64(maxMessageSize) {
        return Err(MessageTooLarge);
      }
      var data := ReadFull(frameLength);
      if data.Err? {
        return Err(ReadFailed);
      }
      var frame := new Byte[frameLength](i requires 0 <= i < frameLength => data.value[i]);
      assert frame[..] == data.value;
      r := ParseMessageFrame(frame);
    }
  }

  predicate Sendable(m: Message, max: Int64) {
    GoodIds(m) && 32 <= |m.payload| < TWO32 && HEADER + |m.payload| <= ToUint64(max)
  }

  lemma WireLength(m: Message, rest: Bytes)
    requires |Encode(m)| < TWO64
    ensures var s := Wire(m) + rest;
            FromBigEndian(s[..8]) == |Encode(m)| && s[8..] == Encode(m) + rest
  {
    hide Encode, BigEndian, FromBigEndian, Pow256;
    Powers();
    BigEndianValue(|Encode(m)|, 8);
    assert (Wire(m) + rest)[..8] == BigEndian(|Encode(m)|, 8);
  }

  /** A message sent is received whole, and nothing behind it is touched, exactly when it is sendable. */
  lemma ReceiveSentIff(m: Message, rest: Bytes, max: Int64)
    requires |Encode(m)| < TWO64
    ensures Receive(Wire(m) + rest, max).0 == Ok(m) <==> Sendable(m, max)
    ensures Sendable(m, max) ==> Receive(Wire(m) + rest, max).1 == rest
  {
    hide Encode, Decode, Wire, FromBigEndian;
    WireLength(m, rest);
    RoundTripIff(m);
    assert (Encode(m) + rest)[..|Encode(m)|] == Encode(m);
    assert (Encode(m) + rest)[|Encode(m)|..] == rest;
  }

  function WireAll(ms: seq<Message>): Bytes {
    if ms == [] then [] else Wire(ms[0]) + WireAll(ms[1..])
  }

  /** The results of `n` receives one after the other. */
  function ReceiveMany(incoming: Bytes, n: nat, max: Int64): (seq<Result<Message>>, Bytes)
    decreases n
  {
    if n == 0 then ([], incoming)
    else
      var (r, rest) := Receive(incoming, max);
      var (rs, end) := ReceiveMany(rest, n - 1, max);
      ([r] + rs, end)
  }

  function Received(ms: seq<Message>): seq<Result<Message>> {
    seq(|ms|, i requires 0 <= i < |ms| => Ok(ms[i]))
  }

  lemma SendableFits(m: Message, max: Int64)
    requires Sendable(m, max)
    ensures |Encode(m)| < TWO64
  {
  }

  /** Reading back a stream of sendable messages gives them all, in order, with nothing left over. */
  lemma {:induction false} StreamRoundTrip(ms: seq<Message>, max: Int64)
    requires forall i :: 0 <= i < |ms| ==> Sendable(ms[i], max)
    ensures ReceiveMany(WireAll(ms), |ms|, max) == (Received(ms), [])
  {
    hide Encode, Decode, Wire, Receive, Sendable;
    if ms != [] {
      SendableFits(ms[0], max);
      ReceiveSentIff(ms[0], WireAll(ms[1..]), max);
      StreamRoundTrip(ms[1..], max);
      assert Received(ms) == [Ok(ms[0])] + Received(ms[1..]);
    }
  }

  /** A message cut short is never received. */
  lemma NoPartialMessage(m: Message, k: nat, max: Int64)
    requires |Encode(m)| < TWO64 && k < |Wire(m)|
    ensures Receive(Wire(m)[..k], max).0.Err?
  {
    hide Encode, Decode, FromBigEndian;
    WireLength(m, []);
    assert Wire(m) + [] == Wire(m);
    if k >= 8 {
      assert Wire(m)[..k][..8] == Wire(m)[..8];
    }
  }
}
