/**
 Random addresses inside a prefix, internal/ipgen/ipgen.go. Bytes are bit vectors, random
 bytes are arguments. The byte and bit loops of the source are proved equal to arithmetic on
 the 128-bit value of an address, and from that every address of a prefix is equally likely.
 */
module IPGen {

  import opened Text

  type Address = a: seq<bv8> | |a| == 16 witness [0, 0, 0, 0, 0, 0, 0, 0, 0, 0, 0, 0, 0, 0, 0, 0]

  datatype Prefix = Prefix(ip: Address, bits: int)

  // ---------------------------------------------------------------- numbers and bits

  function Pow2(n: nat): (p: nat)
    ensures 0 < p
  {
    if n == 0 then 1 else 2 * Pow2(n - 1)
  }

  // Products, quotients and remainders by repeated addition and subtraction: this keeps the
  // proofs in linear arithmetic. `DivModAreTheOperators` ties them to the built-in operators.

  function Times(q: nat, n: nat): nat {
    if q == 0 then 0 else Times(q - 1, n) + n
  }

  function Div(v: nat, n: nat): nat
    requires 0 < n
  {
    if v < n then 0 else Div(v - n, n) + 1
  }

  function Mod(v: nat, n: nat): (r: nat)
    requires 0 < n
    ensures r < n && r <= v
  {
    if v < n then v else Mod(v - n, n)
  }

  lemma {:induction false} TimesIsProduct(q: nat, n: nat)
    ensures Times(q, n) == q * n
  {
    if q > 0 { TimesIsProduct(q - 1, n); }
  }

  lemma {:induction false} DivModParts(v: nat, n: nat)
    requires 0 < n
    ensures v == Times(Div(v, n), n) + Mod(v, n)
  {
    if v >= n { DivModParts(v - n, n); }
  }

  lemma {:induction false} DivModUnique(q: nat, r: nat, n: nat)
    requires r < n
    ensures Div(Times(q, n) + r, n) == q && Mod(Times(q, n) + r, n) == r
  {
    if q > 0 {
      DivModUnique(q - 1, r, n);
      assert Times(q, n) + r - n == Times(q - 1, n) + r;
    }
  }

  lemma NoSmallMultiple(d: int, n: int)
    requires 0 < n
    ensures d * n < n && -n < d * n ==> d == 0
  {
    if d >= 1 {
      assert (d - 1) * n >= 0;
    } else if d <= -1 {
      assert (d + 1) * n <= 0;
    }
  }

  lemma QuotientIsUnique(v: int, n: int, q: int, r: int, q': int, r': int)
    requires v == q * n + r && v == q' * n + r' && 0 <= r < n && 0 <= r' < n
    ensures q == q' && r == r'
  {
    NoSmallMultiple(q - q', n);
    assert (q - q') * n == q * n - q' * n;
  }

  lemma DivModAreTheOperators(v: nat, n: nat)
    requires 0 < n
    ensures Div(v, n) == v / n && Mod(v, n) == v % n
  {
    DivModParts(v, n);
    TimesIsProduct(Div(v, n), n);
    QuotientIsUnique(v, n, Div(v, n), Mod(v, n), v / n, v % n);
  }

  lemma {:induction false} DivByOne(v: nat)
    ensures Div(v, 1) == v
  {
    if v > 0 { DivByOne(v - 1); }
  }

  lemma {:induction false} TimesDouble(q: nat, n: nat)
    ensures Times(q, 2 * n) == 2 * Times(q, n)
  {
    if q > 0 { TimesDouble(q - 1, n); }
  }

  lemma {:induction false} TimesMonotone(p: nat, q: nat, n: nat)
    requires p <= q
    ensures Times(p, n) <= Times(q, n)
  {
    if p < q { TimesMonotone(p, q - 1, n); }
  }

  lemma {:induction false} TimesOne(q: nat)
    ensures Times(q, 1) == q
  {
    if q > 0 { TimesOne(q - 1); }
  }

  lemma {:induction false} Pow2Sum(a: nat, b: nat)
    ensures Pow2(a + b) == Times(Pow2(a), Pow2(b))
  {
    if b == 0 {
      TimesOne(Pow2(a));
    } else {
      Pow2Sum(a, b - 1);
      TimesDouble(Pow2(a), Pow2(b - 1));
    }
  }

  lemma Pow2Byte(n: nat)
    ensures Pow2(n + 8) == 256 * Pow2(n)
  {
    assert Pow2(n + 2) == 4 * Pow2(n);
    assert Pow2(n + 4) == 4 * Pow2(n + 2);
    assert Pow2(n + 6) == 4 * Pow2(n + 4);
    assert Pow2(n + 8) == 4 * Pow2(n + 6);
  }

  lemma {:induction false} Pow2Monotone(a: nat, b: nat)
    requires a <= b
    ensures Pow2(a) <= Pow2(b)
  {
    if a < b { Pow2Monotone(a, b - 1); }
  }

  /** The byte with only bit m set, counted from the least significant one. */
  function OneBit(m: nat): bv8
    requires m < 8
  {
    if m == 0 then 0x01 else if m == 1 then 0x02 else if m == 2 then 0x04 else if m == 3 then 0x08
    else if m == 4 then 0x10 else if m == 5 then 0x20 else if m == 6 then 0x40 else 0x80
  }

  predicate HasBit(b: bv8, m: nat)
    requires m < 8
  {
    b & OneBit(m) != 0
  }

  function Digit(on: bool): nat { if on then 1 else 0 }

  /** Bit m of a byte as a number: shift m times, then look at the last bit. */
  function Bit(b: bv8, m: nat): (r: nat)
    requires m < 8
    ensures r <= 1
    decreases m
  {
    if m == 0 then Digit(b & 1 != 0) else Bit(b >> 1, m - 1)
  }

  lemma ShiftBit(b: bv8, m: nat)
    requires 0 < m < 8
    ensures HasBit(b >> 1, m - 1) == HasBit(b, m)
  {
  }

  lemma {:induction false} BitIsHasBit(b: bv8, m: nat)
    requires m < 8
    ensures Bit(b, m) == Digit(HasBit(b, m))
    decreases m
  {
    if m > 0 {
      BitIsHasBit(b >> 1, m - 1);
      ShiftBit(b, m);
    }
  }

  /** The big-endian number of the first n bytes. */
  function ValueTo(bs: seq<bv8>, n: nat): nat
    requires n <= |bs|
  {
    if n == 0 then 0 else 256 * ValueTo(bs, n - 1) + bs[n - 1] as nat
  }

  /** The big-endian number that a byte string denotes. */
  function Value(bs: seq<bv8>): nat { ValueTo(bs, |bs|) }

  /** Bit i of a byte string, counted from the most significant one. */
  function BitAt(bs: seq<bv8>, i: nat): (r: nat)
    requires i < 8 * |bs|
    ensures r <= 1
  {
    Bit(bs[i / 8], 7 - i % 8)
  }

  /** The number that the bits from i up to j denote. */
  function Range(bs: seq<bv8>, i: nat, j: nat): nat
    requires i <= j <= 8 * |bs|
    decreases |bs|, j
  {
    if i == j then 0 else 2 * Range(bs, i, j - 1) + BitAt(bs, j - 1)
  }

  lemma {:induction false} RangeBound(bs: seq<bv8>, i: nat, j: nat)
    requires i <= j <= 8 * |bs|
    ensures Range(bs, i, j) < Pow2(j - i)
    decreases j
  {
    if i < j { RangeBound(bs, i, j - 1); }
  }

  lemma {:induction false} RangeSplit(bs: seq<bv8>, i: nat, k: nat, j: nat)
    requires i <= k <= j <= 8 * |bs|
    ensures Range(bs, i, j) == Times(Range(bs, i, k), Pow2(j - k)) + Range(bs, k, j)
    decreases j
  {
    if k == j {
      TimesOne(Range(bs, i, k));
    } else {
      var q, n := Range(bs, i, k), Pow2(j - 1 - k);
      RangeSplit(bs, i, k, j - 1);
      TimesDouble(q, n);
      assert Pow2(j - k) == 2 * n;
      assert Range(bs, i, j - 1) == Times(q, n) + Range(bs, k, j - 1);
    }
  }

  lemma HalveByte(b: bv8)
    ensures b as nat == 2 * ((b >> 1) as nat) + Digit(b & 1 != 0)
  {
  }

  /** The last n bits of a byte as a number. */
  function LowBits(b: bv8, n: nat): nat
    requires n <= 8
    decreases n
  {
    if n == 0 then 0 else 2 * LowBits(b >> 1, n - 1) + Digit(b & 1 != 0)
  }

  lemma {:induction false} LowBitsVal(b: bv8, n: nat)
    requires n <= 8 && b as nat < Pow2(n)
    ensures LowBits(b, n) == b as nat
    decreases n
  {
    if n > 0 {
      HalveByte(b);
      LowBitsVal(b >> 1, n - 1);
    }
  }

  /** n bits of a byte, the last of them bit m, as a number. */
  function BitsDownTo(b: bv8, n: nat, m: nat): nat
    requires n + m <= 8
    decreases n
  {
    if n == 0 then 0 else 2 * BitsDownTo(b, n - 1, m + 1) + Bit(b, m)
  }

  lemma {:induction false} ShiftedBits(b: bv8, n: nat, m: nat)
    requires 0 < m && n + m <= 8
    ensures BitsDownTo(b, n, m) == BitsDownTo(b >> 1, n, m - 1)
    decreases n
  {
    if n > 0 { ShiftedBits(b, n - 1, m + 1); }
  }

  lemma {:induction false} LowBitsAreBits(b: bv8, n: nat)
    requires n <= 8
    ensures LowBits(b, n) == BitsDownTo(b, n, 0)
    decreases n
  {
    if n > 0 {
      LowBitsAreBits(b >> 1, n - 1);
      ShiftedBits(b, n - 1, 1);
    }
  }

  lemma BitOfByte(k: nat, j: nat)
    requires j < 8
    ensures (8 * k + j) / 8 == k && (8 * k + j) % 8 == j
  {
  }

  lemma {:induction false} RangeInByte(bs: seq<bv8>, k: nat, n: nat)
    requires k < |bs| && n <= 8
    ensures Range(bs, 8 * k, 8 * k + n) == BitsDownTo(bs[k], n, 8 - n)
    decreases n
  {
    if n > 0 {
      RangeInByte(bs, k, n - 1);
      BitOfByte(k, n - 1);
    }
  }

  lemma ByteRange(bs: seq<bv8>, k: nat)
    requires k < |bs|
    ensures Range(bs, 8 * k, 8 * k + 8) == bs[k] as nat
  {
    Pow2Byte(0);
    RangeInByte(bs, k, 8);
    LowBitsAreBits(bs[k], 8);
    LowBitsVal(bs[k], 8);
  }

  lemma {:induction false} ValueIsRange(bs: seq<bv8>, n: nat)
    requires n <= |bs|
    ensures ValueTo(bs, n) == Range(bs, 0, 8 * n)
  {
    if n > 0 {
      ValueIsRange(bs, n - 1);
      ByteRange(bs, n - 1);
      RangeSplit(bs, 0, 8 * n - 8, 8 * n);
      Pow2Byte(0);
      TimesIsProduct(Range(bs, 0, 8 * n - 8), 256);
    }
  }

  /** Splitting a number at a bit: the low part is the remainder, the high part the quotient. */
  lemma SplitValue(bs: seq<bv8>, k: nat, n: nat)
    requires k <= 8 * |bs| && n == Pow2(8 * |bs| - k)
    ensures Value(bs) == Times(Range(bs, 0, k), n) + Range(bs, k, 8 * |bs|)
    ensures Mod(Value(bs), n) == Range(bs, k, 8 * |bs|)
  {
    ValueIsRange(bs, |bs|);
    RangeSplit(bs, 0, k, 8 * |bs|);
    RangeBound(bs, k, 8 * |bs|);
    DivModUnique(Range(bs, 0, k), Range(bs, k, 8 * |bs|), n);
  }

  // ---------------------------------------------------------------- masking

  /** The value of the first `bits` bits of an address, followed by zeros. */
  function Masked(v: nat, bits: nat): nat
    requires bits <= 128
  {
    v - Mod(v, Pow2(128 - bits))
  }

  lemma ShiftIsOneBit(k: nat)
    requires k < 8
    ensures (1 as bv8) << k == OneBit(k)
  {
    if k == 0 {} else if k == 1 {} else if k == 2 {} else if k == 3 {}
    else if k == 4 {} else if k == 5 {} else if k == 6 {} else {}
  }

  lemma ClearHasBit(b: bv8, k: nat, m: nat)
    requires k < 8 && m < 8
    ensures HasBit(b & !OneBit(k), m) == (m != k && HasBit(b, m))
  {
  }

  lemma ClearBit(b: bv8, k: nat, m: nat)
    requires k < 8 && m < 8
    ensures Bit(b & !OneBit(k), m) == if m == k then 0 else Bit(b, m)
  {
    ClearHasBit(b, k, m);
    BitIsHasBit(b & !OneBit(k), m);
    BitIsHasBit(b, m);
  }

  lemma ClearBits(b: bv8, k: nat)
    requires k < 8
    ensures forall m: nat | m < 8 :: Bit(b & !OneBit(k), m) == if m == k then 0 else Bit(b, m)
  {
    forall m: nat | m < 8 ensures Bit(b & !OneBit(k), m) == if m == k then 0 else Bit(b, m) { ClearBit(b, k, m); }
  }

  /** The byte whose bits from rem on are set. */
  function HighBits(rem: nat): bv8
    requires 0 < rem < 8
  {
    if rem == 1 then 0xFE else if rem == 2 then 0xFC else if rem == 3 then 0xF8 else if rem == 4 then 0xF0
    else if rem == 5 then 0xE0 else if rem == 6 then 0xC0 else 0x80
  }

  lemma ShiftIsHighBits(rem: nat)
    requires 0 < rem < 8
    ensures (0xFF as bv8) << rem == HighBits(rem)
  {
    if rem == 1 {} else if rem == 2 {} else if rem == 3 {} else if rem == 4 {}
    else if rem == 5 {} else if rem == 6 {} else {}
  }

  function Blend(a: bv8, b: bv8, mask: bv8): bv8 { (a & mask) | (b & !mask) }

  lemma BlendHasBit(a: bv8, b: bv8, rem: nat, m: nat)
    requires 0 < rem < 8 && m < 8
    ensures HasBit(Blend(a, b, HighBits(rem)), m) == if m >= rem then HasBit(a, m) else HasBit(b, m)
  {
  }

  lemma BlendBits(a: bv8, b: bv8, rem: nat, m: nat)
    requires 0 < rem < 8 && m < 8
    ensures Bit(Blend(a, b, HighBits(rem)), m) == if m >= rem then Bit(a, m) else Bit(b, m)
  {
    BlendHasBit(a, b, rem, m);
    BitIsHasBit(Blend(a, b, HighBits(rem)), m);
    BitIsHasBit(a, m);
    BitIsHasBit(b, m);
  }

  /** Which bit of which byte is bit j of the address. */
  lemma BitPosition(j: nat)
    requires j < 128
    ensures j / 8 < 16 && 7 - j % 8 >= 0 && j == 8 * (j / 8) + 7 - (7 - j % 8)
  {
  }

  /** The bits from `bits` up to i are cleared, the others are as they were. */
  predicate MaskedTo(ip: Address, out: seq<bv8>, bits: nat, i: nat) {
    |out| == 16 &&
    forall b: nat, m: nat | b < 16 && m < 8 ::
      Bit(out[b], m) == if bits <= 8 * b + 7 - m < i then 0 else Bit(ip[b], m)
  }

  lemma {:induction false} MaskedFront(a: Address, r: Address, bits: nat, n: nat)
    requires n <= bits <= 128 && MaskedTo(a, r, bits, 128)
    ensures Range(r, 0, n) == Range(a, 0, n)
  {
    if n > 0 {
      MaskedFront(a, r, bits, n - 1);
      BitPosition(n - 1);
    }
  }

  lemma {:induction false} MaskedBack(a: Address, r: Address, bits: nat, n: nat)
    requires bits <= n <= 128 && MaskedTo(a, r, bits, 128)
    ensures Range(r, bits, n) == 0
  {
    if n > bits {
      MaskedBack(a, r, bits, n - 1);
      BitPosition(n - 1);
    }
  }

  lemma MaskedValue(a: Address, r: Address, bits: nat)
    requires bits <= 128 && Range(r, 0, bits) == Range(a, 0, bits) && Range(r, bits, 8 * |r|) == 0
    ensures Value(r) == Masked(Value(a), bits)
  {
    var n := Pow2(128 - bits);
    SplitValue(a, bits, n);
    SplitValue(r, bits, n);
  }

  lemma MaskedBytes(a: Address, r: Address, bits: nat)
    requires bits <= 128 && MaskedTo(a, r, bits, 128)
    ensures Value(r) == Masked(Value(a), bits)
  {
    MaskedFront(a, r, bits, bits);
    MaskedBack(a, r, bits, 128);
    MaskedValue(a, r, bits);
  }

  lemma MaskStep(ip: Address, out: seq<bv8>, bits: nat, byteIdx: nat, bitIdx: nat)
    requires byteIdx < 16 && bitIdx < 8 && bits <= 8 * byteIdx + 7 - bitIdx
    requires MaskedTo(ip, out, bits, 8 * byteIdx + 7 - bitIdx)
    ensures MaskedTo(ip, out[byteIdx := out[byteIdx] & !((1 as bv8) << bitIdx)], bits, 8 * byteIdx + 8 - bitIdx)
  {
    ShiftIsOneBit(bitIdx);
    ClearBits(out[byteIdx], bitIdx);
  }

  method MaskPrefix(ip: Address, bits: nat) returns (r: Address)
    ensures bits >= 128 ==> r == ip
    ensures bits <= 128 ==> Value(r) == Masked(Value(ip), bits)
  {
    if bits >= 128 {
      assert Pow2(0) == 1;
      return ip;
    }
    var out := ip;
    for i := bits to 128
      invariant MaskedTo(ip, out, bits, i)
    {
      var byteIdx, bitIdx := i / 8, 7 - i % 8;
      MaskStep(ip, out, bits, byteIdx, bitIdx);
      out := out[byteIdx := out[byteIdx] & !((1 as bv8) << bitIdx)];
    }
    MaskedBytes(ip, out, bits);
    return out;
  }

  // ---------------------------------------------------------------- random addresses

  function HostBytes(bits: int): nat
    requires 0 <= bits <= 128
  {
    (128 - bits + 7) / 8
  }

  /** The value of the address that random bytes of value r give. */
  function Drawn(prefix: nat, bits: nat, r: nat): nat
    requires bits <= 128
  {
    Masked(prefix, bits) + Mod(r, Pow2(128 - bits))
  }

  /** The bytes that Random puts together. */
  predicate PutTogether(p: Address, bits: nat, rnd: seq<bv8>, out: Address)
    requires bits < 128 && |rnd| == HostBytes(bits)
  {
    var start, rem := 16 - |rnd|, (128 - bits) % 8;
    && (forall i: nat | i < 16 && i != start :: out[i] == if i < start then p[i] else rnd[i - start])
    && out[start] == if rem == 0 then rnd[0] else Blend(p[start], rnd[0], HighBits(rem))
  }

  /** Where the host bits start: in byte 16 - HostBytes, after all but rem of its bits. */
  lemma HostStart(bits: nat)
    requires bits < 128
    ensures var start, rem := 16 - HostBytes(bits), (128 - bits) % 8;
      bits == 8 * start + if rem == 0 then 0 else 8 - rem
  {
  }

  /** Bit m of byte i of what is put together: of the prefix in front, random behind. */
  lemma PutTogetherBit(p: Address, bits: nat, rnd: seq<bv8>, out: Address, i: nat, m: nat)
    requires bits < 128 && |rnd| == HostBytes(bits) && PutTogether(p, bits, rnd, out) && i < 16 && m < 8
    ensures 8 * i + 7 - m < bits ==> Bit(out[i], m) == Bit(p[i], m)
    ensures 8 * i + 7 - m >= bits ==> 16 - |rnd| <= i && Bit(out[i], m) == Bit(rnd[i - (16 - |rnd|)], m)
  {
    var start, rem := 16 - |rnd|, (128 - bits) % 8;
    HostStart(bits);
    if i == start && rem != 0 { BlendBits(p[start], rnd[0], rem, m); }
  }

  lemma {:induction false} FrontRange(p: Address, bits: nat, rnd: seq<bv8>, out: Address, n: nat)
    requires n <= bits < 128 && |rnd| == HostBytes(bits) && PutTogether(p, bits, rnd, out)
    ensures Range(out, 0, n) == Range(p, 0, n)
  {
    if n > 0 {
      FrontRange(p, bits, rnd, out, n - 1);
      BitPosition(n - 1);
      PutTogetherBit(p, bits, rnd, out, (n - 1) / 8, 7 - (n - 1) % 8);
    }
  }

  lemma SameBitOfByte(j: nat, start: nat)
    requires 8 * start <= j
    ensures (j - 8 * start) / 8 == j / 8 - start && (j - 8 * start) % 8 == j % 8
  {
  }

  lemma BackBit(p: Address, bits: nat, rnd: seq<bv8>, out: Address, j: nat)
    requires bits <= j < 128 && |rnd| == HostBytes(bits) && PutTogether(p, bits, rnd, out)
    ensures 0 <= j - 8 * (16 - |rnd|) < 8 * |rnd|
    ensures BitAt(out, j) == BitAt(rnd, j - 8 * (16 - |rnd|))
  {
    BitPosition(j);
    PutTogetherBit(p, bits, rnd, out, j / 8, 7 - j % 8);
    SameBitOfByte(j, 16 - |rnd|);
  }

  lemma {:induction false} BackRange(p: Address, bits: nat, rnd: seq<bv8>, out: Address, skip: nat, n: nat)
    requires bits + n <= 128 && bits < 128 && |rnd| == HostBytes(bits) && PutTogether(p, bits, rnd, out)
    requires skip == 8 * |rnd| - (128 - bits)
    ensures Range(out, bits, bits + n) == Range(rnd, skip, skip + n)
  {
    if n > 0 {
      BackRange(p, bits, rnd, out, skip, n - 1);
      BackBit(p, bits, rnd, out, bits + n - 1);
    }
  }

  lemma DrawnValue(p: Address, bits: nat, rnd: seq<bv8>, out: Address, skip: nat)
    requires bits < 128 && skip <= 8 * |rnd| && 8 * |rnd| - skip == 128 - bits
    requires Range(out, 0, bits) == Range(p, 0, bits)
    requires Range(out, bits, 8 * |out|) == Range(rnd, skip, 8 * |rnd|)
    ensures Value(out) == Drawn(Value(p), bits, Value(rnd))
  {
    var n := Pow2(128 - bits);
    SplitValue(p, bits, n);
    SplitValue(out, bits, n);
    SplitValue(rnd, skip, n);
  }

  lemma PutTogetherDraws(p: Address, bits: nat, rnd: seq<bv8>, out: Address)
    requires bits < 128 && |rnd| == HostBytes(bits) && PutTogether(p, bits, rnd, out)
    ensures Value(out) == Drawn(Value(p), bits, Value(rnd))
  {
    var skip := 8 * |rnd| - (128 - bits);
    FrontRange(p, bits, rnd, out, bits);
    BackRange(p, bits, rnd, out, skip, 128 - bits);
    DrawnValue(p, bits, rnd, out, skip);
  }

  /** An address of the prefix with random host bits; None for an impossible length. */
  method Random(prefix: Address, bits: int, rnd: seq<bv8>) returns (r: Option<Address>)
    requires 0 <= bits <= 128 ==> |rnd| == HostBytes(bits)
    ensures r.Some? <==> 0 <= bits <= 128
    ensures r.Some? ==> Value(r.value) == Drawn(Value(prefix), bits, Value(rnd))
    ensures bits == 128 ==> r == Some(prefix)
  {
    if bits < 0 || bits > 128 {
      return None;
    }
    if bits == 128 {
      assert Pow2(0) == 1;
      return Some(prefix);
    }
    var hostBits := 128 - bits;
    var hostBytes := (hostBits + 7) / 8;
    var start := 16 - hostBytes;
    var out := prefix[..start] + rnd;
    var rem := hostBits % 8;
    if rem != 0 {
      var prefixMask: bv8 := 0xFF << rem;
      ShiftIsHighBits(rem);
      out := out[start := (prefix[start] & prefixMask) | (out[start] & !prefixMask)];
    }
    PutTogetherDraws(prefix, bits, rnd, out);
    return Some(out);
  }

  /** The address lies in the prefix: its first bits are those of the prefix. */
  predicate InPrefix(ip: Address, p: Prefix)
    requires 0 <= p.bits <= 128
  {
    Div(Value(ip), Pow2(128 - p.bits)) == Div(Value(p.ip), Pow2(128 - p.bits))
  }

  /** What is drawn has the prefix bits of the prefix and the host bits of the random number. */
  lemma DrawnKeepsPrefix(p: nat, bits: nat, r: nat)
    requires bits <= 128
    ensures var n := Pow2(128 - bits);
      Div(Drawn(p, bits, r), n) == Div(p, n) && Mod(Drawn(p, bits, r), n) == Mod(r, n)
  {
    var n := Pow2(128 - bits);
    DivModParts(p, n);
    DivModUnique(Div(p, n), Mod(r, n), n);
  }

  // ---------------------------------------------------------------- how often each is drawn

  lemma DoubleByte(b: bv8, on: bool)
    requires b as nat < 128
    ensures ((b << 1) | if on then 1 else 0) as nat == 2 * (b as nat) + Digit(on)
  {
  }

  predicate IsByteOf(b: bv8, k: nat) { b as nat == k }

  lemma {:induction false} ByteExists(k: nat, n: nat)
    requires k < Pow2(n) && n <= 8
    ensures exists b: bv8 :: IsByteOf(b, k)
  {
    if n == 0 {
      assert IsByteOf(0, 0);
    } else {
      ByteExists(k / 2, n - 1);
      var h: bv8 :| IsByteOf(h, k / 2);
      Pow2Monotone(n - 1, 7);
      Pow2Byte(0);
      DoubleByte(h, k % 2 == 1);
      assert IsByteOf((h << 1) | if k % 2 == 1 then 1 else 0, k);
    }
  }

  /** The byte of a number. */
  ghost function ToByte(k: nat): (b: bv8)
    requires k < 256
    ensures b as nat == k
  {
    assert Pow2(8) == 256 by { Pow2Byte(0); }
    ByteExists(k, 8);
    var b: bv8 :| IsByteOf(b, k);
    b
  }

  lemma ByteIsDetermined(a: bv8, b: bv8)
    requires a as nat == b as nat
    ensures a == b
  {
  }

  /** All byte strings of a length. */
  ghost function Strings(n: nat): set<seq<bv8>> {
    if n == 0 then {[]} else set s, k | s in Strings(n - 1) && 0 <= k < 256 :: s + [ToByte(k)]
  }

  lemma ByteHasNumber(b: bv8)
    ensures exists k | 0 <= k < 256 :: ToByte(k) == b
  {
    ByteIsDetermined(ToByte(b as nat), b);
  }

  lemma {:induction false} StringsAreAll(s: seq<bv8>, n: nat)
    ensures s in Strings(n) <==> |s| == n
  {
    if n > 0 && |s| > 0 {
      var front, b := s[..|s| - 1], s[|s| - 1];
      StringsAreAll(front, n - 1);
      ByteHasNumber(b);
      var k :| 0 <= k < 256 && ToByte(k) == b;
      assert s == front + [ToByte(k)];
      if s in Strings(n) {
        var t, j :| t in Strings(n - 1) && 0 <= j < 256 && s == t + [ToByte(j)];
        assert t == front;
      }
    }
  }

  ghost function ToBytes(v: nat, n: nat): (s: seq<bv8>)
    ensures |s| == n
  {
    if n == 0 then [] else ToBytes(v / 256, n - 1) + [ToByte(v % 256)]
  }

  lemma {:induction false} SameValueTo(a: seq<bv8>, b: seq<bv8>, n: nat)
    requires n <= |a| && n <= |b| && forall i | 0 <= i < n :: a[i] == b[i]
    ensures ValueTo(a, n) == ValueTo(b, n)
  {
    if n > 0 { SameValueTo(a, b, n - 1); }
  }

  lemma ValueSnoc(front: seq<bv8>, b: bv8)
    ensures Value(front + [b]) == 256 * Value(front) + b as nat
  {
    SameValueTo(front + [b], front, |front|);
  }

  lemma {:induction false} ValueOfBytes(v: nat, n: nat)
    requires v < Pow2(8 * n)
    ensures Value(ToBytes(v, n)) == v
  {
    if n > 0 {
      Pow2Byte(8 * (n - 1));
      ValueOfBytes(v / 256, n - 1);
      ValueSnoc(ToBytes(v / 256, n - 1), ToByte(v % 256));
    }
  }

  lemma LastByte(v: nat, b: bv8)
    ensures (256 * v + b as nat) / 256 == v && ToByte((256 * v + b as nat) % 256) == b
  {
    var k := b as nat;
    assert (256 * v + k) % 256 == k && (256 * v + k) / 256 == v;
    ByteIsDetermined(ToByte(k), b);
  }

  lemma BytesSnoc(front: seq<bv8>, b: bv8, n: nat)
    requires n == |front| && ToBytes(Value(front), n) == front
    ensures ToBytes(Value(front + [b]), n + 1) == front + [b]
  {
    ValueSnoc(front, b);
    LastByte(Value(front), b);
  }

  lemma BoundSnoc(front: seq<bv8>, b: bv8, n: nat)
    requires n == |front| && Value(front) < Pow2(8 * n)
    ensures Value(front + [b]) < Pow2(8 * (n + 1))
  {
    ValueSnoc(front, b);
    Pow2Byte(8 * n);
  }

  lemma {:induction false} BytesOfValue(s: seq<bv8>)
    ensures ToBytes(Value(s), |s|) == s && Value(s) < Pow2(8 * |s|)
  {
    if s != [] {
      var front, b := s[..|s| - 1], s[|s| - 1];
      assert s == front + [b];
      BytesOfValue(front);
      BytesSnoc(front, b, |front|);
      BoundSnoc(front, b, |front|);
    }
  }

  /** Addresses are determined by their value. */
  lemma ValueIsOwn(a: Address, b: Address)
    ensures Value(a) == Value(b) <==> a == b
  {
    BytesOfValue(a);
    BytesOfValue(b);
  }

  /** The byte strings whose value leaves a given remainder. */
  ghost function Residue(len: nat, n: nat, i: nat): set<seq<bv8>>
    requires 0 < n
  {
    set s | s in Strings(len) && Mod(Value(s), n) == i
  }

  /** The first k of them, by increasing value. */
  ghost function Multiples(len: nat, n: nat, i: nat, k: nat): set<seq<bv8>> {
    if k == 0 then {} else Multiples(len, n, i, k - 1) + {ToBytes(Times(k - 1, n) + i, len)}
  }

  /** The first k values with remainder i fit into len bytes. */
  predicate Fit(len: nat, n: nat, i: nat, k: nat) {
    k > 0 ==> Times(k - 1, n) + i < Pow2(8 * len)
  }

  lemma FitFewer(len: nat, n: nat, i: nat, k: nat)
    requires k > 0 && Fit(len, n, i, k)
    ensures Fit(len, n, i, k - 1)
  {
  }

  /** A value with remainder i is below k * n exactly when it is one of the first k. */
  lemma OneOfFirst(v: nat, n: nat, i: nat, k: nat)
    requires i < n && 0 < k
    ensures Mod(v, n) == i && v < Times(k, n)
      <==> (Mod(v, n) == i && v < Times(k - 1, n)) || v == Times(k - 1, n) + i
  {
    DivModParts(v, n);
    DivModUnique(k - 1, i, n);
    if Div(v, n) < k - 1 {
      TimesMonotone(Div(v, n) + 1, k - 1, n);
    } else if Div(v, n) > k - 1 {
      TimesMonotone(k, Div(v, n), n);
    }
  }

  lemma BytesIff(s: seq<bv8>, v: nat, len: nat)
    requires v < Pow2(8 * len)
    ensures s == ToBytes(v, len) <==> |s| == len && Value(s) == v
  {
    ValueOfBytes(v, len);
    BytesOfValue(s);
  }

  lemma MultiplesStep(len: nat, n: nat, i: nat, k: nat, s: seq<bv8>)
    requires 0 < k
    ensures s in Multiples(len, n, i, k) <==> s in Multiples(len, n, i, k - 1) || s == ToBytes(Times(k - 1, n) + i, len)
  {
  }

  lemma OneMoreFits(len: nat, n: nat, i: nat, k: nat, s: seq<bv8>)
    requires i < n && 0 < k && Fit(len, n, i, k)
    ensures |s| == len && Mod(Value(s), n) == i && Value(s) < Times(k, n)
      <==> (|s| == len && Mod(Value(s), n) == i && Value(s) < Times(k - 1, n)) || s == ToBytes(Times(k - 1, n) + i, len)
  {
    BytesIff(s, Times(k - 1, n) + i, len);
    OneOfFirst(Value(s), n, i, k);
    DivModUnique(k - 1, i, n);
  }

  lemma {:induction false} MultiplesMembers(len: nat, n: nat, i: nat, k: nat, s: seq<bv8>)
    requires i < n && Fit(len, n, i, k)
    ensures s in Multiples(len, n, i, k) <==> |s| == len && Mod(Value(s), n) == i && Value(s) < Times(k, n)
  {
    if k > 0 {
      MultiplesMembers(len, n, i, k - 1, s);
      MultiplesStep(len, n, i, k, s);
      OneMoreFits(len, n, i, k, s);
    }
  }

  lemma {:induction false} MultiplesCount(len: nat, n: nat, i: nat, k: nat)
    requires i < n && Fit(len, n, i, k)
    ensures |Multiples(len, n, i, k)| == k
  {
    if k > 0 {
      var s := ToBytes(Times(k - 1, n) + i, len);
      FitFewer(len, n, i, k);
      MultiplesCount(len, n, i, k - 1);
      assert s !in Multiples(len, n, i, k - 1) by {
        MultiplesMembers(len, n, i, k - 1, s);
        ValueOfBytes(Times(k - 1, n) + i, len);
      }
    }
  }

  /** How many values below `total` leave remainder i. */
  function RemainderCount(total: nat, n: nat, i: nat): nat
    requires 0 < n
  {
    Div(total, n) + if i < Mod(total, n) then 1 else 0
  }

  /** A value below the total with remainder i is one of the first ones, and those all fit. */
  lemma RemainderRange(total: nat, n: nat, i: nat)
    requires i < n
    ensures var k := RemainderCount(total, n, i);
      && (k > 0 ==> Times(k - 1, n) + i < total)
      && forall v: nat | v < total && Mod(v, n) == i :: v < Times(k, n)
  {
    var k, q := RemainderCount(total, n, i), Div(total, n);
    DivModParts(total, n);
    forall v: nat | v < total && Mod(v, n) == i ensures v < Times(k, n) {
      DivModParts(v, n);
      if Div(v, n) >= k {
        TimesMonotone(k, Div(v, n), n);
        if Div(v, n) > q { TimesMonotone(q + 1, Div(v, n), n); }
      } else {
        TimesMonotone(Div(v, n) + 1, k, n);
      }
    }
  }

  /** How many byte strings leave remainder i: the quotient, and one more for small i. */
  lemma ResidueCount(len: nat, n: nat, i: nat)
    requires i < n
    ensures |Residue(len, n, i)| == RemainderCount(Pow2(8 * len), n, i)
  {
    var k := RemainderCount(Pow2(8 * len), n, i);
    RemainderRange(Pow2(8 * len), n, i);
    forall s ensures s in Residue(len, n, i) <==> s in Multiples(len, n, i, k) {
      MultiplesMembers(len, n, i, k, s);
      StringsAreAll(s, len);
      BytesOfValue(s);
    }
    assert Residue(len, n, i) == Multiples(len, n, i, k);
    MultiplesCount(len, n, i, k);
  }

  /** The random byte strings that give a particular address. */
  ghost function Fibre(p: Address, bits: nat, a: Address): set<seq<bv8>>
    requires bits <= 128
  {
    set s | s in Strings(HostBytes(bits)) && Drawn(Value(p), bits, Value(s)) == Value(a)
  }

  lemma SameAddress(p: nat, bits: nat, r: nat, a: nat)
    requires bits <= 128 && Div(a, Pow2(128 - bits)) == Div(p, Pow2(128 - bits))
    ensures Drawn(p, bits, r) == a <==> Mod(r, Pow2(128 - bits)) == Mod(a, Pow2(128 - bits))
  {
    var n := Pow2(128 - bits);
    DrawnKeepsPrefix(p, bits, r);
    DivModParts(a, n);
    DivModParts(Drawn(p, bits, r), n);
  }

  lemma FibreIsResidue(p: Address, bits: nat, a: Address)
    requires bits <= 128 && InPrefix(a, Prefix(p, bits))
    ensures var n := Pow2(128 - bits); Fibre(p, bits, a) == Residue(HostBytes(bits), n, Mod(Value(a), n))
  {
    var n := Pow2(128 - bits);
    forall s ensures s in Fibre(p, bits, a) <==> s in Residue(HostBytes(bits), n, Mod(Value(a), n)) {
      SameAddress(Value(p), bits, Value(s), Value(a));
    }
  }

  lemma EvenCount(total: nat, h: nat, c: nat)
    requires h <= total && c < Pow2(h)
    ensures RemainderCount(Pow2(total), Pow2(h), c) == Pow2(total - h)
  {
    Pow2Sum(total - h, h);
    DivModUnique(Pow2(total - h), 0, Pow2(h));
  }

  /** Every address of the prefix is drawn by the same number of byte strings, and no address
      outside of it by any: with uniform bytes the draw is uniform. */
  lemma DrawIsUniform(p: Address, bits: nat, a: Address)
    requires bits <= 128
    ensures |Fibre(p, bits, a)| ==
      if InPrefix(a, Prefix(p, bits)) then Pow2(8 * HostBytes(bits) - (128 - bits)) else 0
  {
    var n := Pow2(128 - bits);
    if InPrefix(a, Prefix(p, bits)) {
      FibreIsResidue(p, bits, a);
      ResidueCount(HostBytes(bits), n, Mod(Value(a), n));
      EvenCount(8 * HostBytes(bits), 128 - bits, Mod(Value(a), n));
    } else {
      forall s ensures s !in Fibre(p, bits, a) { DrawnKeepsPrefix(Value(p), bits, Value(s)); }
      assert Fibre(p, bits, a) == {};
    }
  }

  // ---------------------------------------------------------------- choosing a prefix

  lemma Pow2Of64()
    ensures Pow2(64) == 0x1_0000_0000_0000_0000
  {
    Pow2Byte(0);
    Pow2Byte(8);
    Pow2Byte(16);
    Pow2Byte(24);
    Pow2Byte(32);
    Pow2Byte(40);
    Pow2Byte(48);
    Pow2Byte(56);
  }

  lemma ShiftFits(v: nat, i: nat)
    requires v < Pow2(8 * i) && i < 8
    ensures v * 256 % 0x1_0000_0000_0000_0000 == v * 256
  {
    Pow2Byte(8 * i);
    Pow2Monotone(8 * i + 8, 64);
    Pow2Of64();
  }

  /** The choice among n: None for none, the first of one without drawing, else a remainder. */
  method RandInt(n: int, b: seq<bv8>) returns (r: Option<nat>)
    requires |b| == 8
    ensures r.None? <==> n <= 0
    ensures n > 0 ==> r == Some(Mod(Value(b), n))
  {
    if n <= 0 {
      return None;
    }
    if n == 1 {
      assert Mod(Value(b), 1) == 0;
      return Some(0);
    }
    var v: nat := 0;
    for i := 0 to |b|
      invariant v == ValueTo(b, i) && v < Pow2(8 * i)
    {
      ShiftFits(v, i);
      Pow2Byte(8 * i);
      v := v * 256 % 0x1_0000_0000_0000_0000 + b[i] as nat;   // (v << 8) | x on 64 bits
    }
    DivModAreTheOperators(v, n);
    return Some(v % n);
  }

  /** The source says a prefix is picked uniformly. Each index is drawn by as many of the 2^64
      byte strings as any other if and only if the number of prefixes divides 2^64. */
  lemma PrefixChoiceIsUniformIff(n: nat)
    requires 0 < n
    ensures (forall i, j | 0 <= i < n && 0 <= j < n :: |Residue(8, n, i)| == |Residue(8, n, j)|)
      <==> 0x1_0000_0000_0000_0000 % n == 0
  {
    Pow2Of64();
    forall i | 0 <= i < n
      ensures |Residue(8, n, i)| == RemainderCount(Pow2(64), n, i)
    {
      ResidueCount(8, n, i);
    }
    DivModAreTheOperators(Pow2(64), n);
    if Mod(Pow2(64), n) != 0 {
      assert |Residue(8, n, 0)| != |Residue(8, n, n - 1)|;
    }
  }

  /** Three prefixes already are not picked uniformly: the first has one byte string more. */
  lemma ThreePrefixesAreNotUniform()
    ensures |Residue(8, 3, 0)| == |Residue(8, 3, 1)| + 1
  {
    Pow2Of64();
    ResidueCount(8, 3, 0);
    ResidueCount(8, 3, 1);
    DivModAreTheOperators(Pow2(64), 3);
  }

  method RandomFrom(prefixes: seq<Prefix>, choice: seq<bv8>, rnd: seq<bv8>) returns (r: Option<(Address, Prefix)>)
    requires |choice| == 8 && |rnd| == 16
    ensures prefixes == [] ==> r.None?
    ensures r.Some? ==> r.value.1 in prefixes && 0 <= r.value.1.bits <= 128 && InPrefix(r.value.0, r.value.1)
    ensures prefixes != [] ==>
      var p := prefixes[Mod(Value(choice), |prefixes|)];
      && (r.Some? <==> 0 <= p.bits <= 128)
      && (r.Some? ==> r.value.1 == p && Value(r.value.0) == Drawn(Value(p.ip), p.bits, Value(rnd[..HostBytes(p.bits)])))
  {
    if |prefixes| == 0 {
      return None;
    }
    var idx := RandInt(|prefixes|, choice);
    var p := prefixes[idx.value];
    if p.bits < 0 || p.bits > 128 {
      return None;
    }
    var ip := Random(p.ip, p.bits, rnd[..HostBytes(p.bits)]);
    DrawnKeepsPrefix(Value(p.ip), p.bits, Value(rnd[..HostBytes(p.bits)]));
    return Some((ip.value, p));
  }
}
