/** The primitives of the protocol buffers wire format: base-128 varints with
    their fast decoder and size formula, little-endian words, packed varints,
    and the UTF-8 check of section 4 of RFC 3629. */
module WireFormat {
  import opened Common

  type byte = b: int | 0 <= b < 256
  type uint32 = x: int | 0 <= x < 0x1_0000_0000
  type uint64 = x: int | 0 <= x < 0x1_0000_0000_0000_0000

  const TWO_32 := 0x1_0000_0000

  const INT_MAX := 0x7FFF_FFFF
  const SLOP_BYTES := 16

  /** The longest payload a length prefix may announce. */
  const MAX_SIZE := INT_MAX - SLOP_BYTES

  const MAX_VARINT_BYTES := 10
  const MAX_TAG_BYTES := 5

  datatype Read<+T> = Got(value: T, rest: seq<byte>) | Bad

  // ---------------------------------------------------------------------
  // Varints.

  function EncodeVarint(v: nat): (r: seq<byte>)
    ensures r != []
  {
    if v < 128 then [v] else [128 + v % 128] + EncodeVarint(v / 128)
  }

  /** A varint of at most n bytes at the front of data. */
  function Varint(data: seq<byte>, n: nat): (r: Read<nat>)
    ensures r.Got? ==> |r.rest| < |data|
  {
    if data == [] || n == 0 then Bad
    else if data[0] < 128 then Got(data[0], data[1..])
    else
      match Varint(data[1..], n - 1)
      case Got(v, rest) => Got(data[0] - 128 + 128 * v, rest)
      case Bad => Bad
  }

  lemma {:induction false} VarintLeavesSuffix(data: seq<byte>, n: nat)
    requires Varint(data, n).Got?
    ensures Varint(data, n).rest == data[|data| - |Varint(data, n).rest|..]
  {
    if data[0] >= 128 {
      VarintLeavesSuffix(data[1..], n - 1);
    }
  }

  function Pow128(k: nat): (p: nat)
    ensures p > 0
  {
    if k == 0 then 1 else 128 * Pow128(k - 1)
  }

  /** Decoding undoes encoding, whatever follows, if and only if the value fits
      into the bytes allowed. */
  lemma {:induction false} VarintRoundTrip(v: nat, rest: seq<byte>, n: nat)
    requires v > 0 || n > 0
    ensures Varint(EncodeVarint(v) + rest, n) == if v < Pow128(n) then Got(v, rest) else Bad
  {
    var data := EncodeVarint(v) + rest;
    if n > 0 {
      Pow128Grows(n);
      if v < 128 {
        assert data[1..] == rest;
      } else {
        assert data[0] == 128 + v % 128 && data[1..] == EncodeVarint(v / 128) + rest;
        VarintRoundTrip(v / 128, rest, n - 1);
        assert v / 128 < Pow128(n - 1) <==> v < 128 * Pow128(n - 1);
      }
    }
  }

  lemma {:induction false} Pow128Order(i: nat, n: nat)
    requires i <= n
    ensures Pow128(i) <= Pow128(n)
  {
    if i < n {
      Pow128Order(i, n - 1);
    }
  }

  lemma {:induction false} Pow128Grows(n: nat)
    requires n > 0
    ensures Pow128(n) >= 128
  {
    if n > 1 {
      Pow128Grows(n - 1);
    }
  }

  function ReadVarint64(data: seq<byte>): (r: Read<uint64>)
    ensures r.Got? ==> |r.rest| < |data|
  {
    match Varint(data, MAX_VARINT_BYTES)
    case Got(v, rest) => Got(v % TWO_64, rest)
    case Bad => Bad
  }

  function ReadVarint32(data: seq<byte>): (r: Read<uint32>)
    ensures r.Got? ==> |r.rest| < |data|
  {
    match Varint(data, MAX_VARINT_BYTES)
    case Got(v, rest) => Got(v % TWO_32, rest)
    case Bad => Bad
  }

  function ReadTag(data: seq<byte>): (r: Read<uint32>)
    ensures r.Got? ==> |r.rest| < |data|
  {
    match Varint(data, MAX_TAG_BYTES)
    case Got(v, rest) => Got(v % TWO_32, rest)
    case Bad => Bad
  }

  /** A length prefix, refused when it could overflow the parser's limits. */
  function ReadSize(data: seq<byte>): (r: Read<nat>)
    ensures r.Got? ==> |r.rest| < |data|
  {
    match Varint(data, MAX_TAG_BYTES)
    case Got(v, rest) => if v <= MAX_SIZE then Got(v, rest) else Bad
    case Bad => Bad
  }

  lemma Pow128Values()
    ensures Pow128(4) == 0x1000_0000
    ensures Pow128(MAX_TAG_BYTES) == 0x8_0000_0000
    ensures Pow128(MAX_VARINT_BYTES) > TWO_64
  {
    assert Pow128(1) == 128;
    assert Pow128(2) == 0x4000;
    assert Pow128(3) == 0x20_0000;
    assert Pow128(4) == 0x1000_0000;
    assert Pow128(5) == 0x8_0000_0000;
    assert Pow128(6) == 128 * Pow128(5);
    assert Pow128(7) == 128 * Pow128(6);
    assert Pow128(8) == 128 * Pow128(7);
    assert Pow128(9) == 128 * Pow128(8);
    assert Pow128(10) == 128 * Pow128(9);
  }

  /** Ten bytes are enough for every 64-bit value. */
  lemma VarintOfWord(v: uint64, rest: seq<byte>)
    ensures Varint(EncodeVarint(v) + rest, MAX_VARINT_BYTES) == Got(v, rest)
  {
    var n := MAX_VARINT_BYTES;
    assert v < Pow128(n) by {
      Pow128Values();
    }
    VarintRoundTrip(v, rest, n);
  }

  lemma ReadVarint64Encoded(v: uint64, rest: seq<byte>)
    ensures ReadVarint64(EncodeVarint(v) + rest) == Got(v, rest)
  {
    VarintOfWord(v, rest);
    SmallMod(v, TWO_64);
  }

  lemma ReadVarint32Encoded(v: uint32, rest: seq<byte>)
    ensures ReadVarint32(EncodeVarint(v) + rest) == Got(v, rest)
  {
    VarintOfWord(v, rest);
    SmallMod(v, TWO_32);
  }

  lemma ReadSizeEncoded(v: nat, rest: seq<byte>)
    ensures ReadSize(EncodeVarint(v) + rest) == if v <= MAX_SIZE then Got(v, rest) else Bad
  {
    Pow128Values();
    VarintRoundTrip(v, rest, MAX_TAG_BYTES);
  }

  lemma ReadTagEncoded(tag: uint32, rest: seq<byte>)
    ensures ReadTag(EncodeVarint(tag) + rest) == Got(tag, rest)
  {
    Pow128Values();
    VarintRoundTrip(tag, rest, MAX_TAG_BYTES);
    SmallMod(tag, TWO_32);
  }

  lemma ReadTagOneByte(tag: byte, rest: seq<byte>)
    requires tag < 128
    ensures ReadTag([tag] + rest) == Got(tag, rest)
  {
    assert ([tag] + rest)[1..] == rest;
  }

  lemma EncodeVarintInjective(v: nat, w: nat)
    ensures EncodeVarint(v) == EncodeVarint(w) ==> v == w
  {
    if EncodeVarint(v) == EncodeVarint(w) {
      var n := v + w;
      BelowPow128(v, n);
      BelowPow128(w, n);
      VarintRoundTrip(v, [], n + 1);
      VarintRoundTrip(w, [], n + 1);
    }
  }

  lemma {:induction false} BelowPow128(v: nat, n: nat)
    requires v <= n
    ensures v < Pow128(n + 1)
  {
    if v > 0 {
      BelowPow128(v - 1, n - 1);
    } else {
      Pow128Grows(n + 1);
    }
  }

  // ---------------------------------------------------------------------
  // What the bytes mean: groups of seven bits, the lowest group first, and a continuation
  // bit on every byte but the last.

  lemma DivideTwice(v: nat, c: nat, d: nat)
    requires c > 0 && d > 0
    ensures c * d > 0 && v / c / d == v / (c * d)
  {
    Regrouped(v, c, d, v / c, v % c, v / c / d, v / c % d);
  }

  lemma Regrouped(v: nat, c: nat, d: nat, w: nat, l: nat, q: nat, r: nat)
    requires v == c * w + l && l < c && w == d * q + r && r < d
    ensures c * d > 0 && v / (c * d) == q
  {
    Multiples(c, d, q, r);
    UniqueDiv(v, c * d, q, c * r + l);
  }

  lemma Multiples(c: nat, d: nat, q: nat, r: nat)
    requires c > 0 && r < d
    ensures c * (d * q + r) == (c * d) * q + c * r && c * r + c <= c * d && c * d > 0
  {
    assert c * (r + 1) <= c * d by {
      MultipleBeyond(c, d - r);
      assert c * d == c * r + c * (d - r);
    }
  }

  lemma UniqueDiv(x: nat, d: nat, q: nat, r: nat)
    requires x == d * q + r && r < d
    ensures x / d == q
  {
    UniqueMod(x, d, q, r);
    assert x == d * (x / d) + r;
    SameProduct(d, x / d, q);
  }

  lemma SameProduct(d: nat, a: nat, b: nat)
    requires d > 0 && d * a == d * b
    ensures a == b
  {
    assert d * (a - b) == 0;
    MultipleBeyond(d, a - b);
  }

  /** Byte i of an encoding is group i of the value; the encoding has no more groups than
      the value needs. */
  lemma {:induction false} VarintPlaces(v: nat, i: nat)
    requires i < |EncodeVarint(v)|
    ensures EncodeVarint(v)[i] == v / Pow128(i) % 128 + if i + 1 < |EncodeVarint(v)| then 128 else 0
    ensures v < Pow128(|EncodeVarint(v)|) && (|EncodeVarint(v)| > 1 ==> v >= Pow128(|EncodeVarint(v)| - 1))
  {
    var n := |EncodeVarint(v)|;
    assert Pow128(1) == 128 * Pow128(0);
    if v >= 128 {
      VarintPlaces(v / 128, if i == 0 then 0 else i - 1);
      assert EncodeVarint(v) == [128 + v % 128] + EncodeVarint(v / 128);
      if i > 0 {
        DivideTwice(v, 128, Pow128(i - 1));
      }
      if n > 2 {
        assert Pow128(n - 1) == 128 * Pow128(n - 2);
      }
      assert Pow128(n) == 128 * Pow128(n - 1);
    }
  }

  /** What the lower seven bits of the first k bytes amount to. */
  ghost function PlacesTo(data: seq<byte>, k: nat): nat
    requires k <= |data|
  {
    if k == 0 then 0 else PlacesTo(data, k - 1) + data[k - 1] % 128 * Pow128(k - 1)
  }

  lemma {:induction false} PlacesShift(data: seq<byte>, k: nat)
    requires 0 < k <= |data|
    ensures PlacesTo(data, k) == data[0] % 128 + 128 * PlacesTo(data[1..], k - 1)
  {
    if k > 1 {
      PlacesShift(data, k - 1);
      var d: nat := data[k - 1] % 128;
      assert data[1..][k - 2] == data[k - 1];
      assert PlacesTo(data[1..], k - 1) == PlacesTo(data[1..], k - 2) + d * Pow128(k - 2);
      WeightGrows(d, k);
    }
  }

  lemma WeightGrows(d: nat, k: nat)
    requires k > 1
    ensures d * Pow128(k - 1) == 128 * (d * Pow128(k - 2))
  {
    TimesMore(d, Pow128(k - 2));
  }

  lemma TimesMore(d: nat, p: nat)
    ensures d * (128 * p) == 128 * (d * p)
  {
  }

  /** Byte k - 1 is the first one without a continuation bit, and among the first n. */
  ghost predicate EndsAt(data: seq<byte>, n: nat, k: nat) {
    0 < k <= n && k <= |data| && data[k - 1] < 128 && forall i :: 0 <= i < k - 1 ==> data[i] >= 128
  }

  ghost predicate EndsNowhere(data: seq<byte>, n: nat) {
    forall i :: 0 <= i < n && i < |data| ==> data[i] >= 128
  }

  lemma EndsOneLater(data: seq<byte>, n: nat, k: nat)
    requires data != [] && n > 0 && data[0] >= 128
    ensures EndsAt(data[1..], n - 1, k) ==> EndsAt(data, n, k + 1)
    ensures EndsNowhere(data[1..], n - 1) ==> EndsNowhere(data, n)
  {
    var more := data[1..];
    assert forall i :: 0 < i < |data| ==> data[i] == more[i - 1];
  }

  /** What a varint must be: the value of the groups up to where it ends. */
  ghost predicate IsVarint(data: seq<byte>, n: nat, r: Read<nat>) {
    match r
    case Bad => EndsNowhere(data, n)
    case Got(v, rest) =>
      |rest| < |data| && var k := |data| - |rest|; EndsAt(data, n, k) && rest == data[k..] && v == PlacesTo(data, k)
  }

  lemma OneByteVarint(data: seq<byte>, n: nat)
    requires data != [] && n > 0 && data[0] < 128
    ensures IsVarint(data, n, Got(data[0], data[1..]))
  {
    assert PlacesTo(data, 1) == PlacesTo(data, 0) + data[0] % 128 * Pow128(0);
  }

  lemma LongerVarint(data: seq<byte>, n: nat, v: nat, rest: seq<byte>)
    requires data != [] && n > 0 && data[0] >= 128 && IsVarint(data[1..], n - 1, Got(v, rest))
    ensures IsVarint(data, n, Got(data[0] - 128 + 128 * v, rest))
  {
    var k := |data| - |rest|;
    EndsOneLater(data, n, k - 1);
    PlacesShift(data, k);
  }

  /** Any bytes: a varint ends at the first byte without a continuation bit, which must be
      among the n bytes allowed, and its value is that of the groups up to there. */
  lemma {:induction false} VarintValue(data: seq<byte>, n: nat)
    ensures IsVarint(data, n, Varint(data, n))
  {
    if data != [] && n > 0 {
      if data[0] < 128 {
        OneByteVarint(data, n);
      } else {
        VarintValue(data[1..], n - 1);
        match Varint(data[1..], n - 1)
        case Bad => EndsOneLater(data, n, 0);
        case Got(v, rest) => LongerVarint(data, n, v, rest);
      }
    }
  }

  // ---------------------------------------------------------------------
  // The decoder does not clear continuation bits: it adds (byte - 1) << 7i, so
  // that the 1 it takes away cancels the continuation bit of the byte before.

  lemma ModOfSum(x: int, y: int, m: nat)
    requires m > 0
    ensures (x % m + y) % m == (x + y) % m
  {
    var q := x / m;
    assert x == m * q + x % m;
    ModShift(x % m + y, q, m);
  }

  lemma ModShift(x: int, q: int, m: nat)
    requires m > 0
    ensures (x + m * q) % m == x % m
  {
    var a, b := x / m, (x + m * q) / m;
    assert m * (b - a - q) == x % m - (x + m * q) % m by {
      assert x == m * a + x % m;
      assert x + m * q == m * b + (x + m * q) % m;
      assert m * (b - a - q) == m * b - m * a - m * q;
    }
    MultipleBeyond(m, b - a - q);
  }

  ghost function Prefixed(low: int, k: nat, r: Read<nat>): Read<nat> {
    match r
    case Got(v, rest) => Got(Nat(low + k * v), rest)
    case Bad => Bad
  }

  /** A varint read with an accumulator: low is what the bytes before amount to
      and k the weight of the next one. */
  ghost function Accumulated(data: seq<byte>, n: nat, low: nat, k: nat): Read<nat> {
    if data == [] || n == 0 then Bad
    else if data[0] < 128 then Got(low + k * data[0], data[1..])
    else Accumulated(data[1..], n - 1, low + k * (data[0] - 128), 128 * k)
  }

  lemma AccumulatedAt(data: seq<byte>, p: nat, n: nat, low: nat, k: nat)
    requires p < |data| && n > 0
    ensures data[p] >= 128 ==> k * (data[p] - 128) >= 0
    ensures Accumulated(data[p..], n, low, k) ==
            if data[p] < 128 then Got(low + k * data[p], data[p + 1..])
            else Accumulated(data[p + 1..], n - 1, low + k * (data[p] - 128), 128 * k)
  {
    assert data[p..][0] == data[p] && data[p..][1..] == data[p + 1..];
  }

  lemma {:induction false} AccumulatedIsVarint(data: seq<byte>, n: nat, low: nat, k: nat)
    ensures Accumulated(data, n, low, k) == Prefixed(low, k, Varint(data, n))
  {
    if data != [] && n > 0 && data[0] >= 128 {
      AccumulatedIsVarint(data[1..], n - 1, low + k * (data[0] - 128), 128 * k);
      match Varint(data[1..], n - 1)
      case Got(v, rest) => Distribute(k, data[0] - 128, v);
      case Bad =>
    }
  }

  lemma AccumulatedFromStart(data: seq<byte>, n: nat)
    ensures Accumulated(data, n, 0, 1) == Varint(data, n)
  {
    AccumulatedIsVarint(data, n, 0, 1);
    match Varint(data, n)
    case Got(v, rest) => assert 0 + 1 * v == v;
    case Bad =>
  }

  lemma Distribute(k: nat, a: int, v: nat)
    ensures k * (a + 128 * v) == k * a + (128 * k) * v
  {
  }

  function Nat(x: int): nat {
    if x < 0 then 0 else x
  }

  // ---------------------------------------------------------------------
  // The decoders at a position, which move past what they read. Reading past the
  // data is a failure.

  /** Reading at p gave this value and moved to `next`. */
  ghost predicate ReadAt<T>(data: seq<byte>, p: nat, r: Read<T>, ok: bool, value: T, next: nat) {
    match r
    case Bad => !ok
    case Got(v, rest) => ok && value == v && p < next <= |data| && rest == data[next..]
  }

  datatype Step = Ended | PastEnd | More

  /** Up to `count` bytes, accumulated modulo m; the loops of VarintParse, ReadTag and their
      fallbacks. `low` is the value without carries and `shift` the weight of the next byte. */
  method AddBytes(data: seq<byte>, p: nat, count: nat, ghost n: nat, m: nat)
      returns (step: Step, res: int, q: nat, ghost low: nat, ghost shift: nat)
    requires p <= |data| && 0 < count <= n && m > 0 && 128 < m
    ensures p <= q <= |data| && low < shift <= Pow128(count)
    ensures step == PastEnd ==> Varint(data[p..], n) == Bad
    ensures step == Ended ==> p < q && Varint(data[p..], n) == Got(low, data[q..]) && res == low % m
    ensures step == More ==> Varint(data[p..], n) == Accumulated(data[q..], n - count, low, shift)
    ensures step == More ==> Carried(res, low, shift, count, m) && shift == Pow128(count)
  {
    q, res, low, shift := p, 0, 0, 1;
    var i, weight := 0, 1;
    AccumulatedFromStart(data[p..], n);
    Pow128Order(0, count);
    while i < count
      invariant 0 <= i <= count && p <= q <= |data|
      invariant weight == shift == Pow128(i) && low < shift <= Pow128(count)
      invariant Varint(data[p..], n) == Accumulated(data[q..], n - i, low, shift)
      invariant Carried(res, low, shift, i, m)
    {
      if q == |data| {
        return PastEnd, res, q, low, shift;
      }
      var b: int := data[q];
      low := DecodeStep(data, q, n - i, low, shift, res, i, m);
      Pow128Order(i + 1, count);
      res := AddShifted(res, if i == 0 then b else b - 1, weight, m);
      q := q + 1;
      weight := 128 * weight;
      shift := weight;
      if b < 128 {
        return Ended, res, q, low, shift;
      }
      i := i + 1;
    }
    return More, res, q, low, shift;
  }

  /** VarintParse<uint64_t>. */
  method VarintParse64(data: seq<byte>, p: nat) returns (ok: bool, value: uint64, next: nat)
    requires p <= |data|
    ensures ReadAt(data, p, ReadVarint64(data[p..]), ok, value, next)
  {
    var step, res, q, low, shift := AddBytes(data, p, MAX_VARINT_BYTES, MAX_VARINT_BYTES, TWO_64);
    if step == Ended {
      return true, res, q;
    }
    return false, 0, p;
  }

  /** VarintParse<uint32_t>: the bytes behind the fifth are skipped. */
  method VarintParse32(data: seq<byte>, p: nat) returns (ok: bool, value: uint32, next: nat)
    requires p <= |data|
    ensures ReadAt(data, p, ReadVarint32(data[p..]), ok, value, next)
  {
    var step, res, q, low, shift := AddBytes(data, p, 5, MAX_VARINT_BYTES, TWO_32);
    if step == Ended {
      return true, res, q;
    } else if step == PastEnd {
      return false, 0, p;
    }
    BeyondWord(res, low, shift);
    ok, next := SkipBytes(data, q, low, shift);
    return ok, res, next;
  }

  /** The bytes five to nine of a long varint. */
  method SkipBytes(data: seq<byte>, p: nat, ghost low: nat, ghost shift: nat) returns (ok: bool, q: nat)
    requires p <= |data| && shift % TWO_32 == 0
    ensures match Accumulated(data[p..], 5, low, shift)
            case Bad => !ok
            case Got(v, rest) => ok && p < q <= |data| && rest == data[q..] && v % TWO_32 == low % TWO_32
  {
    q := p;
    var i := 5;
    ghost var sum: nat, weight: nat := low, shift;
    while i < MAX_VARINT_BYTES
      invariant 5 <= i <= MAX_VARINT_BYTES && p <= q <= |data|
      invariant Accumulated(data[p..], 5, low, shift) == Accumulated(data[q..], MAX_VARINT_BYTES - i, sum, weight)
      invariant weight % TWO_32 == 0 && sum % TWO_32 == low % TWO_32
    {
      if q == |data| {
        return false, p;
      }
      var b: int := data[q];
      AccumulatedAt(data, q, MAX_VARINT_BYTES - i, sum, weight);
      SkipByte(sum, b, weight);
      q := q + 1;
      if b < 128 {
        return true, q;
      }
      sum, weight := sum + weight * (b - 128), 128 * weight;
      i := i + 1;
    }
    return false, p;
  }

  /** ReadTag and its fallback: five bytes at most. */
  method ReadTagBytes(data: seq<byte>, p: nat) returns (ok: bool, tag: uint32, next: nat)
    requires p <= |data|
    ensures ReadAt(data, p, ReadTag(data[p..]), ok, tag, next)
  {
    var step, res, q, low, shift := AddBytes(data, p, MAX_TAG_BYTES, MAX_TAG_BYTES, TWO_32);
    if step == Ended {
      return true, res, q;
    }
    return false, 0, p;
  }

  /** ReadSize and its fallback: the fifth byte has a guard of its own, so that the size
      fits an int, and sizes close to INT_MAX are refused. */
  method ReadSizeBytes(data: seq<byte>, p: nat) returns (ok: bool, size: nat, next: nat)
    requires p <= |data|
    ensures ReadAt(data, p, ReadSize(data[p..]), ok, size, next)
  {
    var step, res, q, low, shift := AddBytes(data, p, 4, MAX_TAG_BYTES, TWO_32);
    Pow128Values();
    if step == Ended {
      SmallMod(low, TWO_32);
      return true, res, q;
    } else if step == PastEnd || q == |data| {
      return false, 0, p;
    }
    var b: int := data[q];
    AccumulatedAt(data, q, 1, low, shift);
    FifthByte(low, b, shift);
    if b >= 8 {
      return false, 0, p;
    }
    AddByte(res, low, b, shift, 4, TWO_32);
    res := AddShifted(res, b - 1, 0x1000_0000, TWO_32);
    SmallMod(low + shift * b, TWO_32);
    if res > INT_MAX - SLOP_BYTES {
      return false, 0, p;
    }
    return true, res, q + 1;
  }

  /** What a fifth byte adds, and when the size is too large. */
  lemma FifthByte(low: nat, b: int, shift: nat)
    requires shift == 0x1000_0000 && low < shift && 0 <= b
    ensures b >= 8 ==> low + shift * b > INT_MAX
    ensures b < 8 ==> low + shift * b < TWO_32
  {
  }

  /** Behind the fifth byte nothing reaches the lower 32 bits any more. */
  lemma BeyondWord(res: int, low: nat, shift: nat)
    requires Carried(res, low, shift, 5, TWO_32) && shift == Pow128(5)
    ensures shift % TWO_32 == 0 && res == low % TWO_32
  {
    Pow128Values();
    ModShift(low, 8, TWO_32);
  }

  lemma SkipByte(low: nat, b: int, shift: nat)
    requires shift % TWO_32 == 0
    ensures (low + shift * b) % TWO_32 == low % TWO_32
    ensures (low + shift * (b - 128)) % TWO_32 == low % TWO_32 && 128 * shift % TWO_32 == 0
  {
    var k := shift / TWO_32;
    TimesMultiple(low, k, b);
    TimesMultiple(low, k, b - 128);
    TimesMultiple(0, k, 128);
  }

  lemma TimesMultiple(low: nat, k: nat, b: int)
    ensures (low + (TWO_32 * k) * b) % TWO_32 == low % TWO_32
  {
    assert (TWO_32 * k) * b == TWO_32 * (k * b);
    ModShift(low, k * b, TWO_32);
  }

  /** res += byte << shift, modulo m. */
  function AddShifted(res: int, b: int, shift: nat, m: nat): (r: nat)
    requires m > 0
    ensures r < m
  {
    (res + b * shift) % m
  }

  /** After i bytes res is their value plus the carry of the last continuation bit. */
  ghost predicate Carried(res: int, low: nat, shift: nat, i: nat, m: nat)
    requires m > 0
  {
    if i == 0 then res == low == 0 && shift == 1 else res == (low + shift) % m
  }

  /** One step of the decoder: what was added for the continuation bit of the
      byte before goes away again. */
  lemma DecodeStep(data: seq<byte>, q: nat, n: nat, low: nat, shift: nat, res: int, i: nat, m: nat) returns (low': nat)
    requires q < |data| && n > 0 && m > 0 && Carried(res, low, shift, i, m) && low < shift
    ensures low' < 128 * shift
    ensures var b: int := data[q];
            var next := AddShifted(res, if i == 0 then b else b - 1, shift, m);
            if b < 128 then Accumulated(data[q..], n, low, shift) == Got(low', data[q + 1..]) && next == low' % m
            else
              && Accumulated(data[q..], n, low, shift) == Accumulated(data[q + 1..], n - 1, low', 128 * shift)
              && Carried(next, low', 128 * shift, i + 1, m)
  {
    var b := data[q];
    AccumulatedAt(data, q, n, low, shift);
    AddByte(res, low, b, shift, i, m);
    CarryOn(low, b, shift);
    low' := if b < 128 then low + shift * b else low + shift * (b - 128);
    BelowNext(low, if b < 128 then b else b - 128, shift);
  }

  lemma BelowNext(low: nat, d: nat, shift: nat)
    requires low < shift && d < 128
    ensures low + shift * d < 128 * shift
  {
    assert shift * (127 - d) >= 0;
  }

  lemma AddByte(res: int, low: nat, b: int, shift: nat, i: nat, m: nat)
    requires m > 0 && Carried(res, low, shift, i, m)
    ensures AddShifted(res, if i == 0 then b else b - 1, shift, m) == (low + shift * b) % m
  {
    if i > 0 {
      ModOfSum(low + shift, (b - 1) * shift, m);
      assert shift + (b - 1) * shift == shift * b;
    }
  }

  lemma CarryOn(low: nat, b: int, shift: nat)
    ensures low + shift * b == low + shift * (b - 128) + 128 * shift
  {
  }

  // ---------------------------------------------------------------------
  // The size formula (log2(v | 1) * 9 + 73) / 64.

  function Log2(n: nat): nat {
    if n < 2 then 0 else 1 + Log2(n / 2)
  }

  function OrOne(v: nat): nat {
    if v % 2 == 0 then v + 1 else v
  }

  function VarintSize(v: nat): nat {
    (Log2(OrOne(v)) * 9 + 73) / 64
  }

  lemma Log2Halves(n: nat)
    ensures n < 128 ==> Log2(n) < 7
    ensures n >= 128 ==> Log2(n) == 7 + Log2(n / 128)
  {
    var a := n / 2;
    var b := a / 2;
    var c := b / 2;
    var d := c / 2;
    var e := d / 2;
    var f := e / 2;
    assert Log2(n) == if n < 2 then 0 else 1 + Log2(a);
    assert Log2(a) == if a < 2 then 0 else 1 + Log2(b);
    assert Log2(b) == if b < 2 then 0 else 1 + Log2(c);
    assert Log2(c) == if c < 2 then 0 else 1 + Log2(d);
    assert Log2(d) == if d < 2 then 0 else 1 + Log2(e);
    assert Log2(e) == if e < 2 then 0 else 1 + Log2(f);
    assert Log2(f) == if f < 2 then 0 else 1 + Log2(f / 2);
    assert f / 2 == n / 128;
  }

  lemma OrOneKeepsLog(w: nat)
    requires w >= 1
    ensures Log2(OrOne(w)) == Log2(w)
  {
  }

  lemma {:induction false} SizeByLog(v: nat)
    ensures |EncodeVarint(v)| == Log2(OrOne(v)) / 7 + 1
  {
    var n := OrOne(v);
    Log2Halves(n);
    if v >= 128 {
      var w := v / 128;
      assert n / 128 == w;
      OrOneKeepsLog(w);
      SizeByLog(w);
      assert |EncodeVarint(v)| == 1 + |EncodeVarint(w)|;
    }
  }

  lemma {:induction false} Log2Below(n: nat, k: nat)
    requires n < Pow2(k) && k > 0
    ensures Log2(n) < k
  {
    if n >= 2 {
      Log2Below(n / 2, k - 1);
    }
  }

  lemma MultiplyInsteadOfDivide(l: nat)
    requires l < 64
    ensures (l * 9 + 73) / 64 == l / 7 + 1
  {
  }

  /** The formula gives the length of the encoding of every 64-bit value. */
  lemma VarintSizeIsLength(v: uint64)
    ensures VarintSize(v) == |EncodeVarint(v)| <= MAX_VARINT_BYTES
  {
    Pow2Of64();
    Log2Below(OrOne(v), 64);
    SizeByLog(v);
    MultiplyInsteadOfDivide(Log2(OrOne(v)));
  }

  // ---------------------------------------------------------------------
  // Fixed 32-bit words and packed varints.

  function EncodeFixed32(v: uint32): (r: seq<byte>)
    ensures |r| == 4
  {
    var q1 := v / 0x100;
    var q2 := q1 / 0x100;
    [v % 0x100, q1 % 0x100, q2 % 0x100, q2 / 0x100]
  }

  function DecodeFixed32(s: seq<byte>): uint32
    requires |s| == 4
  {
    var b0: int, b1: int, b2: int, b3: int := s[0], s[1], s[2], s[3];
    b0 + 0x100 * (b1 + 0x100 * (b2 + 0x100 * b3))
  }

  lemma Fixed32RoundTrip(v: uint32)
    ensures DecodeFixed32(EncodeFixed32(v)) == v
  {
  }

  function EncodeFixed64(v: uint64): (r: seq<byte>)
    ensures |r| == 8
  {
    EncodeFixed32(v % TWO_32) + EncodeFixed32(v / TWO_32)
  }

  function DecodeFixed64(s: seq<byte>): uint64
    requires |s| == 8
  {
    DecodeFixed32(s[..4]) + TWO_32 * DecodeFixed32(s[4..])
  }

  lemma Fixed64RoundTrip(v: uint64)
    ensures DecodeFixed64(EncodeFixed64(v)) == v
  {
    Fixed32RoundTrip(v % TWO_32);
    Fixed32RoundTrip(v / TWO_32);
    TakeDrop(EncodeFixed32(v % TWO_32), EncodeFixed32(v / TWO_32));
  }

  lemma BytePowers()
    ensures Pow2(0) == 1 && Pow2(8) == 0x100 && Pow2(16) == 0x1_0000 && Pow2(24) == 0x100_0000
    ensures Pow2(32) == TWO_32 && Pow2(40) == 0x100 * TWO_32 && Pow2(48) == 0x1_0000 * TWO_32
    ensures Pow2(56) == 0x100_0000 * TWO_32
  {
    assert Pow2(4) == 16;
    Pow2Sum(4, 4);
    Pow2Sum(8, 8);
    Pow2Sum(16, 8);
    Pow2Sum(16, 16);
    Pow2Sum(32, 8);
    Pow2Sum(32, 16);
    Pow2Sum(32, 24);
  }

  /** The lowest byte comes first. */
  lemma Fixed32Places(v: uint32, i: nat)
    requires i < 4
    ensures EncodeFixed32(v)[i] == v / Pow2(8 * i) % 0x100
  {
    BytePowers();
    DivideTwice(v, 0x100, 0x100);
    DivideTwice(v, 0x1_0000, 0x100);
    if i == 3 {
      SmallMod(v / 0x100_0000, 0x100);
    }
  }

  lemma Fixed32Value(s: seq<byte>)
    requires |s| == 4
    ensures DecodeFixed32(s) == s[0] * Pow2(0) + s[1] * Pow2(8) + s[2] * Pow2(16) + s[3] * Pow2(24)
  {
    BytePowers();
  }

  lemma LowPlace(v: nat, d: nat, e: nat)
    requires d > 0 && d * (0x100 * e) == TWO_32
    ensures v % TWO_32 / d % 0x100 == v / d % 0x100
  {
    var w, l := v / TWO_32, v % TWO_32;
    var q, r := l / d, l % d;
    assert v == TWO_32 * w + l && l == d * q + r;
    assert TWO_32 * w == d * (0x100 * (e * w)) by {
      assert d * (0x100 * e) * w == d * ((0x100 * e) * w);
    }
    assert d * (0x100 * (e * w) + q) == d * (0x100 * (e * w)) + d * q;
    UniqueDiv(v, d, 0x100 * (e * w) + q, r);
    ModShift(q, e * w, 0x100);
  }

  lemma LowBytePlace(v: nat, i: nat)
    requires i < 4
    ensures v % TWO_32 / Pow2(8 * i) % 0x100 == v / Pow2(8 * i) % 0x100
  {
    BytePowers();
    if i == 0 {
      LowPlace(v, 1, 0x100_0000);
    } else if i == 1 {
      LowPlace(v, 0x100, 0x1_0000);
    } else if i == 2 {
      LowPlace(v, 0x1_0000, 0x100);
    } else {
      LowPlace(v, 0x100_0000, 1);
    }
  }

  lemma HighBytePlace(v: nat, i: nat)
    requires 4 <= i < 8
    ensures v / TWO_32 / Pow2(8 * (i - 4)) == v / Pow2(8 * i)
  {
    DivideTwice(v, TWO_32, Pow2(8 * (i - 4)));
    Pow2Sum(32, 8 * (i - 4));
    BytePowers();
  }

  lemma Fixed64Places(v: uint64, i: nat)
    requires i < 8
    ensures EncodeFixed64(v)[i] == v / Pow2(8 * i) % 0x100
  {
    if i < 4 {
      Fixed32Places(v % TWO_32, i);
      LowBytePlace(v, i);
    } else {
      Fixed32Places(v / TWO_32, i - 4);
      HighBytePlace(v, i);
    }
  }

  lemma Fixed64Value(s: seq<byte>)
    requires |s| == 8
    ensures DecodeFixed64(s) ==
      s[0] * Pow2(0) + s[1] * Pow2(8) + s[2] * Pow2(16) + s[3] * Pow2(24) +
      s[4] * Pow2(32) + s[5] * Pow2(40) + s[6] * Pow2(48) + s[7] * Pow2(56)
  {
    BytePowers();
    Fixed32Value(s[..4]);
    Fixed32Value(s[4..]);
  }

  function EncodePacked(vs: seq<uint64>): seq<byte> {
    if vs == [] then [] else EncodeVarint(vs[0]) + EncodePacked(vs[1..])
  }

  function DecodePacked(data: seq<byte>): (r: Option<seq<uint64>>)
    decreases |data|
  {
    if data == [] then Some([])
    else
      match ReadVarint64(data)
      case Bad => None
      case Got(v, rest) =>
        match DecodePacked(rest)
        case None => None
        case Some(vs) => Some([v] + vs)
  }

  lemma {:induction false} PackedRoundTrip(vs: seq<uint64>)
    ensures DecodePacked(EncodePacked(vs)) == Some(vs)
  {
    if vs != [] {
      PackedRoundTrip(vs[1..]);
      ReadVarint64Encoded(vs[0], EncodePacked(vs[1..]));
      assert [vs[0]] + vs[1..] == vs;
    }
  }

  lemma PackedEmpty(vs: seq<uint64>)
    ensures EncodePacked(vs) == [] <==> vs == []
  {
  }

  // ---------------------------------------------------------------------
  // UTF-8.

  predicate Tail(b: byte) {
    0x80 <= b <= 0xBF
  }

  predicate ValidUtf8(s: seq<byte>) {
    if s == [] then true
    else if s[0] < 0x80 then ValidUtf8(s[1..])
    else if 0xC2 <= s[0] <= 0xDF then |s| >= 2 && Tail(s[1]) && ValidUtf8(s[2..])
    else if 0xE0 <= s[0] <= 0xEF then
      && |s| >= 3 && Tail(s[1]) && Tail(s[2])
      && (s[0] == 0xE0 ==> s[1] >= 0xA0)
      && (s[0] == 0xED ==> s[1] <= 0x9F)
      && ValidUtf8(s[3..])
    else if 0xF0 <= s[0] <= 0xF4 then
      && |s| >= 4 && Tail(s[1]) && Tail(s[2]) && Tail(s[3])
      && (s[0] == 0xF0 ==> s[1] >= 0x90)
      && (s[0] == 0xF4 ==> s[1] <= 0x8F)
      && ValidUtf8(s[4..])
    else false
  }
}
