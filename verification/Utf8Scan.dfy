/** The UTF-8 check: a table-driven scanner with fast paths over aligned 8-byte groups,
    against the syntax of RFC 3629, section 4. The buffer is a sequence, its address a
    number, and pointers into it are positions. */
module Utf8Scan {
  import opened Common
  import opened WireFormat

  const ILLEGAL_STRUCTURE := 240
  const OK := 241
  const REJECT := 242

  const LOSUB := 0x2020_2020
  const HIADD := 0

  /** The state table, by ranges: the next state, or an exit code. */
  function Entry(state: nat, c: byte): (e: nat)
    requires state <= 8
    ensures e <= 8 || e == ILLEGAL_STRUCTURE || e == REJECT
  {
    match state
    case 0 =>
      if c < 0x80 then 0
      else if c < 0xC2 then ILLEGAL_STRUCTURE
      else if c <= 0xDF then 1
      else if c == 0xE0 then 2
      else if c == 0xED then 7
      else if c <= 0xEF then 3
      else if c == 0xF0 then 4
      else if c <= 0xF3 then 5
      else if c == 0xF4 then 6
      else ILLEGAL_STRUCTURE
    case 1 => if Tail(c) then 0 else ILLEGAL_STRUCTURE
    case 2 => if 0xA0 <= c <= 0xBF then 1 else ILLEGAL_STRUCTURE
    case 3 => if Tail(c) then 1 else ILLEGAL_STRUCTURE
    case 4 => if 0x90 <= c <= 0xBF then 3 else ILLEGAL_STRUCTURE
    case 5 => if Tail(c) then 3 else ILLEGAL_STRUCTURE
    case 6 => if 0x80 <= c <= 0x8F then 3 else ILLEGAL_STRUCTURE
    case 7 => if 0x80 <= c <= 0x9F then 1 else if 0xA0 <= c <= 0xBF then 8 else ILLEGAL_STRUCTURE
    case 8 => if Tail(c) then REJECT else ILLEGAL_STRUCTURE
  }

  /** The fast table. */
  function Fast(c: byte): nat {
    if c < 0x80 then 0 else 1
  }

  // ---------------------------------------------------------------------
  // Characters and spans.

  /** The length of the well-formed character at position `i`, 0 if there is none. */
  function CharLen(s: seq<byte>, i: nat): (k: nat)
    requires i < |s|
    ensures i + k <= |s| && k <= 4
  {
    var left := |s| - i;
    if s[i] < 0x80 then 1
    else if 0xC2 <= s[i] <= 0xDF then if left >= 2 && Tail(s[i + 1]) then 2 else 0
    else if 0xE0 <= s[i] <= 0xEF then
      if left >= 3 && Tail(s[i + 1]) && Tail(s[i + 2]) &&
        (s[i] == 0xE0 ==> s[i + 1] >= 0xA0) && (s[i] == 0xED ==> s[i + 1] <= 0x9F) then 3 else 0
    else if 0xF0 <= s[i] <= 0xF4 then
      if left >= 4 && Tail(s[i + 1]) && Tail(s[i + 2]) && Tail(s[i + 3]) &&
        (s[i] == 0xF0 ==> s[i + 1] >= 0x90) && (s[i] == 0xF4 ==> s[i + 1] <= 0x8F) then 4 else 0
    else 0
  }

  /** Where the run of well-formed characters from position `i` on ends. */
  function Span(s: seq<byte>, i: nat): (end: nat)
    requires i <= |s|
    ensures i <= end <= |s|
    decreases |s| - i
  {
    if i == |s| || CharLen(s, i) == 0 then i else Span(s, i + CharLen(s, i))
  }

  /** How many bytes from position `i` on the table takes until it is back in state 0;
      0 if it gets stuck or the bytes run out. */
  function Steps(s: seq<byte>, i: nat, state: nat): (k: nat)
    requires i <= |s| && state <= 8
    decreases |s| - i
  {
    if i == |s| then 0
    else
      var e := Entry(state, s[i]);
      if e >= ILLEGAL_STRUCTURE then 0
      else if e == 0 then 1
      else if Steps(s, i + 1, e) == 0 then 0 else 1 + Steps(s, i + 1, e)
  }

  lemma LastByte(s: seq<byte>, i: nat)
    requires i <= |s|
    ensures Steps(s, i, 1) == if i < |s| && Tail(s[i]) then 1 else 0
    ensures Steps(s, i, 8) == 0
  {
  }

  lemma LastTwo(s: seq<byte>, i: nat)
    requires i <= |s|
    ensures Steps(s, i, 3) == if i + 1 < |s| && Tail(s[i]) && Tail(s[i + 1]) then 2 else 0
    ensures Steps(s, i, 2) == if i + 1 < |s| && 0xA0 <= s[i] <= 0xBF && Tail(s[i + 1]) then 2 else 0
    ensures Steps(s, i, 7) == if i + 1 < |s| && 0x80 <= s[i] <= 0x9F && Tail(s[i + 1]) then 2 else 0
  {
    if i < |s| {
      LastByte(s, i + 1);
    }
  }

  lemma LastThree(s: seq<byte>, i: nat)
    requires i <= |s|
    ensures
      && var tails := i + 2 < |s| && Tail(s[i + 1]) && Tail(s[i + 2]);
      && Steps(s, i, 4) == (if tails && 0x90 <= s[i] <= 0xBF then 3 else 0)
      && Steps(s, i, 5) == (if tails && Tail(s[i]) then 3 else 0)
      && Steps(s, i, 6) == (if tails && 0x80 <= s[i] <= 0x8F then 3 else 0)
  {
    if i < |s| {
      LastTwo(s, i + 1);
    }
  }

  /** The table recognizes exactly the characters that RFC 3629 allows. */
  lemma TableIsSyntax(s: seq<byte>, i: nat)
    requires i < |s|
    ensures Steps(s, i, 0) == CharLen(s, i)
  {
    LastByte(s, i + 1);
    LastTwo(s, i + 1);
    LastThree(s, i + 1);
  }

  /** Valid text starts with a character and goes on as valid text. */
  lemma ValidStep(s: seq<byte>, i: nat)
    requires i < |s|
    ensures ValidUtf8(s[i..]) == (CharLen(s, i) > 0 && ValidUtf8(s[i + CharLen(s, i)..]))
  {
    var k, t := CharLen(s, i), s[i..];
    assert forall j :: 0 <= j < |t| ==> t[j] == s[i + j];
    if k > 0 {
      assert t[k..] == s[i + k..];
    }
  }

  lemma {:induction false} ValidIsSpan(s: seq<byte>, i: nat)
    requires i <= |s|
    ensures ValidUtf8(s[i..]) == (Span(s, i) == |s|)
    decreases |s| - i
  {
    if i < |s| {
      ValidStep(s, i);
      if CharLen(s, i) > 0 {
        ValidIsSpan(s, i + CharLen(s, i));
      }
    }
  }

  // ---------------------------------------------------------------------
  // The scanner.

  /** A word, read at an address that is aligned for it. */
  function Word(s: seq<byte>, address: nat, i: nat): nat
    requires i + 4 <= |s| && (address + i) % 4 == 0
  {
    var a: int, b: int, c: int, d: int := s[i], s[i + 1], s[i + 2], s[i + 3];
    a + 0x100 * b + 0x1_0000 * c + 0x100_0000 * d
  }

  /** (w & 0x80808080) != 0 */
  predicate HighBits(w: nat) {
    w % 0x100 >= 0x80 || w / 0x100 % 0x100 >= 0x80 || w / 0x1_0000 % 0x100 >= 0x80 || w / 0x100_0000 % 0x100 >= 0x80
  }

  lemma LowByte(a: nat, rest: nat)
    requires a < 0x100
    ensures (a + 0x100 * rest) % 0x100 == a && (a + 0x100 * rest) / 0x100 == rest
  {
  }

  lemma BytesOfWord(a: nat, b: nat, c: nat, d: nat)
    requires a < 0x100 && b < 0x100 && c < 0x100 && d < 0x100
    ensures
      && var w := a + 0x100 * b + 0x1_0000 * c + 0x100_0000 * d;
      && w % 0x100 == a && w / 0x100 % 0x100 == b && w / 0x1_0000 % 0x100 == c && w / 0x100_0000 % 0x100 == d
      && w < TWO_32
  {
    var w := a + 0x100 * b + 0x1_0000 * c + 0x100_0000 * d;
    LowByte(a, b + 0x100 * (c + 0x100 * d));
    LowByte(b, c + 0x100 * d);
    LowByte(c, d);
    assert w / 0x100 / 0x100 == w / 0x1_0000 && w / 0x1_0000 / 0x100 == w / 0x100_0000;
  }

  lemma HighBitsOfWord(s: seq<byte>, address: nat, i: nat)
    requires i + 4 <= |s| && (address + i) % 4 == 0
    ensures HighBits(Word(s, address, i)) == !Ascii(s, i, i + 4)
    ensures Word(s, address, i) < TWO_32
  {
    BytesOfWord(s[i], s[i + 1], s[i + 2], s[i + 3]);
    if Ascii(s, i, i + 4) {
      assert s[i] < 0x80 && s[i + 1] < 0x80 && s[i + 2] < 0x80 && s[i + 3] < 0x80;
    }
  }

  ghost predicate Ascii(s: seq<byte>, i: nat, j: nat)
    requires j <= |s|
  {
    forall k {:trigger s[k]} :: i <= k < j ==> s[k] < 0x80
  }

  /** ASCII bytes are characters. */
  lemma {:induction false} SpanOverAscii(s: seq<byte>, i: nat, j: nat)
    requires i <= j <= |s| && Ascii(s, i, j)
    ensures Span(s, i) == Span(s, j)
    decreases j - i
  {
    if i < j {
      assert CharLen(s, i) == 1;
      SpanOverAscii(s, i + 1, j);
    }
  }

  /** Where groups of eight bytes may start: seven before the end. */
  function GroupLimit(s: seq<byte>, start: nat): nat
    requires start <= |s|
  {
    if |s| - start < 7 then start else |s| - 7
  }

  lemma AlignedHalves(at: nat)
    requires at % 8 == 0
    ensures at % 4 == 0 && (at + 4) % 4 == 0
  {
    var q := at / 8;
    assert at == 4 * (2 * q) && at + 4 == 4 * (2 * q + 1);
    UniqueMod(at, 4, 2 * q, 0);
    UniqueMod(at + 4, 4, 2 * q + 1, 0);
  }

  /** Both halves of an aligned group. */
  lemma Halves(s: seq<byte>, address: nat, group: nat)
    requires group + 8 <= |s| && (address + group) % 8 == 0
    ensures (address + group) % 4 == 0 && (address + (group + 4)) % 4 == 0
    ensures HighBits(Word(s, address, group)) == !Ascii(s, group, group + 4)
    ensures HighBits(Word(s, address, group + 4)) == !Ascii(s, group + 4, group + 8)
    ensures Word(s, address, group) < TWO_32 && Word(s, address, group + 4) < TWO_32
  {
    AlignedHalves(address + group);
    assert address + (group + 4) == address + group + 4;
    HighBitsOfWord(s, address, group);
    HighBitsOfWord(s, address, group + 4);
  }

  lemma AsciiHalf(s: seq<byte>, i: nat)
    requires i + 4 <= |s|
    ensures Ascii(s, i, i + 4) == (Fast(s[i]) == 0 && Fast(s[i + 1]) == 0 && Fast(s[i + 2]) == 0 && Fast(s[i + 3]) == 0)
  {
  }

  /** The fast scan, which stops at the latest at the first byte that is not ASCII, and
      before that only within seven bytes of the end or three of such a byte. */
  method SkipFast(s: seq<byte>, start: nat, address: nat) returns (src: nat)
    requires start <= |s|
    ensures start <= src <= |s| && Ascii(s, start, src)
    ensures |s| - src > 7 ==> !Ascii(s, src, src + 4)
  {
    src := start;
    while (address + src) % 8 != 0 && src < |s| && Fast(s[src]) == 0
      invariant start <= src <= |s| && Ascii(s, start, src)
      decreases |s| - src
    {
      src := src + 1;
    }
    if (address + src) % 8 == 0 {
      while src < GroupLimit(s, start)
        invariant start <= src <= |s| && Ascii(s, start, src) && (address + src) % 8 == 0
        decreases |s| - src
      {
        var more;
        src, more := ScanGroup(s, address, src);
        if !more {
          break;
        }
      }
    }
  }

  /** One group of eight: goes on behind it if all its bytes are ASCII, else stops in front
      of the half that has another byte. */
  method ScanGroup(s: seq<byte>, address: nat, group: nat) returns (src: nat, more: bool)
    requires group + 8 <= |s| && (address + group) % 8 == 0
    ensures src == group + (if !Ascii(s, group, group + 4) then 0 else if !Ascii(s, group + 4, group + 8) then 4 else 8)
    ensures Ascii(s, group, src) && (more <==> src == group + 8)
  {
    Halves(s, address, group);
    AsciiHalf(s, group);
    AsciiHalf(s, group + 4);
    AsciiJoins(s, group, group + 4, group + 8);
    var s0123, s4567 := Word(s, address, group), Word(s, address, group + 4);
    SmallMod(s0123 + HIADD, TWO_32);
    SmallMod(s4567 + HIADD, TWO_32);
    src := group + 8;
    if HighBits((s0123 - LOSUB) % TWO_32) || HighBits((s0123 + HIADD) % TWO_32) ||
      HighBits((s4567 - LOSUB) % TWO_32) || HighBits((s4567 + HIADD) % TWO_32) {
      if Fast(s[src - 8]) != 0 || Fast(s[src - 7]) != 0 || Fast(s[src - 6]) != 0 || Fast(s[src - 5]) != 0 {
        return src - 8, false;
      }
      if Fast(s[src - 4]) != 0 || Fast(s[src - 3]) != 0 || Fast(s[src - 2]) != 0 || Fast(s[src - 1]) != 0 {
        return src - 4, false;
      }
    }
    return src, true;
  }

  /** Between the lead byte at `p` and `src` the table has taken continuation bytes only
      and is in `state`. */
  ghost predicate Within(s: seq<byte>, p: nat, src: nat, state: nat)
    requires p <= src <= |s| && state <= 8
  {
    if state == 0 then src == p
    else
      && p < src && !Tail(s[p]) && (forall j :: p < j < src ==> Tail(s[j]))
      && CharLen(s, p) == if Steps(s, src, state) == 0 then 0 else src - p + Steps(s, src, state)
  }

  /** One byte taken by the table. */
  lemma TakeByte(s: seq<byte>, p: nat, src: nat, state: nat)
    requires p <= src < |s| && state <= 8 && Within(s, p, src, state)
    ensures
      && var e := Entry(state, s[src]);
      && (e >= ILLEGAL_STRUCTURE ==> CharLen(s, p) == 0)
      && (e == 0 ==> CharLen(s, p) == src + 1 - p)
      && (0 < e <= 8 ==> Within(s, p, src + 1, e))
  {
    TableIsSyntax(s, p);
  }

  /** A surrogate, which has the form of a character of three bytes. */
  predicate SurrogateAt(s: seq<byte>, p: nat) {
    p + 2 < |s| && s[p] == 0xED && 0xA0 <= s[p + 1] <= 0xBF && Tail(s[p + 2])
  }

  /** In which states the table is behind a byte 0xED, and in which it is only there. */
  ghost predicate BehindED(s: seq<byte>, p: nat, src: nat, state: nat)
    requires p <= src <= |s|
  {
    && (src == p <==> state == 0)
    && (state == 7 ==> src == p + 1 && s[p] == 0xED)
    && (state == 8 ==> src == p + 2 && s[p] == 0xED && 0xA0 <= s[p + 1] <= 0xBF)
    && (src == p + 1 && s[p] == 0xED ==> state == 7)
    && (src == p + 2 && s[p] == 0xED ==> if s[p + 1] >= 0xA0 then state == 8 else state == 1 && s[p + 1] < 0xA0)
    && (src > p + 2 ==> s[p] != 0xED)
  }

  /** The table rejects surrogates, and anything else it does not take is illegal. */
  lemma BehindEDStep(s: seq<byte>, p: nat, src: nat, state: nat)
    requires p <= src < |s| && state <= 8 && BehindED(s, p, src, state)
    ensures
      && var e := Entry(state, s[src]);
      && (e >= ILLEGAL_STRUCTURE ==> (e == REJECT <==> SurrogateAt(s, p)))
      && (0 < e <= 8 ==> BehindED(s, p, src + 1, e))
  {
  }

  /** Backing up over the bytes of an incomplete character. */
  method BackUp(s: seq<byte>, start: nat, src: nat, ghost p: nat) returns (back: nat)
    requires start <= p < src <= |s| && !Tail(s[p]) && forall j :: p < j < src ==> Tail(s[j])
    ensures back == p
  {
    back := src - 1;
    while back > start && Tail(s[back])
      invariant p <= back < src
    {
      back := back - 1;
    }
  }

  /** UTF8GenericScan from position `start` on: consumes exactly the well-formed characters. */
  method GenericScan(s: seq<byte>, start: nat, address: nat) returns (reason: nat, consumed: nat)
    requires start <= |s|
    ensures consumed == Span(s, start) - start
    ensures reason == if Span(s, start) == |s| then OK
      else if SurrogateAt(s, Span(s, start)) then REJECT else ILLEGAL_STRUCTURE
  {
    if |s| == start {
      return OK, 0;
    }
    var src := SkipFast(s, start, address);
    SpanOverAscii(s, start, src);
    var state: nat, e: nat := 0, 0;
    ghost var p := src;
    while src < |s|
      invariant start <= p <= src <= |s| && state <= 8 && e <= 8
      invariant Span(s, start) == Span(s, p) && Within(s, p, src, state) && BehindED(s, p, src, state)
      decreases |s| - src
    {
      e := Entry(state, s[src]);
      TakeByte(s, p, src, state);
      BehindEDStep(s, p, src, state);
      src := src + 1;
      if e >= ILLEGAL_STRUCTURE {
        break;
      }
      state := e;
      if state == 0 {
        p := src;
      }
    }
    if e >= ILLEGAL_STRUCTURE {
      src := src - 1;
      if state != 0 {
        src := BackUp(s, start, src, p);
      }
    } else if state != 0 {
      e := ILLEGAL_STRUCTURE;
      src := BackUp(s, start, src, p);
    } else {
      e := OK;
    }
    return e, src - start;
  }

  lemma AsciiJoins(s: seq<byte>, i: nat, j: nat, k: nat)
    requires i <= j <= k <= |s|
    ensures Ascii(s, i, k) == (Ascii(s, i, j) && Ascii(s, j, k))
  {
  }

  /** Whether both words of an aligned group of eight are ASCII. */
  method GroupIsAscii(s: seq<byte>, address: nat, group: nat) returns (ascii: bool)
    requires group + 8 <= |s| && (address + group) % 8 == 0
    ensures ascii == Ascii(s, group, group + 8)
  {
    Halves(s, address, group);
    AsciiJoins(s, group, group + 4, group + 8);
    ascii := !HighBits(Word(s, address, group)) && !HighBits(Word(s, address, group + 4));
  }

  /** The groups of eight at aligned addresses as far as they are ASCII. */
  method SkipGroups(s: seq<byte>, start: nat, address: nat, src0: nat) returns (src: nat)
    requires start <= src0 <= |s| && (address + src0) % 8 == 0
    ensures src0 <= src <= |s| && Ascii(s, src0, src)
    ensures |s| - src > 7 ==> !Ascii(s, src, src + 8)
  {
    src := src0;
    var ascii := true;
    while ascii && src < GroupLimit(s, start)
      invariant src0 <= src <= |s| && Ascii(s, src0, src) && (address + src) % 8 == 0
      invariant !ascii ==> src + 8 <= |s| && !Ascii(s, src, src + 8)
      decreases |s| - src, ascii
    {
      ascii := GroupIsAscii(s, address, src);
      if ascii {
        src := src + 8;
      }
    }
  }

  /** The second fast scan: up to the first byte that is not ASCII. */
  method SkipAscii(s: seq<byte>, start: nat, address: nat) returns (src: nat)
    requires start <= |s|
    ensures start <= src <= |s| && Ascii(s, start, src) && (src < |s| ==> s[src] >= 0x80)
  {
    src := start;
    while (address + src) % 8 != 0 && src < |s| && s[src] < 0x80
      invariant start <= src <= |s| && Ascii(s, start, src)
      decreases |s| - src
    {
      src := src + 1;
    }
    if (address + src) % 8 == 0 {
      src := SkipGroups(s, start, address, src);
    }
    while src < |s| && s[src] < 0x80
      invariant start <= src <= |s| && Ascii(s, start, src)
    {
      src := src + 1;
    }
  }

  /** UTF8GenericScanFastAscii from position `start` on. No entry of the table asks to do
      it again. */
  method GenericScanFastAscii(s: seq<byte>, start: nat, address: nat) returns (reason: nat, consumed: nat)
    requires start <= |s|
    ensures consumed == Span(s, start) - start
    ensures reason == if Span(s, start) == |s| then OK
      else if SurrogateAt(s, Span(s, start)) then REJECT else ILLEGAL_STRUCTURE
  {
    if |s| == start {
      return OK, 0;
    }
    var src := SkipAscii(s, start, address);
    SpanOverAscii(s, start, src);
    var rest;
    reason, rest := GenericScan(s, src, address);
    consumed := src - start + rest;
  }

  /** For every buffer at any address, the scanner accepts exactly the valid UTF-8; before
      static initialization it accepts everything. */
  method IsStructurallyValidUTF8(s: seq<byte>, address: nat, initialized: bool) returns (valid: bool)
    ensures valid == (!initialized || ValidUtf8(s))
  {
    if !initialized {
      return true;
    }
    var reason, consumed := GenericScanFastAscii(s, 0, address);
    ValidIsSpan(s, 0);
    assert s[0..] == s;
    valid := consumed == |s|;
  }

  // ---------------------------------------------------------------------
  // The longest valid prefix.

  lemma CharOfPrefix(s: seq<byte>, m: nat, i: nat)
    requires i < m <= |s|
    ensures CharLen(s[..m], i) == if i + CharLen(s, i) <= m then CharLen(s, i) else 0
  {
    assert forall j :: 0 <= j < m ==> s[..m][j] == s[j];
  }

  lemma {:induction false} SpanOfPrefix(s: seq<byte>, m: nat, i: nat)
    requires i <= m <= |s|
    ensures Span(s[..m], i) == m ==> Span(s, i) >= m
    ensures Span(s, i) == m ==> Span(s[..m], i) == m
    decreases m - i
  {
    if i < m {
      CharOfPrefix(s, m, i);
      if CharLen(s, i) > 0 && i + CharLen(s, i) <= m {
        SpanOfPrefix(s, m, i + CharLen(s, i));
      }
    }
  }

  /** The span from `i` on is the longest valid piece that starts there. */
  lemma SpanIsLongestValid(s: seq<byte>, i: nat, m: nat)
    requires i <= m <= |s|
    ensures m == Span(s, i) ==> ValidUtf8(s[i..m])
    ensures m > Span(s, i) ==> !ValidUtf8(s[i..m])
  {
    SpanOfPrefix(s, m, i);
    ValidIsSpan(s[..m], i);
    assert s[..m][i..] == s[i..m];
  }

  /** UTF8SpnStructurallyValid of what begins at position `start`; before static
      initialization it is everything. */
  method SpnStructurallyValid(s: seq<byte>, start: nat, address: nat, initialized: bool) returns (n: nat)
    requires start <= |s|
    ensures start + n == if initialized then Span(s, start) else |s|
    ensures initialized ==> ValidUtf8(s[start..start + n])
    ensures initialized ==> forall m :: start + n < m <= |s| ==> !ValidUtf8(s[start..m])
  {
    if !initialized {
      return |s| - start;
    }
    var reason;
    reason, n := GenericScanFastAscii(s, start, address);
    forall m | start <= m <= |s|
      ensures m == Span(s, start) ==> ValidUtf8(s[start..m])
      ensures m > Span(s, start) ==> !ValidUtf8(s[start..m])
    {
      SpanIsLongestValid(s, start, m);
    }
  }

  // ---------------------------------------------------------------------
  // Coercion.

  /** The bytes from `i` on with every byte that starts no well-formed character replaced. */
  ghost function Coerced(s: seq<byte>, i: nat, replace: byte): (r: seq<byte>)
    requires i <= |s|
    ensures |r| == |s| - i
    decreases |s| - i
  {
    if i == |s| then []
    else if CharLen(s, i) == 0 then [replace] + Coerced(s, i + 1, replace)
    else s[i..i + CharLen(s, i)] + Coerced(s, i + CharLen(s, i), replace)
  }

  lemma CharInFront(s: seq<byte>, i: nat, rest: seq<byte>)
    requires i < |s| && CharLen(s, i) > 0
    ensures ValidUtf8(s[i..i + CharLen(s, i)] + rest) == ValidUtf8(rest)
  {
    var k := CharLen(s, i);
    var t := s[i..i + k] + rest;
    assert forall j :: 0 <= j < k ==> t[j] == s[i + j];
    assert t[k..] == rest;
  }

  lemma AsciiInFront(c: byte, rest: seq<byte>)
    requires c < 0x80
    ensures ValidUtf8([c] + rest) == ValidUtf8(rest)
  {
    assert ([c] + rest)[1..] == rest;
  }

  lemma {:induction false} CoercedIsValid(s: seq<byte>, i: nat, replace: byte)
    requires i <= |s| && replace < 0x80
    ensures ValidUtf8(Coerced(s, i, replace))
    decreases |s| - i
  {
    if i < |s| {
      var k := CharLen(s, i);
      if k == 0 {
        CoercedIsValid(s, i + 1, replace);
        AsciiInFront(replace, Coerced(s, i + 1, replace));
      } else {
        CoercedIsValid(s, i + k, replace);
        CharInFront(s, i, Coerced(s, i + k, replace));
      }
    }
  }

  /** `r` differs from the bytes of `s` from `i` on only in replaced ones. */
  ghost predicate KeptOrReplaced(s: seq<byte>, i: nat, replace: byte, r: seq<byte>) {
    i + |r| == |s| && forall j {:trigger r[j]} :: 0 <= j < |r| ==> r[j] == s[i + j] || r[j] == replace
  }

  lemma KeptInFront(s: seq<byte>, i: nat, k: nat, replace: byte, front: seq<byte>, rest: seq<byte>)
    requires i + k <= |s| && KeptOrReplaced(s, i + k, replace, rest)
    requires front == s[i..i + k] || (front == [replace] && k == 1)
    ensures KeptOrReplaced(s, i, replace, front + rest)
  {
  }

  /** What is not replaced stays. */
  lemma {:induction false} CoercedKeeps(s: seq<byte>, i: nat, replace: byte)
    requires i <= |s|
    ensures KeptOrReplaced(s, i, replace, Coerced(s, i, replace))
    decreases |s| - i
  {
    if i < |s| {
      CoercedKeeps(s, i + if CharLen(s, i) == 0 then 1 else CharLen(s, i), replace);
      if CharLen(s, i) == 0 {
        KeepsAtBadByte(s, i, replace);
      } else {
        KeepsAtChar(s, i, replace);
      }
    }
  }

  lemma KeepsAtBadByte(s: seq<byte>, i: nat, replace: byte)
    requires i < |s| && CharLen(s, i) == 0 && KeptOrReplaced(s, i + 1, replace, Coerced(s, i + 1, replace))
    ensures KeptOrReplaced(s, i, replace, Coerced(s, i, replace))
  {
    CoercedAtBadByte(s, i, replace);
    KeptInFront(s, i, 1, replace, [replace], Coerced(s, i + 1, replace));
  }

  lemma KeepsAtChar(s: seq<byte>, i: nat, replace: byte)
    requires i < |s| && CharLen(s, i) > 0
    requires KeptOrReplaced(s, i + CharLen(s, i), replace, Coerced(s, i + CharLen(s, i), replace))
    ensures KeptOrReplaced(s, i, replace, Coerced(s, i, replace))
  {
    var k := CharLen(s, i);
    CoercedAtChar(s, i, replace);
    KeptInFront(s, i, k, replace, s[i..i + k], Coerced(s, i + k, replace));
  }

  lemma CoercedAtBadByte(s: seq<byte>, i: nat, replace: byte)
    requires i < |s| && CharLen(s, i) == 0
    ensures Coerced(s, i, replace) == [replace] + Coerced(s, i + 1, replace)
  {
  }

  lemma CoercedAtChar(s: seq<byte>, i: nat, replace: byte)
    requires i < |s| && CharLen(s, i) > 0
    ensures Coerced(s, i, replace) == s[i..i + CharLen(s, i)] + Coerced(s, i + CharLen(s, i), replace)
  {
  }

  lemma SpanStep(s: seq<byte>, i: nat)
    requires i < |s| && CharLen(s, i) > 0
    ensures Span(s, i) == Span(s, i + CharLen(s, i)) >= i + CharLen(s, i)
  {
  }

  lemma {:induction false} CoercedOverSpan(s: seq<byte>, i: nat, replace: byte)
    requires i <= |s|
    ensures Coerced(s, i, replace) == s[i..Span(s, i)] + Coerced(s, Span(s, i), replace)
    decreases |s| - i
  {
    if i < |s| && CharLen(s, i) > 0 {
      var k := CharLen(s, i);
      SpanStep(s, i);
      CoercedAtChar(s, i, replace);
      CoercedOverSpan(s, i + k, replace);
      JoinSlices(s, i, i + k, Span(s, i), Coerced(s, Span(s, i), replace));
    } else {
      EmptyLeft(Coerced(s, i, replace));
    }
  }

  lemma {:induction false} SpanStops(s: seq<byte>, i: nat)
    requires i <= |s|
    ensures Span(s, Span(s, i)) == Span(s, i)
    decreases |s| - i
  {
    if i < |s| && CharLen(s, i) > 0 {
      SpanStops(s, i + CharLen(s, i));
    }
  }

  /** What has been written, and where the next bad byte is. */
  ghost predicate CoercedTo(s: seq<byte>, src: nat, replace: byte, dst: seq<byte>) {
    && src <= |s| && Span(s, src) == src
    && dst + Coerced(s, src, replace) == Coerced(s, 0, replace)
  }

  lemma CoercedFirst(s: seq<byte>, replace: byte)
    ensures CoercedTo(s, Span(s, 0), replace, s[..Span(s, 0)])
  {
    CoercedOverSpan(s, 0, replace);
    SpanStops(s, 0);
  }

  /** One step of the loop: a bad byte, then the next good chunk. */
  lemma CoercedNext(s: seq<byte>, src: nat, replace: byte, dst: seq<byte>)
    requires CoercedTo(s, src, replace, dst) && src < |s|
    ensures
      && var end := Span(s, src + 1);
      && CoercedTo(s, end, replace, dst + [replace] + s[src + 1..end])
  {
    CoercedAtBadByte(s, src, replace);
    CoercedOverSpan(s, src + 1, replace);
    SpanStops(s, src + 1);
    var end := Span(s, src + 1);
    Assoc4(dst, [replace], s[src + 1..end], Coerced(s, end, replace));
  }

  lemma CoercedLast(s: seq<byte>, replace: byte, dst: seq<byte>)
    requires CoercedTo(s, |s|, replace, dst)
    ensures dst == Coerced(s, 0, replace)
  {
    EmptyLeft(dst);
  }

  /** The coerced text: the good characters in front, one replacement for the bad byte
      behind them, and the rest coerced in the same way. */
  lemma CoercedByChunks(s: seq<byte>, i: nat, replace: byte)
    requires i <= |s|
    ensures
      && var end := Span(s, i);
      && Coerced(s, i, replace) ==
         s[i..end] + if end == |s| then [] else [replace] + Coerced(s, end + 1, replace)
  {
    var end := Span(s, i);
    CoercedOverSpan(s, i, replace);
    SpanStops(s, i);
    if end < |s| {
      CoercedAtBadByte(s, end, replace);
    }
  }

  lemma Assoc4<T>(a: seq<T>, b: seq<T>, c: seq<T>, d: seq<T>)
    ensures a + (b + (c + d)) == a + b + c + d
  {
  }

  lemma CoercedProperties(s: seq<byte>, replace: byte)
    requires replace < 0x80
    ensures ValidUtf8(Coerced(s, 0, replace)) && KeptOrReplaced(s, 0, replace, Coerced(s, 0, replace))
    ensures ValidUtf8(s) ==> Coerced(s, 0, replace) == s
  {
    CoercedIsValid(s, 0, replace);
    CoercedKeeps(s, 0, replace);
    if ValidUtf8(s) {
      assert s[0..] == s;
      ValidIsSpan(s, 0);
      CoercedOverSpan(s, 0, replace);
      EmptyLeft(s);
    }
  }

  /** UTF8CoerceToStructurallyValid: a valid text of the same length that differs only in
      bytes that start no well-formed character; valid text stays as it is, and so does
      everything before static initialization. */
  method CoerceToStructurallyValid(s: seq<byte>, replace: byte, address: nat, initialized: bool) returns (dst: seq<byte>)
    requires 0x20 <= replace <= 0x7E
    ensures dst == if initialized then Coerced(s, 0, replace) else s
    ensures |dst| == |s| && (initialized ==> ValidUtf8(dst))
    ensures forall i :: 0 <= i < |s| ==> dst[i] == s[i] || dst[i] == replace
    ensures !initialized || ValidUtf8(s) <==> dst == s
  {
    CoercedProperties(s, replace);
    var n := GoodChunk(s, 0, address, initialized);
    if n == |s| {
      if initialized {
        CoercedFirst(s, replace);
        assert s[..|s|] == s;
        CoercedLast(s, replace, s);
      }
      return s;
    }
    dst := CoerceRest(s, n, replace, address);
  }

  /** The length that UTF8SpnStructurallyValid gives. */
  method GoodChunk(s: seq<byte>, start: nat, address: nat, initialized: bool) returns (n: nat)
    requires start <= |s|
    ensures start + n == if initialized then Span(s, start) else |s|
  {
    n := SpnStructurallyValid(s, start, address, initialized);
  }

  /** The good chunks and the bad bytes between them, from the first bad byte on. */
  method CoerceRest(s: seq<byte>, n: nat, replace: byte, address: nat) returns (dst: seq<byte>)
    requires n == Span(s, 0)
    ensures dst == Coerced(s, 0, replace)
  {
    CoercedFirst(s, replace);
    var src := n;
    dst := s[..n];
    while src < |s|
      invariant src <= |s| && CoercedTo(s, src, replace, dst)
    {
      CoercedNext(s, src, replace, dst);
      var chunk := GoodChunk(s, src + 1, address, true);
      var end := src + 1 + chunk;
      dst := dst + [replace] + s[src + 1..end];
      src := end;
    }
    CoercedLast(s, replace, dst);
  }

  // ---------------------------------------------------------------------
  // Code points.

  /** Unicode scalar values: code points that are no surrogates. */
  predicate Scalar(c: nat) {
    c < 0xD800 || 0xE000 <= c <= 0x10_FFFF
  }

  function Encode(c: nat): (r: seq<byte>)
    requires Scalar(c)
    ensures r != []
  {
    if c < 0x80 then [c]
    else if c < 0x800 then [0xC0 + c / 0x40, 0x80 + c % 0x40]
    else if c < 0x1_0000 then [0xE0 + c / 0x1000, 0x80 + c / 0x40 % 0x40, 0x80 + c % 0x40]
    else [0xF0 + c / 0x4_0000, 0x80 + c / 0x1000 % 0x40, 0x80 + c / 0x40 % 0x40, 0x80 + c % 0x40]
  }

  /** The first difference, if the bytes of neither are a prefix of the other's. */
  ghost predicate Precedes(a: seq<byte>, b: seq<byte>) {
    exists i :: 0 <= i < |a| && i < |b| && a[i] < b[i] && a[..i] == b[..i]
  }

  lemma Digits(c: nat)
    ensures c == 0x40 * (c / 0x40) + c % 0x40
    ensures c / 0x40 == 0x40 * (c / 0x1000) + c / 0x40 % 0x40
    ensures c / 0x1000 == 0x40 * (c / 0x4_0000) + c / 0x1000 % 0x40
  {
    DivideTwice(c, 0x40, 0x40);
    DivideTwice(c, 0x1000, 0x40);
  }

  lemma PrecedesAt(a: seq<byte>, b: seq<byte>, i: nat)
    requires i < |a| && i < |b| && a[i] < b[i] && a[..i] == b[..i]
    ensures Precedes(a, b)
  {
  }

  lemma TwoInOrder(c: nat, d: nat)
    requires 0x80 <= c < d < 0x800
    ensures Precedes(Encode(c), Encode(d))
  {
    Digits(c);
    Digits(d);
    PrecedesAt(Encode(c), Encode(d), if c / 0x40 < d / 0x40 then 0 else 1);
  }

  lemma ThreeInOrder(c: nat, d: nat)
    requires Scalar(c) && Scalar(d) && 0x800 <= c < d < 0x1_0000
    ensures Precedes(Encode(c), Encode(d))
  {
    Digits(c);
    Digits(d);
    PrecedesAt(Encode(c), Encode(d), if c / 0x1000 < d / 0x1000 then 0 else if c / 0x40 < d / 0x40 then 1 else 2);
  }

  lemma FourInOrder(c: nat, d: nat)
    requires 0x1_0000 <= c < d <= 0x10_FFFF
    ensures Precedes(Encode(c), Encode(d))
  {
    Digits(c);
    Digits(d);
    PrecedesAt(Encode(c), Encode(d),
      if c / 0x4_0000 < d / 0x4_0000 then 0 else if c / 0x1000 < d / 0x1000 then 1
      else if c / 0x40 < d / 0x40 then 2 else 3);
  }

  lemma LeadByLength(c: nat)
    requires Scalar(c)
    ensures
      && var lead := Encode(c)[0];
      && if c < 0x80 then lead == c else if c < 0x800 then 0xC2 <= lead < 0xE0
         else if c < 0x1_0000 then 0xE0 <= lead < 0xF0 else 0xF0 <= lead
  {
  }

  /** The order of the encodings, byte by byte, is that of the scalar values. */
  lemma EncodeKeepsOrder(c: nat, d: nat)
    requires Scalar(c) && Scalar(d) && c < d
    ensures Precedes(Encode(c), Encode(d))
  {
    if 0x80 <= c && d < 0x800 {
      TwoInOrder(c, d);
    } else if 0x800 <= c && d < 0x1_0000 {
      ThreeInOrder(c, d);
    } else if 0x1_0000 <= c {
      FourInOrder(c, d);
    } else {
      LeadByLength(c);
      LeadByLength(d);
      PrecedesAt(Encode(c), Encode(d), 0);
    }
  }

  ghost predicate AllScalar(cs: seq<nat>) {
    forall i :: 0 <= i < |cs| ==> Scalar(cs[i])
  }

  function EncodeAll(cs: seq<nat>): seq<byte>
    requires AllScalar(cs)
  {
    if cs == [] then [] else Encode(cs[0]) + EncodeAll(cs[1..])
  }

  lemma ThreeDigits(c: nat)
    requires Scalar(c) && 0x800 <= c < 0x1_0000
    ensures c / 0x1000 < 0x10
    ensures c / 0x1000 == 0 ==> c / 0x40 % 0x40 >= 0x20
    ensures c / 0x1000 == 0xD ==> c / 0x40 % 0x40 <= 0x1F
  {
    assert c / 0x40 / 0x40 == c / 0x1000;
  }

  lemma FourDigits(c: nat)
    requires 0x1_0000 <= c <= 0x10_FFFF
    ensures c / 0x4_0000 <= 4
    ensures c / 0x4_0000 == 0 ==> c / 0x1000 % 0x40 >= 0x10
    ensures c / 0x4_0000 == 4 ==> c / 0x1000 % 0x40 <= 0xF
  {
    assert c / 0x1000 / 0x40 == c / 0x4_0000;
  }

  /** A character by its bytes, with anything behind it. */
  lemma CharOfBytes(t: seq<byte>, n: nat)
    requires n <= |t| && 1 <= n <= 4
    requires n == 1 ==> t[0] < 0x80
    requires n == 2 ==> 0xC2 <= t[0] <= 0xDF && Tail(t[1])
    requires n == 3 ==> 0xE0 <= t[0] <= 0xEF && Tail(t[1]) && Tail(t[2])
    requires n == 3 ==> (t[0] == 0xE0 ==> t[1] >= 0xA0) && (t[0] == 0xED ==> t[1] <= 0x9F)
    requires n == 4 ==> 0xF0 <= t[0] <= 0xF4 && Tail(t[1]) && Tail(t[2]) && Tail(t[3])
    requires n == 4 ==> (t[0] == 0xF0 ==> t[1] >= 0x90) && (t[0] == 0xF4 ==> t[1] <= 0x8F)
    ensures CharLen(t, 0) == n
  {
  }

  lemma EncodeIsChar(c: nat, rest: seq<byte>)
    requires Scalar(c)
    ensures CharLen(Encode(c) + rest, 0) == |Encode(c)|
  {
    if c >= 0x1_0000 {
      FourDigits(c);
    } else if c >= 0x800 {
      ThreeDigits(c);
    }
    CharOfBytes(Encode(c) + rest, |Encode(c)|);
  }

  /** The scalar value of a well-formed character. */
  function Decode(s: seq<byte>): (c: nat)
    requires s != [] && CharLen(s, 0) > 0
  {
    var k := CharLen(s, 0);
    if k == 1 then s[0]
    else
      var lead: int, a: int := s[0], s[1] - 0x80;
      if k == 2 then (lead - 0xC0) * 0x40 + a
      else
        var b: int := s[2] - 0x80;
        if k == 3 then (lead - 0xE0) * 0x1000 + a * 0x40 + b
        else
          var c: int := s[3] - 0x80;
          (lead - 0xF0) * 0x4_0000 + a * 0x1000 + b * 0x40 + c
  }

  lemma SplitDigits(q: nat, r: nat)
    requires r < 0x40
    ensures (q * 0x40 + r) / 0x40 == q && (q * 0x40 + r) % 0x40 == r
  {
  }

  lemma EncodeThree(lead: nat, a: nat, b: nat)
    requires lead < 0x10 && a < 0x40 && b < 0x40 && (lead == 0 ==> a >= 0x20) && (lead == 0xD ==> a < 0x20)
    ensures
      && var c := lead * 0x1000 + a * 0x40 + b;
      && Scalar(c) && Encode(c) == [0xE0 + lead, 0x80 + a, 0x80 + b]
  {
    SplitDigits(lead * 0x40 + a, b);
    SplitDigits(lead, a);
  }

  lemma EncodeFour(lead: nat, a: nat, b: nat, c: nat)
    requires lead <= 4 && a < 0x40 && b < 0x40 && c < 0x40 && (lead == 0 ==> a >= 0x10) && (lead == 4 ==> a < 0x10)
    ensures
      && var v := lead * 0x4_0000 + a * 0x1000 + b * 0x40 + c;
      && Scalar(v) && Encode(v) == [0xF0 + lead, 0x80 + a, 0x80 + b, 0x80 + c]
  {
    SplitDigits((lead * 0x40 + a) * 0x40 + b, c);
    SplitDigits(lead * 0x40 + a, b);
    SplitDigits(lead, a);
  }

  /** Decoding a character and encoding it again gives the same bytes. */
  lemma DecodedEncodes(s: seq<byte>)
    requires s != [] && CharLen(s, 0) > 0
    ensures Scalar(Decode(s)) && Encode(Decode(s)) == s[..CharLen(s, 0)]
  {
    var k := CharLen(s, 0);
    if k == 2 {
      SplitDigits(s[0] - 0xC0, s[1] - 0x80);
    } else if k == 3 {
      EncodeThree(s[0] - 0xE0, s[1] - 0x80, s[2] - 0x80);
    } else if k == 4 {
      EncodeFour(s[0] - 0xF0, s[1] - 0x80, s[2] - 0x80, s[3] - 0x80);
    }
  }

  function DecodeAll(s: seq<byte>): (cs: seq<nat>)
    requires ValidUtf8(s)
  {
    if s == [] then []
    else
      CharValid(s);
      [Decode(s)] + DecodeAll(s[CharLen(s, 0)..])
  }

  lemma CharValid(s: seq<byte>)
    requires ValidUtf8(s) && s != []
    ensures CharLen(s, 0) > 0 && ValidUtf8(s[CharLen(s, 0)..])
  {
  }

  lemma EncodeAllCons(c: nat, cs: seq<nat>)
    requires Scalar(c) && AllScalar(cs)
    ensures AllScalar([c] + cs) && EncodeAll([c] + cs) == Encode(c) + EncodeAll(cs)
  {
    assert ([c] + cs)[1..] == cs;
  }

  /** Every valid text is the encoding of the scalar values it decodes to. */
  lemma {:induction false} DecodeRoundTrip(s: seq<byte>)
    requires ValidUtf8(s)
    ensures AllScalar(DecodeAll(s)) && EncodeAll(DecodeAll(s)) == s
    decreases |s|
  {
    if s != [] {
      CharValid(s);
      var k := CharLen(s, 0);
      DecodedEncodes(s);
      DecodeRoundTrip(s[k..]);
      EncodeAllCons(Decode(s), DecodeAll(s[k..]));
      assert s == s[..k] + s[k..];
    }
  }

  /** Every sequence of scalar values encodes to valid text. */
  lemma {:induction false} EncodedIsValid(cs: seq<nat>)
    requires AllScalar(cs)
    ensures ValidUtf8(EncodeAll(cs))
  {
    if cs != [] {
      EncodedIsValid(cs[1..]);
      var rest := EncodeAll(cs[1..]);
      EncodeIsChar(cs[0], rest);
      CharInFront(Encode(cs[0]) + rest, 0, rest);
      assert (Encode(cs[0]) + rest)[0..|Encode(cs[0])|] == Encode(cs[0]);
    }
  }

  /** The texts accepted are exactly the encodings of sequences of Unicode scalar values. */
  lemma ValidIffEncoded(s: seq<byte>)
    ensures ValidUtf8(s) <==> exists cs: seq<nat> :: AllScalar(cs) && EncodeAll(cs) == s
  {
    if ValidUtf8(s) {
      DecodeRoundTrip(s);
    }
    forall cs: seq<nat> | AllScalar(cs) && EncodeAll(cs) == s
      ensures ValidUtf8(s)
    {
      EncodedIsValid(cs);
    }
  }
}
