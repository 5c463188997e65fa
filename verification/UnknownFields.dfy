/** Fields that a message does not know: they are kept as they were read, groups nested in
    groups included, and written again behind the known ones. */
module UnknownFields {
  import opened Common
  import opened WireFormat

  /** Field numbers are what a 32-bit tag leaves room for, without 0. */
  type number = n: int | 1 <= n < 0x2000_0000 witness 1

  datatype Unknown =
    | AsVarint(number: number, value: uint64)
    | AsFixed64(number: number, long: uint64)
    | AsBytes(number: number, data: seq<byte>)
    | AsGroup(number: number, fields: seq<Unknown>)
    | AsFixed32(number: number, word: uint32)

  function WireType(u: Unknown): (t: nat)
    ensures t <= 5
  {
    match u
    case AsVarint(_, _) => 0
    case AsFixed64(_, _) => 1
    case AsBytes(_, _) => 2
    case AsGroup(_, _) => 3
    case AsFixed32(_, _) => 5
  }

  function Tag(u: Unknown): uint32 {
    8 * u.number + WireType(u)
  }

  function EndTag(n: number): uint32 {
    8 * n + 4
  }

  // ---------------------------------------------------------------------
  // Writing.

  /** What follows the tag. */
  function Body(u: Unknown): seq<byte>
    decreases u, 0
  {
    match u
    case AsVarint(_, v) => EncodeVarint(v)
    case AsFixed64(_, v) => EncodeFixed64(v)
    case AsBytes(_, data) => EncodeVarint(|data|) + data
    case AsGroup(n, fields) => SerializeUnknowns(fields) + EncodeVarint(EndTag(n))
    case AsFixed32(_, v) => EncodeFixed32(v)
  }

  function SerializeUnknown(u: Unknown): seq<byte>
    decreases u, 1
  {
    EncodeVarint(Tag(u)) + Body(u)
  }

  function SerializeUnknowns(us: seq<Unknown>): seq<byte>
    decreases us
  {
    if us == [] then [] else SerializeUnknown(us[0]) + SerializeUnknowns(us[1..])
  }

  // ---------------------------------------------------------------------
  // Reading, with as many levels of groups as are left.

  predicate EndsMessage(tag: uint32) {
    tag == 0 || tag % 8 == 4
  }

  /** A length and as many bytes. */
  function ReadBytes(data: seq<byte>): (r: Read<seq<byte>>)
    ensures r.Got? ==> |r.rest| < |data|
  {
    match ReadSize(data)
    case Bad => Bad
    case Got(n, rest) => if n > |rest| then Bad else Got(rest[..n], rest[n..])
  }

  /** FieldParser: the field behind its tag. */
  function ParseUnknown(tag: uint32, data: seq<byte>, depth: nat): (r: Read<Unknown>)
    ensures r.Got? ==> |r.rest| < |data|
    decreases |data|, 1
  {
    if tag < 8 then Bad
    else
      var n := tag / 8;
      match tag % 8
      case 0 =>
        (match ReadVarint64(data)
         case Bad => Bad
         case Got(v, rest) => Got(AsVarint(n, v), rest))
      case 1 => if |data| < 8 then Bad else Got(AsFixed64(n, DecodeFixed64(data[..8])), data[8..])
      case 2 =>
        (match ReadBytes(data)
         case Bad => Bad
         case Got(bytes, rest) => Got(AsBytes(n, bytes), rest))
      case 3 =>
        if depth == 0 then Bad
        else
          (match ParseGroup(n, data, depth - 1)
           case Bad => Bad
           case Got(fields, rest) => Got(AsGroup(n, fields), rest))
      case 5 => if |data| < 4 then Bad else Got(AsFixed32(n, DecodeFixed32(data[..4])), data[4..])
      case _ => Bad
  }

  /** WireFormatParser in a group: fields up to the end tag with the group's number. */
  function ParseGroup(n: number, data: seq<byte>, depth: nat): (r: Read<seq<Unknown>>)
    ensures r.Got? ==> |r.rest| < |data|
    decreases |data|, 0
  {
    match ReadTag(data)
    case Bad => Bad
    case Got(tag, rest) =>
      if EndsMessage(tag) then
        if tag == EndTag(n) then Got([], rest) else Bad
      else
        match ParseUnknown(tag, rest, depth)
        case Bad => Bad
        case Got(u, rest) =>
          match ParseGroup(n, rest, depth)
          case Bad => Bad
          case Got(us, rest) => Got([u] + us, rest)
  }

  // ---------------------------------------------------------------------
  // Reading what was written.

  /** Bytes are no longer than a length prefix may announce, and groups no deeper than
      the levels left. */
  predicate Fits(u: Unknown, depth: nat)
    decreases u
  {
    match u
    case AsBytes(_, data) => |data| <= MAX_SIZE
    case AsGroup(_, fields) => depth > 0 && AllFit(fields, depth - 1)
    case _ => true
  }

  predicate AllFit(us: seq<Unknown>, depth: nat)
    decreases us
  {
    us == [] || (Fits(us[0], depth) && AllFit(us[1..], depth))
  }

  /** How many groups are nested in each other. */
  function Levels(u: Unknown): nat
    decreases u
  {
    match u
    case AsGroup(_, fields) => 1 + MostLevels(fields)
    case _ => 0
  }

  function MostLevels(us: seq<Unknown>): nat
    decreases us
  {
    if us == [] then 0
    else if Levels(us[0]) > MostLevels(us[1..]) then Levels(us[0]) else MostLevels(us[1..])
  }

  /** No bytes in the field, or in a group of it, are too long. */
  predicate ShortBytes(u: Unknown)
    decreases u
  {
    match u
    case AsBytes(_, data) => |data| <= 0x7FFF_FFEF
    case AsGroup(_, fields) => AllShort(fields)
    case _ => true
  }

  predicate AllShort(us: seq<Unknown>)
    decreases us
  {
    us == [] || (ShortBytes(us[0]) && AllShort(us[1..]))
  }

  /** A field fits if and only if no bytes are too long and its groups are nested no deeper
      than there are levels left. */
  lemma {:induction false} FitsIff(u: Unknown, depth: nat)
    ensures Fits(u, depth) <==> ShortBytes(u) && Levels(u) <= depth
    decreases u, 0
  {
    match u
    case AsGroup(_, fields) =>
      if depth > 0 {
        AllFitIff(fields, depth - 1);
      }
    case _ =>
  }

  lemma {:induction false} AllFitIff(us: seq<Unknown>, depth: nat)
    ensures AllFit(us, depth) <==> AllShort(us) && MostLevels(us) <= depth
    decreases us, 1
  {
    if us != [] {
      FitsIff(us[0], depth);
      AllFitIff(us[1..], depth);
    }
  }

  /** The wire types, at one field of each kind: 1 for 64 bits, 3 and 4 around a group, 5 for
      32 bits, 2 for bytes and 0 for a varint. */
  lemma WireTypesExample()
    ensures
      SerializeUnknowns([AsFixed64(1, 0x0102_0304_0506_0708), AsGroup(2, [AsFixed32(3, 0x0A0B_0C0D)]),
                         AsBytes(4, [5]), AsVarint(16, 300)]) ==
      [9, 8, 7, 6, 5, 4, 3, 2, 1] + [19, 29, 0x0D, 0x0C, 0x0B, 0x0A, 20] + [34, 1, 5] + [128, 1, 172, 2]
  {
    var a, b, c, d := AsFixed64(1, 0x0102_0304_0506_0708), AsGroup(2, [AsFixed32(3, 0x0A0B_0C0D)]),
                      AsBytes(4, [5]), AsVarint(16, 300);
    var us := [a, b, c, d];
    assert SerializeUnknown(a) == [9, 8, 7, 6, 5, 4, 3, 2, 1];
    GroupExample();
    assert SerializeUnknown(c) == [34, 1, 5];
    assert EncodeVarint(128) == [128, 1] && EncodeVarint(300) == [172, 2];
    assert SerializeUnknown(d) == [128, 1, 172, 2];
    assert us[1..] == [b, c, d] && [b, c, d][1..] == [c, d] && [c, d][1..] == [d] && [d][1..] == [];
  }

  lemma OneUnknown(u: Unknown)
    ensures SerializeUnknowns([u]) == SerializeUnknown(u)
  {
    assert [u][1..] == [];
    EmptyLeft(SerializeUnknown(u));
  }

  lemma Fixed32Example()
    ensures SerializeUnknown(AsFixed32(3, 0x0A0B_0C0D)) == [29, 0x0D, 0x0C, 0x0B, 0x0A]
  {
    assert EncodeFixed32(0x0A0B_0C0D) == [0x0D, 0x0C, 0x0B, 0x0A];
  }

  lemma GroupExample()
    ensures SerializeUnknown(AsGroup(2, [AsFixed32(3, 0x0A0B_0C0D)])) == [19, 29, 0x0D, 0x0C, 0x0B, 0x0A, 20]
  {
    var f := AsFixed32(3, 0x0A0B_0C0D);
    Fixed32Example();
    OneUnknown(f);
    assert Body(AsGroup(2, [f])) == SerializeUnknowns([f]) + EncodeVarint(20);
  }

  lemma TagParts(u: Unknown)
    ensures Tag(u) >= 8 && Tag(u) / 8 == u.number && Tag(u) % 8 == WireType(u) && !EndsMessage(Tag(u))
  {
  }

  lemma ReadBytesWritten(data: seq<byte>, rest: seq<byte>)
    ensures ReadBytes(EncodeVarint(|data|) + data + rest) == if |data| <= MAX_SIZE then Got(data, rest) else Bad
  {
    Assoc(EncodeVarint(|data|), data, rest);
    ReadSizeEncoded(|data|, data + rest);
    TakeDrop(data, rest);
  }

  /** A field is read back from its bytes, whatever follows, if and only if it fits. */
  lemma {:induction false} ParseWritten(u: Unknown, rest: seq<byte>, depth: nat)
    ensures ParseUnknown(Tag(u), Body(u) + rest, depth) == if Fits(u, depth) then Got(u, rest) else Bad
    decreases u, 0
  {
    TagParts(u);
    match u
    case AsVarint(_, v) => ReadVarint64Encoded(v, rest);
    case AsFixed64(_, v) =>
      Fixed64RoundTrip(v);
      TakeDrop(EncodeFixed64(v), rest);
    case AsBytes(_, data) => ReadBytesWritten(data, rest);
    case AsGroup(n, fields) =>
      if depth > 0 {
        GroupWritten(n, fields, rest, depth - 1);
        Assoc(SerializeUnknowns(fields), EncodeVarint(EndTag(n)), rest);
      }
    case AsFixed32(_, v) =>
      Fixed32RoundTrip(v);
      TakeDrop(EncodeFixed32(v), rest);
  }

  /** A written field starts with its tag, which ends nothing. */
  lemma ReadWrittenTag(u: Unknown, more: seq<byte>)
    ensures ReadTag(SerializeUnknown(u) + more) == Got(Tag(u), Body(u) + more) && !EndsMessage(Tag(u))
  {
    Assoc(EncodeVarint(Tag(u)), Body(u), more);
    ReadTagEncoded(Tag(u), Body(u) + more);
    TagParts(u);
  }

  ghost function Prepended(u: Unknown, r: Read<seq<Unknown>>): Read<seq<Unknown>> {
    match r
    case Bad => Bad
    case Got(us, rest) => Got([u] + us, rest)
  }

  /** A group goes on behind its first field. */
  ghost function GoesOn(n: number, r: Read<Unknown>, depth: nat): Read<seq<Unknown>> {
    match r
    case Bad => Bad
    case Got(u, rest) => Prepended(u, ParseGroup(n, rest, depth))
  }

  lemma GroupGoesOn(n: number, data: seq<byte>, tag: uint32, body: seq<byte>, depth: nat)
    requires ReadTag(data) == Got(tag, body) && !EndsMessage(tag)
    ensures ParseGroup(n, data, depth) == GoesOn(n, ParseUnknown(tag, body, depth), depth)
  {
  }

  lemma GroupEnds(n: number, rest: seq<byte>, depth: nat)
    ensures ParseGroup(n, EncodeVarint(EndTag(n)) + rest, depth) == Got([], rest)
  {
    ReadTagEncoded(EndTag(n), rest);
  }

  lemma {:induction false} GroupWritten(n: number, us: seq<Unknown>, rest: seq<byte>, depth: nat)
    ensures
      ParseGroup(n, SerializeUnknowns(us) + (EncodeVarint(EndTag(n)) + rest), depth) ==
      if AllFit(us, depth) then Got(us, rest) else Bad
    decreases us
  {
    var end := EncodeVarint(EndTag(n)) + rest;
    if us == [] {
      EmptyLeft(end);
      GroupEnds(n, rest, depth);
    } else {
      var more := SerializeUnknowns(us[1..]) + end;
      Assoc(SerializeUnknown(us[0]), SerializeUnknowns(us[1..]), end);
      ReadWrittenTag(us[0], more);
      GroupGoesOn(n, SerializeUnknown(us[0]) + more, Tag(us[0]), Body(us[0]) + more, depth);
      ParseWritten(us[0], more, depth);
      GroupWritten(n, us[1..], rest, depth);
      assert [us[0]] + us[1..] == us;
    }
  }

  /** Whatever was read fits, and its tag is the one it was read with. */
  lemma {:induction false} ParsedFits(tag: uint32, data: seq<byte>, depth: nat)
    ensures
      match ParseUnknown(tag, data, depth)
      case Bad => true
      case Got(u, _) => Fits(u, depth) && Tag(u) == tag
    decreases |data|, 1
  {
    if tag >= 8 && tag % 8 == 3 && depth > 0 {
      GroupFits(tag / 8, data, depth - 1);
    }
  }

  lemma {:induction false} GroupFits(n: number, data: seq<byte>, depth: nat)
    ensures
      match ParseGroup(n, data, depth)
      case Bad => true
      case Got(us, _) => AllFit(us, depth)
    decreases |data|, 0
  {
    match ReadTag(data)
    case Bad =>
    case Got(tag, rest) =>
      if !EndsMessage(tag) {
        ParsedFits(tag, rest, depth);
        match ParseUnknown(tag, rest, depth)
        case Bad =>
        case Got(u, rest) =>
          GroupFits(n, rest, depth);
          match ParseGroup(n, rest, depth)
          case Bad =>
          case Got(us, _) => assert ([u] + us)[1..] == us;
      }
  }

  // ---------------------------------------------------------------------
  // Sizes. They are exact as long as they fit an int; larger ones are only known to be
  // too large, because lengths are cut to 32 bits on the way.

  ghost predicate SizeOf(computed: nat, exact: nat) {
    computed == exact || (computed > INT_MAX && exact > INT_MAX)
  }

  /** VarintSize32 of a length, cut to 32 bits. */
  function LengthSize(n: nat): nat {
    VarintSize(n % TWO_32)
  }

  lemma DelimitedSizeOf(size: nat, exact: nat)
    requires SizeOf(size, exact)
    ensures SizeOf(LengthSize(size) + size, |EncodeVarint(exact)| + exact)
  {
    if size == exact <= INT_MAX {
      SmallMod(size, TWO_32);
      VarintSizeIsLength(size);
    }
  }

  /** One case of ComputeUnknownFieldsSize. */
  method FieldSize(u: Unknown) returns (size: nat)
    ensures SizeOf(size, |SerializeUnknown(u)|)
    decreases u, 1
  {
    VarintSizeIsLength(Tag(u));
    match u {
      case AsVarint(_, v) =>
        VarintSizeIsLength(v);
        size := VarintSize(Tag(u)) + VarintSize(v);
      case AsFixed32(_, _) =>
        size := VarintSize(Tag(u)) + 4;
      case AsFixed64(_, _) =>
        size := VarintSize(Tag(u)) + 8;
      case AsBytes(_, data) =>
        DelimitedSizeOf(|data|, |data|);
        size := VarintSize(Tag(u)) + LengthSize(|data|) + |data|;
      case AsGroup(n, fields) =>
        VarintSizeIsLength(EndTag(n));
        size := ComputeUnknownFieldsSize(fields);
        size := VarintSize(Tag(u)) + size + VarintSize(EndTag(n));
    }
  }

  lemma SizeFrom(us: seq<Unknown>, i: nat)
    requires i < |us|
    ensures |SerializeUnknowns(us[i..])| == |SerializeUnknown(us[i])| + |SerializeUnknowns(us[i + 1..])|
  {
    assert us[i..][1..] == us[i + 1..];
  }

  method ComputeUnknownFieldsSize(us: seq<Unknown>) returns (size: nat)
    ensures SizeOf(size, |SerializeUnknowns(us)|)
    decreases us, 0
  {
    size := 0;
    var i := 0;
    ghost var exact: nat := 0;
    assert us[0..] == us;
    while i < |us|
      invariant 0 <= i <= |us|
      invariant SizeOf(size, exact) && exact + |SerializeUnknowns(us[i..])| == |SerializeUnknowns(us)|
    {
      var fieldSize := FieldSize(us[i]);
      SizeFrom(us, i);
      size := size + fieldSize;
      exact := exact + |SerializeUnknown(us[i])|;
      i := i + 1;
    }
  }

  /** One case of InternalSerializeUnknownFieldsToArray. */
  method WriteField(u: Unknown) returns (target: seq<byte>)
    ensures target == SerializeUnknown(u)
    decreases u, 1
  {
    target := EncodeVarint(Tag(u));
    match u {
      case AsVarint(_, v) =>
        target := target + EncodeVarint(v);
      case AsFixed32(_, v) =>
        target := target + EncodeFixed32(v);
      case AsFixed64(_, v) =>
        target := target + EncodeFixed64(v);
      case AsBytes(_, data) =>
        Assoc(target, EncodeVarint(|data|), data);
        target := target + EncodeVarint(|data|) + data;
      case AsGroup(n, fields) =>
        var group := InternalSerializeUnknownFields(fields);
        Assoc(target, group, EncodeVarint(EndTag(n)));
        target := target + group + EncodeVarint(EndTag(n));
    }
  }

  lemma WrittenFrom(us: seq<Unknown>, i: nat)
    requires i < |us|
    ensures SerializeUnknowns(us[i..]) == SerializeUnknown(us[i]) + SerializeUnknowns(us[i + 1..])
  {
    assert us[i..][1..] == us[i + 1..];
  }

  method InternalSerializeUnknownFields(us: seq<Unknown>) returns (target: seq<byte>)
    ensures target == SerializeUnknowns(us)
    decreases us, 0
  {
    target := [];
    var i := 0;
    assert us[0..] == us;
    EmptyLeft(SerializeUnknowns(us));
    while i < |us|
      invariant 0 <= i <= |us|
      invariant target + SerializeUnknowns(us[i..]) == SerializeUnknowns(us)
    {
      var field := WriteField(us[i]);
      WrittenFrom(us, i);
      Assoc(target, field, SerializeUnknowns(us[i + 1..]));
      target := target + field;
      i := i + 1;
    }
    EmptyLeft(target);
  }

  // ---------------------------------------------------------------------
  // Reading at a position.

  lemma SliceOfRest(data: seq<byte>, p: nat, n: nat)
    requires p <= |data| && n <= |data| - p
    ensures data[p..][..n] == data[p..p + n] && data[p..][n..] == data[p + n..]
  {
  }

  /** ReadSize and ReadString. */
  method ReadString(data: seq<byte>, p: nat) returns (ok: bool, s: seq<byte>, next: nat)
    requires p <= |data|
    ensures ReadAt(data, p, ReadBytes(data[p..]), ok, s, next)
  {
    var read, size, start := ReadSizeBytes(data, p);
    if !read || size > |data| - start {
      return false, [], p;
    }
    SliceOfRest(data, start, size);
    return true, data[start..start + size], start + size;
  }

  /** UnknownFieldParse, FieldParser: the field behind its tag. */
  method FieldParser(tag: uint32, data: seq<byte>, p: nat, depth: nat) returns (ok: bool, u: Unknown, next: nat)
    requires p <= |data| && !EndsMessage(tag)
    ensures ReadAt(data, p, ParseUnknown(tag, data[p..], depth), ok, u, next)
    decreases |data| - p, 1
  {
    ok, u, next := false, AsVarint(1, 0), p;
    if tag < 8 {
      return;
    }
    var n := tag / 8;
    match tag % 8 {
      case 0 =>
        var value;
        ok, value, next := VarintParse64(data, p);
        u := AsVarint(n, value);
      case 1 =>
        if |data| - p >= 8 {
          SliceOfRest(data, p, 8);
          return true, AsFixed64(n, DecodeFixed64(data[p..p + 8])), p + 8;
        }
      case 2 =>
        var bytes;
        ok, bytes, next := ReadString(data, p);
        u := AsBytes(n, bytes);
      case 3 =>
        if depth > 0 {
          var fields;
          ok, fields, next := UnknownGroupParse(n, data, p, depth - 1);
          u := AsGroup(n, fields);
        }
      case 5 =>
        if |data| - p >= 4 {
          SliceOfRest(data, p, 4);
          return true, AsFixed32(n, DecodeFixed32(data[p..p + 4])), p + 4;
        }
      case _ =>
    }
  }

  ghost function PrependedAll(us: seq<Unknown>, r: Read<seq<Unknown>>): Read<seq<Unknown>> {
    match r
    case Bad => Bad
    case Got(vs, rest) => Got(us + vs, rest)
  }

  lemma PrependedOne(us: seq<Unknown>, u: Unknown, r: Read<seq<Unknown>>)
    ensures PrependedAll(us, Prepended(u, r)) == PrependedAll(us + [u], r)
    ensures PrependedAll([], r) == r
  {
    if r.Got? {
      Assoc(us, [u], r.value);
      EmptyLeft(r.value);
    }
  }

  /** WireFormatParser in a group. */
  method UnknownGroupParse(n: number, data: seq<byte>, p: nat, depth: nat) returns (ok: bool, us: seq<Unknown>, next: nat)
    requires p <= |data|
    ensures ReadAt(data, p, ParseGroup(n, data[p..], depth), ok, us, next)
    decreases |data| - p, 0
  {
    us, next := [], p;
    PrependedOne([], AsVarint(n, 0), ParseGroup(n, data[p..], depth));
    while true
      invariant p <= next <= |data|
      invariant ParseGroup(n, data[p..], depth) == PrependedAll(us, ParseGroup(n, data[next..], depth))
      decreases |data| - next
    {
      var read, tag, body := ReadTagBytes(data, next);
      if !read {
        return false, us, p;
      }
      if EndsMessage(tag) {
        EmptyLeft(us);
        return tag == EndTag(n), us, body;
      }
      GroupGoesOn(n, data[next..], tag, data[body..], depth);
      var parsed, u, after := FieldParser(tag, data, body, depth);
      if !parsed {
        return false, us, p;
      }
      PrependedOne(us, u, ParseGroup(n, data[after..], depth));
      us, next := us + [u], after;
    }
  }
}
