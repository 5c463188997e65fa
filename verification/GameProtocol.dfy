/** The game messages BuffData and TEST_MSG as values: what their serializer
    writes, what their parser makes of any bytes, and how the two fit together. */
module GameProtocol {
  import opened Common
  import opened WireFormat
  import opened UnknownFields

  /** The default recursion limit of a parse. */
  const RECURSION_LIMIT := 100

  /** remainTime is kept as its raw bits, so that -0.0 and NaNs are told apart. */
  datatype Buff = Buff(buffId: uint64, remainTime: uint32, victims: seq<uint64>, unknown: seq<Unknown>)

  datatype TestMsg = TestMsg(id: uint64, hp: uint32, attack: uint32, buffs: seq<Buff>, msg: seq<byte>,
                             unknown: seq<Unknown>)

  const EMPTY_BUFF := Buff(0, 0, [], [])
  const EMPTY_MSG := TestMsg(0, 0, 0, [], [], [])

  /** Merging: fields of b that are set replace or extend those of a. */
  function MergeBuff(a: Buff, b: Buff): Buff {
    Buff(if b.buffId != 0 then b.buffId else a.buffId,
         if b.remainTime != 0 then b.remainTime else a.remainTime,
         a.victims + b.victims,
         a.unknown + b.unknown)
  }

  function MergeMsg(a: TestMsg, b: TestMsg): TestMsg {
    TestMsg(if b.id != 0 then b.id else a.id,
            if b.hp != 0 then b.hp else a.hp,
            if b.attack != 0 then b.attack else a.attack,
            a.buffs + b.buffs,
            if b.msg != [] then b.msg else a.msg,
            a.unknown + b.unknown)
  }

  // ---------------------------------------------------------------------
  // Serializing.

  function VarintField(tag: byte, v: nat): seq<byte> {
    if v != 0 then [tag] + EncodeVarint(v) else []
  }

  function FloatField(tag: byte, v: uint32): seq<byte> {
    if v != 0 then [tag] + EncodeFixed32(v) else []
  }

  function Delimited(tag: byte, payload: seq<byte>): seq<byte> {
    [tag] + EncodeVarint(|payload|) + payload
  }

  function PackedField(tag: byte, vs: seq<uint64>): seq<byte> {
    if EncodePacked(vs) != [] then Delimited(tag, EncodePacked(vs)) else []
  }

  function SerializeBuff(b: Buff): seq<byte> {
    VarintField(8, b.buffId) + FloatField(21, b.remainTime) + PackedField(26, b.victims)
    + SerializeUnknowns(b.unknown)
  }

  function SerializeBuffs(bs: seq<Buff>): seq<byte> {
    if bs == [] then [] else Delimited(34, SerializeBuff(bs[0])) + SerializeBuffs(bs[1..])
  }

  function StringField(tag: byte, s: seq<byte>): seq<byte> {
    if s != [] then Delimited(tag, s) else []
  }

  function SerializeMsg(m: TestMsg): seq<byte> {
    VarintField(8, m.id) + VarintField(16, m.hp) + VarintField(24, m.attack)
    + SerializeBuffs(m.buffs) + StringField(42, m.msg) + SerializeUnknowns(m.unknown)
  }

  /** SerializeToString and its relatives: nothing above INT_MAX is written. */
  function Written(m: TestMsg): Option<seq<byte>> {
    if |SerializeMsg(m)| > INT_MAX then None else Some(SerializeMsg(m))
  }

  // ---------------------------------------------------------------------
  // Parsing, with as many levels of nesting as are left. A parse fails on malformed bytes,
  // on nesting that is too deep, and when a message is ended by a tag instead of its limit.

  datatype Outcome<+M> = Done(m: M) | Failed

  /** What reading one field leads to: a changed message and the bytes after the field. */
  datatype Field<+M> = Next(m: M, rest: seq<byte>) | Malformed

  /** The tags of the fields that BuffData knows. */
  predicate BuffTag(tag: uint32) {
    tag == 8 || tag == 21 || tag == 24 || tag == 26
  }

  predicate MsgTag(tag: uint32) {
    tag == 8 || tag == 16 || tag == 24 || tag == 34 || tag == 42
  }

  function BuffField(data: seq<byte>, m: Buff, depth: nat): (r: Field<Buff>)
    ensures r.Next? ==> |r.rest| < |data|
  {
    match ReadTag(data)
    case Bad => Malformed
    case Got(tag, rest) =>
      if tag == 8 then
        match ReadVarint64(rest)
        case Bad => Malformed
        case Got(v, rest) => Next(m.(buffId := v), rest)
      else if tag == 21 then
        if |rest| < 4 then Malformed else Next(m.(remainTime := DecodeFixed32(rest[..4])), rest[4..])
      else if tag == 26 then PackedVictims(rest, m)
      else if tag == 24 then
        match ReadVarint64(rest)
        case Bad => Malformed
        case Got(v, rest) => Next(m.(victims := m.victims + [v]), rest)
      else if EndsMessage(tag) then Malformed
      else UnknownInBuff(tag, rest, m, depth)
  }

  /** A packed run of victims: its length and its bytes. */
  function PackedVictims(data: seq<byte>, m: Buff): (r: Field<Buff>)
    ensures r.Next? ==> |r.rest| < |data|
  {
    match ReadBytes(data)
    case Bad => Malformed
    case Got(payload, rest) =>
      match DecodePacked(payload)
      case None => Malformed
      case Some(vs) => Next(m.(victims := m.victims + vs), rest)
  }

  function UnknownInBuff(tag: uint32, data: seq<byte>, m: Buff, depth: nat): (r: Field<Buff>)
    ensures r.Next? ==> |r.rest| < |data|
  {
    match ParseUnknown(tag, data, depth)
    case Bad => Malformed
    case Got(u, rest) => Next(m.(unknown := m.unknown + [u]), rest)
  }

  function ParseBuff(data: seq<byte>, m: Buff, depth: nat): Outcome<Buff>
    decreases |data|
  {
    if data == [] then Done(m)
    else
      match BuffField(data, m, depth)
      case Malformed => Failed
      case Next(m', rest) => ParseBuff(rest, m', depth)
  }

  function MsgField(data: seq<byte>, m: TestMsg, depth: nat): (r: Field<TestMsg>)
    ensures r.Next? ==> |r.rest| < |data|
  {
    match ReadTag(data)
    case Bad => Malformed
    case Got(tag, rest) =>
      if tag == 8 then
        match ReadVarint64(rest)
        case Bad => Malformed
        case Got(v, rest) => Next(m.(id := v), rest)
      else if tag == 16 then
        match ReadVarint32(rest)
        case Bad => Malformed
        case Got(v, rest) => Next(m.(hp := v), rest)
      else if tag == 24 then
        match ReadVarint32(rest)
        case Bad => Malformed
        case Got(v, rest) => Next(m.(attack := v), rest)
      else if tag == 34 then BuffsElement(rest, m, depth)
      else if tag == 42 then TextOf(rest, m)
      else if EndsMessage(tag) then Malformed
      else UnknownInMsg(tag, rest, m, depth)
  }

  /** One element of `buffs`: its length and its bytes. */
  function BuffsElement(data: seq<byte>, m: TestMsg, depth: nat): (r: Field<TestMsg>)
    ensures r.Next? ==> |r.rest| < |data|
  {
    match ReadBytes(data)
    case Bad => Malformed
    case Got(payload, rest) =>
      if depth == 0 then Malformed
      else
        match ParseBuff(payload, EMPTY_BUFF, depth - 1)
        case Failed => Malformed
        case Done(b) => Next(m.(buffs := m.buffs + [b]), rest)
  }

  function TextOf(data: seq<byte>, m: TestMsg): (r: Field<TestMsg>)
    ensures r.Next? ==> |r.rest| < |data|
  {
    match ReadBytes(data)
    case Bad => Malformed
    case Got(s, rest) => if ValidUtf8(s) then Next(m.(msg := s), rest) else Malformed
  }

  function UnknownInMsg(tag: uint32, data: seq<byte>, m: TestMsg, depth: nat): (r: Field<TestMsg>)
    ensures r.Next? ==> |r.rest| < |data|
  {
    match ParseUnknown(tag, data, depth)
    case Bad => Malformed
    case Got(u, rest) => Next(m.(unknown := m.unknown + [u]), rest)
  }

  function ParseMsg(data: seq<byte>, m: TestMsg, depth: nat): Outcome<TestMsg>
    decreases |data|
  {
    if data == [] then Done(m)
    else
      match MsgField(data, m, depth)
      case Malformed => Failed
      case Next(m', rest) => ParseMsg(rest, m', depth)
  }

  // ---------------------------------------------------------------------
  // Which messages read back what they write.

  /** No unknown field has a tag that the buff knows. */
  predicate BuffForeign(b: Buff) {
    forall i :: 0 <= i < |b.unknown| ==> !BuffTag(Tag(b.unknown[i]))
  }

  predicate OfNoField(us: seq<Unknown>) {
    forall i :: 0 <= i < |us| ==> !MsgTag(Tag(us[i]))
  }

  predicate MsgForeign(m: TestMsg) {
    && (forall i :: 0 <= i < |m.buffs| ==> BuffForeign(m.buffs[i]))
    && OfNoField(m.unknown)
  }

  /** No part is longer than a length prefix may announce, or nested too deeply. */
  predicate BuffFits(b: Buff, depth: nat) {
    |EncodePacked(b.victims)| <= MAX_SIZE && AllFit(b.unknown, depth)
  }

  predicate ElementFits(b: Buff, depth: nat) {
    depth > 0 && |SerializeBuff(b)| <= MAX_SIZE && BuffFits(b, depth - 1)
  }

  predicate BuffsFit(bs: seq<Buff>, depth: nat) {
    forall i :: 0 <= i < |bs| ==> ElementFits(bs[i], depth)
  }

  predicate MsgFits(m: TestMsg, depth: nat) {
    && BuffsFit(m.buffs, depth)
    && |m.msg| <= MAX_SIZE && ValidUtf8(m.msg)
    && AllFit(m.unknown, depth)
  }

  /** What a caller can check before serializing: the total size fits an int, the text is
      UTF-8, the parts fit their length prefixes and the recursion limit, and no unknown
      field has a known tag. */
  predicate Readable(m: TestMsg, depth: nat) {
    |SerializeMsg(m)| <= INT_MAX && MsgFits(m, depth) && MsgForeign(m)
  }

  // ---------------------------------------------------------------------
  // Parsing one serialized field in front of anything else.

  lemma ReadDelimited(tag: byte, payload: seq<byte>, rest: seq<byte>)
    requires tag < 128
    ensures ReadTag(Delimited(tag, payload) + rest) == Got(tag, EncodeVarint(|payload|) + payload + rest)
    ensures ReadBytes(EncodeVarint(|payload|) + payload + rest) ==
            if |payload| <= MAX_SIZE then Got(payload, rest) else Bad
  {
    AssocLong([tag], EncodeVarint(|payload|), payload, rest);
    ReadTagOneByte(tag, EncodeVarint(|payload|) + payload + rest);
    ReadBytesWritten(payload, rest);
  }

  lemma ParseBuffId(v: uint64, rest: seq<byte>, m: Buff, depth: nat)
    ensures ParseBuff(VarintField(8, v) + rest, m, depth) ==
            ParseBuff(rest, if v != 0 then m.(buffId := v) else m, depth)
  {
    if v == 0 {
      EmptyLeft(rest);
    } else {
      assert VarintField(8, v) + rest == [8] + (EncodeVarint(v) + rest);
      ReadTagOneByte(8, EncodeVarint(v) + rest);
      ReadVarint64Encoded(v, rest);
    }
  }

  lemma ParseRemainTime(v: uint32, rest: seq<byte>, m: Buff, depth: nat)
    ensures ParseBuff(FloatField(21, v) + rest, m, depth) ==
            ParseBuff(rest, if v != 0 then m.(remainTime := v) else m, depth)
  {
    if v == 0 {
      EmptyLeft(rest);
    } else {
      var body := EncodeFixed32(v) + rest;
      assert FloatField(21, v) + rest == [21] + body;
      ReadTagOneByte(21, body);
      TakeDrop(EncodeFixed32(v), rest);
      Fixed32RoundTrip(v);
    }
  }

  lemma VictimsField(data: seq<byte>, body: seq<byte>, m: Buff, depth: nat)
    requires ReadTag(data) == Got(26, body)
    ensures BuffField(data, m, depth) == PackedVictims(body, m)
  {
  }

  lemma ParseVictims(vs: seq<uint64>, rest: seq<byte>, m: Buff, depth: nat)
    ensures ParseBuff(PackedField(26, vs) + rest, m, depth) ==
            if |EncodePacked(vs)| <= MAX_SIZE then ParseBuff(rest, m.(victims := m.victims + vs), depth) else Failed
  {
    var payload := EncodePacked(vs);
    PackedEmpty(vs);
    if payload == [] {
      EmptyLeft(rest);
      EmptyLeft(m.victims);
    } else {
      PackedRoundTrip(vs);
      ReadDelimited(26, payload, rest);
      VictimsField(Delimited(26, payload) + rest, EncodeVarint(|payload|) + payload + rest, m, depth);
    }
  }

  /** One victim under the tag of the encoding that is not packed, which the serializer
      never writes. */
  lemma ParseOneVictim(v: uint64, rest: seq<byte>, m: Buff, depth: nat)
    ensures ParseBuff([24] + EncodeVarint(v) + rest, m, depth) == ParseBuff(rest, m.(victims := m.victims + [v]), depth)
  {
    assert [24] + EncodeVarint(v) + rest == [24] + (EncodeVarint(v) + rest);
    ReadTagOneByte(24, EncodeVarint(v) + rest);
    ReadVarint64Encoded(v, rest);
  }

  /** A list of victims written one by one. */
  function Unpacked(vs: seq<uint64>): seq<byte> {
    if vs == [] then [] else [24] + EncodeVarint(vs[0]) + Unpacked(vs[1..])
  }

  lemma {:induction false} ParseUnpacked(vs: seq<uint64>, rest: seq<byte>, m: Buff, depth: nat)
    ensures ParseBuff(Unpacked(vs) + rest, m, depth) == ParseBuff(rest, m.(victims := m.victims + vs), depth)
  {
    if vs == [] {
      EmptyLeft(rest);
      EmptyLeft(m.victims);
    } else {
      Assoc([24] + EncodeVarint(vs[0]), Unpacked(vs[1..]), rest);
      ParseOneVictim(vs[0], Unpacked(vs[1..]) + rest, m, depth);
      ParseUnpacked(vs[1..], rest, m.(victims := m.victims + [vs[0]]), depth);
      AppendOne(m.victims, vs);
    }
  }

  /** Both encodings of a list are read alike, in the same order. */
  lemma PackedOrNot(vs: seq<uint64>, rest: seq<byte>, m: Buff, depth: nat)
    requires |EncodePacked(vs)| <= MAX_SIZE
    ensures ParseBuff(Unpacked(vs) + rest, m, depth) == ParseBuff(PackedField(26, vs) + rest, m, depth)
  {
    ParseUnpacked(vs, rest, m, depth);
    ParseVictims(vs, rest, m, depth);
  }

  lemma UnknownBuffField(u: Unknown, rest: seq<byte>, m: Buff, depth: nat)
    requires !BuffTag(Tag(u))
    ensures BuffField(SerializeUnknown(u) + rest, m, depth) ==
            if Fits(u, depth) then Next(m.(unknown := m.unknown + [u]), rest) else Malformed
  {
    ReadWrittenTag(u, rest);
    ParseWritten(u, rest, depth);
  }

  lemma {:induction false} ParseBuffUnknowns(us: seq<Unknown>, rest: seq<byte>, m: Buff, depth: nat)
    requires forall i :: 0 <= i < |us| ==> !BuffTag(Tag(us[i]))
    ensures ParseBuff(SerializeUnknowns(us) + rest, m, depth) ==
            if AllFit(us, depth) then ParseBuff(rest, m.(unknown := m.unknown + us), depth) else Failed
  {
    if us == [] {
      EmptyLeft(rest);
      EmptyLeft(m.unknown);
    } else {
      var more := SerializeUnknowns(us[1..]) + rest;
      Assoc(SerializeUnknown(us[0]), SerializeUnknowns(us[1..]), rest);
      UnknownBuffField(us[0], more, m, depth);
      ParseBuffUnknowns(us[1..], rest, m.(unknown := m.unknown + [us[0]]), depth);
      AppendOne(m.unknown, us);
    }
  }

  /** The known fields of a buff in front of its unknown ones. */
  lemma ParseKnownOfBuff(b: Buff, rest: seq<byte>, m: Buff, depth: nat)
    ensures ParseBuff(SerializeBuff(b) + rest, m, depth) ==
            if |EncodePacked(b.victims)| <= MAX_SIZE
            then ParseBuff(SerializeUnknowns(b.unknown) + rest, MergeBuff(m, b.(unknown := [])), depth)
            else Failed
  {
    var unknown := SerializeUnknowns(b.unknown) + rest;
    var victims := PackedField(26, b.victims) + unknown;
    var time := FloatField(21, b.remainTime) + victims;
    assert SerializeBuff(b) + rest == VarintField(8, b.buffId) + time;
    ParseBuffId(b.buffId, time, m, depth);
    var m1 := if b.buffId != 0 then m.(buffId := b.buffId) else m;
    ParseRemainTime(b.remainTime, victims, m1, depth);
    var m2 := if b.remainTime != 0 then m1.(remainTime := b.remainTime) else m1;
    ParseVictims(b.victims, unknown, m2, depth);
    EmptyLeft(m.unknown);
  }

  /** A buff's bytes are accepted if and only if its parts fit; they then merge into the
      message. */
  lemma ParseSerializedBuff(b: Buff, rest: seq<byte>, m: Buff, depth: nat)
    requires BuffForeign(b)
    ensures ParseBuff(SerializeBuff(b) + rest, m, depth) ==
            if BuffFits(b, depth) then ParseBuff(rest, MergeBuff(m, b), depth) else Failed
  {
    ParseKnownOfBuff(b, rest, m, depth);
    EmptyLeft(m.unknown);
    ParseBuffUnknowns(b.unknown, rest, MergeBuff(m, b.(unknown := [])), depth);
  }

  // ---------------------------------------------------------------------
  // An unknown field with a known tag is read as that field, so that it is no longer
  // unknown.

  lemma ReadClash(u: Unknown, rest: seq<byte>)
    ensures u.AsVarint? ==> ReadVarint64(Body(u) + rest) == Got(u.value, rest)
    ensures u.AsVarint? ==> ReadVarint32(Body(u) + rest) == Got(u.value % TWO_32, rest)
    ensures u.AsFixed32? ==> |Body(u) + rest| >= 4 && (Body(u) + rest)[4..] == rest
    ensures u.AsBytes? ==> ReadBytes(Body(u) + rest) == if |u.data| <= MAX_SIZE then Got(u.data, rest) else Bad
  {
    match u
    case AsVarint(_, v) => VarintOfWord(v, rest); ReadVarint64Encoded(v, rest);
    case AsFixed32(_, v) => TakeDrop(EncodeFixed32(v), rest);
    case AsBytes(_, data) => ReadBytesWritten(data, rest);
    case _ =>
  }

  /** How many unknown fields a message has gained when the parse of one is over. */
  ghost predicate Gains(before: nat, after: nat, known: bool) {
    after == if known then before else before + 1
  }

  lemma NumberOfBuff(data: seq<byte>, body: seq<byte>, tag: uint32, m: Buff, depth: nat)
    requires ReadTag(data) == Got(tag, body) && (tag == 8 || tag == 24)
    ensures match BuffField(data, m, depth)
            case Malformed => true
            case Next(r, left) => ReadVarint64(body).Got? && left == ReadVarint64(body).rest && r.unknown == m.unknown
  {
  }

  lemma FloatOfBuff(data: seq<byte>, body: seq<byte>, m: Buff, depth: nat)
    requires ReadTag(data) == Got(21, body)
    ensures match BuffField(data, m, depth)
            case Malformed => true
            case Next(r, left) => |body| >= 4 && left == body[4..] && r.unknown == m.unknown
  {
  }

  lemma PackedOfBuff(body: seq<byte>, m: Buff)
    ensures match PackedVictims(body, m)
            case Malformed => true
            case Next(r, left) => ReadBytes(body).Got? && left == ReadBytes(body).rest && r.unknown == m.unknown
  {
  }

  lemma KnownOfBuff(u: Unknown, rest: seq<byte>, m: Buff, depth: nat)
    requires BuffTag(Tag(u))
    ensures match BuffField(SerializeUnknown(u) + rest, m, depth)
            case Malformed => true
            case Next(r, left) => left == rest && r.unknown == m.unknown
  {
    ReadWrittenTag(u, rest);
    TagParts(u);
    ReadClash(u, rest);
    var data, body := SerializeUnknown(u) + rest, Body(u) + rest;
    if Tag(u) == 21 {
      FloatOfBuff(data, body, m, depth);
    } else if Tag(u) == 26 {
      VictimsField(data, body, m, depth);
      PackedOfBuff(body, m);
    } else {
      NumberOfBuff(data, body, Tag(u), m, depth);
    }
  }

  lemma OneUnknownOfBuff(u: Unknown, rest: seq<byte>, m: Buff, depth: nat)
    ensures match BuffField(SerializeUnknown(u) + rest, m, depth)
            case Malformed => true
            case Next(r, left) => left == rest && Gains(|m.unknown|, |r.unknown|, BuffTag(Tag(u)))
  {
    if BuffTag(Tag(u)) {
      KnownOfBuff(u, rest, m, depth);
    } else {
      UnknownBuffField(u, rest, m, depth);
    }
  }

  lemma {:induction false} UnknownsOfBuff(us: seq<Unknown>, m: Buff, depth: nat)
    ensures match ParseBuff(SerializeUnknowns(us), m, depth)
            case Failed => true
            case Done(r) =>
              && |r.unknown| <= |m.unknown| + |us|
              && (|r.unknown| == |m.unknown| + |us| ==> forall i :: 0 <= i < |us| ==> !BuffTag(Tag(us[i])))
  {
    if us != [] {
      var more := SerializeUnknowns(us[1..]);
      OneUnknownOfBuff(us[0], more, m, depth);
      match BuffField(SerializeUnknown(us[0]) + more, m, depth)
      case Malformed =>
      case Next(r, _) => UnknownsOfBuff(us[1..], r, depth);
    }
  }

  /** Any serialized buff, parsed into any other: the result is MergeFrom of the two if and
      only if its parts fit and no unknown field has a known tag. */
  lemma BuffMergesIff(b: Buff, m: Buff, depth: nat)
    ensures ParseBuff(SerializeBuff(b), m, depth) == Done(MergeBuff(m, b)) <==> BuffFits(b, depth) && BuffForeign(b)
  {
    EmptyLeft(SerializeBuff(b));
    if BuffForeign(b) {
      ParseSerializedBuff(b, [], m, depth);
    } else {
      EmptyLeft(SerializeUnknowns(b.unknown));
      EmptyLeft(m.unknown);
      ParseKnownOfBuff(b, [], m, depth);
      UnknownsOfBuff(b.unknown, MergeBuff(m, b.(unknown := [])), depth);
    }
  }

  lemma MergeIntoEmptyBuff(b: Buff)
    ensures MergeBuff(EMPTY_BUFF, b) == b
  {
    EmptyLeft(b.victims);
    EmptyLeft(b.unknown);
  }

  lemma ForeignBuffRoundTrip(b: Buff, depth: nat)
    requires BuffForeign(b)
    ensures ParseBuff(SerializeBuff(b), EMPTY_BUFF, depth) == if BuffFits(b, depth) then Done(b) else Failed
  {
    EmptyLeft(SerializeBuff(b));
    MergeIntoEmptyBuff(b);
    ParseSerializedBuff(b, [], EMPTY_BUFF, depth);
  }

  /** So every buff is read back as it was written exactly if its parts fit and no unknown
      field has a known tag; any raw float bits survive. */
  lemma BuffRoundTripIff(b: Buff, depth: nat)
    ensures ParseBuff(SerializeBuff(b), EMPTY_BUFF, depth) == Done(b) <==> BuffFits(b, depth) && BuffForeign(b)
  {
    MergeIntoEmptyBuff(b);
    BuffMergesIff(b, EMPTY_BUFF, depth);
  }

  // ---------------------------------------------------------------------
  // The same for the outer message.

  lemma ParseId(v: uint64, rest: seq<byte>, m: TestMsg, depth: nat)
    ensures ParseMsg(VarintField(8, v) + rest, m, depth) ==
            ParseMsg(rest, if v != 0 then m.(id := v) else m, depth)
  {
    if v == 0 {
      EmptyLeft(rest);
    } else {
      assert VarintField(8, v) + rest == [8] + (EncodeVarint(v) + rest);
      ReadTagOneByte(8, EncodeVarint(v) + rest);
      ReadVarint64Encoded(v, rest);
    }
  }

  lemma ParseHp(v: uint32, rest: seq<byte>, m: TestMsg, depth: nat)
    ensures ParseMsg(VarintField(16, v) + rest, m, depth) ==
            ParseMsg(rest, if v != 0 then m.(hp := v) else m, depth)
  {
    if v == 0 {
      EmptyLeft(rest);
    } else {
      assert VarintField(16, v) + rest == [16] + (EncodeVarint(v) + rest);
      ReadTagOneByte(16, EncodeVarint(v) + rest);
      ReadVarint32Encoded(v, rest);
    }
  }

  lemma ParseAttack(v: uint32, rest: seq<byte>, m: TestMsg, depth: nat)
    ensures ParseMsg(VarintField(24, v) + rest, m, depth) ==
            ParseMsg(rest, if v != 0 then m.(attack := v) else m, depth)
  {
    if v == 0 {
      EmptyLeft(rest);
    } else {
      assert VarintField(24, v) + rest == [24] + (EncodeVarint(v) + rest);
      ReadTagOneByte(24, EncodeVarint(v) + rest);
      ReadVarint32Encoded(v, rest);
    }
  }

  lemma BuffsField(data: seq<byte>, body: seq<byte>, m: TestMsg, depth: nat)
    requires ReadTag(data) == Got(34, body)
    ensures MsgField(data, m, depth) == BuffsElement(body, m, depth)
  {
  }

  /** The message with the buff that the parse of an element gave. */
  ghost function Appended(m: TestMsg, o: Outcome<Buff>, rest: seq<byte>): Field<TestMsg> {
    match o
    case Failed => Malformed
    case Done(b) => Next(m.(buffs := m.buffs + [b]), rest)
  }

  lemma ParseOneBuff(b: Buff, rest: seq<byte>, m: TestMsg, depth: nat)
    ensures MsgField(Delimited(34, SerializeBuff(b)) + rest, m, depth) ==
            if |SerializeBuff(b)| > MAX_SIZE || depth == 0 then Malformed
            else Appended(m, ParseBuff(SerializeBuff(b), EMPTY_BUFF, depth - 1), rest)
  {
    var payload := SerializeBuff(b);
    ReadDelimited(34, payload, rest);
    BuffsField(Delimited(34, payload) + rest, EncodeVarint(|payload|) + payload + rest, m, depth);
  }

  predicate BuffsForeign(bs: seq<Buff>) {
    forall i :: 0 <= i < |bs| ==> BuffForeign(bs[i])
  }

  lemma BuffsCons(bs: seq<Buff>, depth: nat)
    requires bs != []
    ensures BuffsFit(bs, depth) == (ElementFits(bs[0], depth) && BuffsFit(bs[1..], depth))
    ensures BuffsForeign(bs) == (BuffForeign(bs[0]) && BuffsForeign(bs[1..]))
  {
    assert forall i :: 0 <= i < |bs[1..]| ==> bs[1..][i] == bs[i + 1];
    assert forall i :: 0 < i < |bs| ==> bs[i] == bs[1..][i - 1];
  }

  /** What an element is read back as, if it is. */
  ghost function Reparse(b: Buff, depth: nat): Outcome<Buff> {
    if |SerializeBuff(b)| > MAX_SIZE || depth == 0 then Failed
    else ParseBuff(SerializeBuff(b), EMPTY_BUFF, depth - 1)
  }

  lemma ReparsedIff(b: Buff, depth: nat)
    ensures Reparse(b, depth) == Done(b) <==> ElementFits(b, depth) && BuffForeign(b)
  {
    if depth > 0 {
      BuffRoundTripIff(b, depth - 1);
    }
  }

  lemma ReparsedBuff(b: Buff, rest: seq<byte>, m: TestMsg, depth: nat)
    ensures MsgField(Delimited(34, SerializeBuff(b)) + rest, m, depth) == Appended(m, Reparse(b, depth), rest)
  {
    ParseOneBuff(b, rest, m, depth);
  }

  lemma ForeignReparse(b: Buff, depth: nat)
    requires BuffForeign(b)
    ensures Reparse(b, depth) == if ElementFits(b, depth) then Done(b) else Failed
  {
    if depth > 0 {
      ForeignBuffRoundTrip(b, depth - 1);
    }
  }

  /** An element comes back as it was, or the parse fails, if no unknown field has a known tag. */
  lemma ParseForeignBuff(b: Buff, rest: seq<byte>, m: TestMsg, depth: nat)
    requires BuffForeign(b)
    ensures MsgField(Delimited(34, SerializeBuff(b)) + rest, m, depth) ==
            if ElementFits(b, depth) then Next(m.(buffs := m.buffs + [b]), rest) else Malformed
  {
    ReparsedBuff(b, rest, m, depth);
    ForeignReparse(b, depth);
    AppendedDone(m, b, rest);
  }

  lemma AppendedDone(m: TestMsg, b: Buff, rest: seq<byte>)
    ensures Appended(m, Done(b), rest) == Next(m.(buffs := m.buffs + [b]), rest)
    ensures Appended(m, Failed, rest) == Malformed
  {
  }

  lemma {:induction false} ParseBuffs(bs: seq<Buff>, rest: seq<byte>, m: TestMsg, depth: nat)
    requires BuffsForeign(bs)
    ensures ParseMsg(SerializeBuffs(bs) + rest, m, depth) ==
            if BuffsFit(bs, depth) then ParseMsg(rest, m.(buffs := m.buffs + bs), depth) else Failed
  {
    if bs == [] {
      EmptyLeft(rest);
      EmptyLeft(m.buffs);
    } else {
      var more := SerializeBuffs(bs[1..]) + rest;
      Assoc(Delimited(34, SerializeBuff(bs[0])), SerializeBuffs(bs[1..]), rest);
      BuffsCons(bs, depth);
      ParseForeignBuff(bs[0], more, m, depth);
      ParseBuffs(bs[1..], rest, m.(buffs := m.buffs + [bs[0]]), depth);
      AppendOne(m.buffs, bs);
    }
  }

  /** The parse has failed or has gone on with these buffs. */
  ghost predicate WentOn(o: Outcome<TestMsg>, rest: seq<byte>, m: TestMsg, cs: seq<Buff>, depth: nat) {
    o == Failed || o == ParseMsg(rest, m.(buffs := m.buffs + cs), depth)
  }

  /** Any buffs: if the parse gets past them, it has as many, and the same ones exactly if
      they all fit and have no unknown field with a known tag. */
  lemma {:induction false} ReparsedBuffs(bs: seq<Buff>, rest: seq<byte>, m: TestMsg, depth: nat) returns (cs: seq<Buff>)
    ensures |cs| == |bs| && WentOn(ParseMsg(SerializeBuffs(bs) + rest, m, depth), rest, m, cs, depth)
    ensures ParseMsg(SerializeBuffs(bs) + rest, m, depth) != Failed ==>
              (cs == bs <==> BuffsFit(bs, depth) && BuffsForeign(bs))
  {
    if bs == [] {
      EmptyLeft(rest);
      EmptyLeft(m.buffs);
      cs := [];
    } else {
      var more := SerializeBuffs(bs[1..]) + rest;
      Assoc(Delimited(34, SerializeBuff(bs[0])), SerializeBuffs(bs[1..]), rest);
      BuffsCons(bs, depth);
      ReparsedBuff(bs[0], more, m, depth);
      ReparsedIff(bs[0], depth);
      match Reparse(bs[0], depth)
      case Failed => cs := bs;
      case Done(c) =>
        var ds := ReparsedBuffs(bs[1..], rest, m.(buffs := m.buffs + [c]), depth);
        cs := [c] + ds;
        Assoc(m.buffs, [c], ds);
        assert cs[1..] == ds && bs == [bs[0]] + bs[1..];
    }
  }

  lemma TextField(data: seq<byte>, body: seq<byte>, m: TestMsg, depth: nat)
    requires ReadTag(data) == Got(42, body)
    ensures MsgField(data, m, depth) == TextOf(body, m)
  {
  }

  lemma ParseText(s: seq<byte>, rest: seq<byte>, m: TestMsg, depth: nat)
    ensures ParseMsg(StringField(42, s) + rest, m, depth) ==
            if |s| <= MAX_SIZE && ValidUtf8(s) then ParseMsg(rest, if s != [] then m.(msg := s) else m, depth) else Failed
  {
    if s == [] {
      EmptyLeft(rest);
    } else {
      ReadDelimited(42, s, rest);
      TextField(Delimited(42, s) + rest, EncodeVarint(|s|) + s + rest, m, depth);
    }
  }

  lemma UnknownMsgField(u: Unknown, rest: seq<byte>, m: TestMsg, depth: nat)
    requires !MsgTag(Tag(u))
    ensures MsgField(SerializeUnknown(u) + rest, m, depth) ==
            if Fits(u, depth) then Next(m.(unknown := m.unknown + [u]), rest) else Malformed
  {
    ReadWrittenTag(u, rest);
    ParseWritten(u, rest, depth);
  }

  lemma {:induction false} ParseMsgUnknowns(us: seq<Unknown>, rest: seq<byte>, m: TestMsg, depth: nat)
    requires OfNoField(us)
    ensures ParseMsg(SerializeUnknowns(us) + rest, m, depth) ==
            if AllFit(us, depth) then ParseMsg(rest, m.(unknown := m.unknown + us), depth) else Failed
  {
    if us == [] {
      EmptyLeft(rest);
      EmptyLeft(m.unknown);
    } else {
      var more := SerializeUnknowns(us[1..]) + rest;
      Assoc(SerializeUnknown(us[0]), SerializeUnknowns(us[1..]), rest);
      UnknownMsgField(us[0], more, m, depth);
      ParseMsgUnknowns(us[1..], rest, m.(unknown := m.unknown + [us[0]]), depth);
      AppendOne(m.unknown, us);
    }
  }

  /** A field was read without touching the unknown ones, up to where its value ends. */
  ghost predicate KnownField<T>(field: Field<TestMsg>, m: TestMsg, value: Read<T>) {
    match field
    case Malformed => true
    case Next(r, left) => value.Got? && left == value.rest && r.unknown == m.unknown
  }

  lemma NumberOfMsg(data: seq<byte>, body: seq<byte>, tag: uint32, m: TestMsg, depth: nat)
    requires ReadTag(data) == Got(tag, body)
    ensures tag == 8 ==> KnownField(MsgField(data, m, depth), m, ReadVarint64(body))
    ensures tag == 16 || tag == 24 ==> KnownField(MsgField(data, m, depth), m, ReadVarint32(body))
  {
  }

  lemma ElementOfMsg(body: seq<byte>, m: TestMsg, depth: nat)
    ensures KnownField(BuffsElement(body, m, depth), m, ReadBytes(body))
    ensures KnownField(TextOf(body, m), m, ReadBytes(body))
  {
  }

  lemma OtherOfMsg(data: seq<byte>, body: seq<byte>, tag: uint32, m: TestMsg, depth: nat)
    requires ReadTag(data) == Got(tag, body) && !MsgTag(tag) && !EndsMessage(tag)
    ensures MsgField(data, m, depth) == UnknownInMsg(tag, body, m, depth)
  {
  }

  lemma KnownOfMsg(u: Unknown, rest: seq<byte>, m: TestMsg, depth: nat)
    requires MsgTag(Tag(u))
    ensures u.AsVarint? || u.AsBytes?
    ensures u.AsVarint? && Tag(u) == 8 ==>
              KnownField(MsgField(SerializeUnknown(u) + rest, m, depth), m, ReadVarint64(Body(u) + rest))
    ensures u.AsVarint? && Tag(u) != 8 ==>
              KnownField(MsgField(SerializeUnknown(u) + rest, m, depth), m, ReadVarint32(Body(u) + rest))
    ensures u.AsBytes? ==> KnownField(MsgField(SerializeUnknown(u) + rest, m, depth), m, ReadBytes(Body(u) + rest))
  {
    ReadWrittenTag(u, rest);
    TagParts(u);
    var data, body := SerializeUnknown(u) + rest, Body(u) + rest;
    if Tag(u) == 34 {
      BuffsField(data, body, m, depth);
      ElementOfMsg(body, m, depth);
    } else if Tag(u) == 42 {
      TextField(data, body, m, depth);
      ElementOfMsg(body, m, depth);
    } else {
      NumberOfMsg(data, body, Tag(u), m, depth);
    }
  }

  lemma OneUnknownOfMsg(u: Unknown, rest: seq<byte>, m: TestMsg, depth: nat)
    ensures match MsgField(SerializeUnknown(u) + rest, m, depth)
            case Malformed => true
            case Next(r, left) => left == rest && Gains(|m.unknown|, |r.unknown|, MsgTag(Tag(u)))
  {
    if MsgTag(Tag(u)) {
      KnownOfMsg(u, rest, m, depth);
      ReadClash(u, rest);
    } else {
      UnknownMsgField(u, rest, m, depth);
    }
  }

  lemma {:induction false} UnknownsOfMsg(us: seq<Unknown>, m: TestMsg, depth: nat)
    ensures match ParseMsg(SerializeUnknowns(us), m, depth)
            case Failed => true
            case Done(r) =>
              && |r.unknown| <= |m.unknown| + |us|
              && (|r.unknown| == |m.unknown| + |us| ==> OfNoField(us))
  {
    if us != [] {
      var more := SerializeUnknowns(us[1..]);
      OneUnknownOfMsg(us[0], more, m, depth);
      match MsgField(SerializeUnknown(us[0]) + more, m, depth)
      case Malformed =>
      case Next(r, _) => UnknownsOfMsg(us[1..], r, depth);
    }
  }

  // ---------------------------------------------------------------------
  // Main results.

  lemma Regroup<T>(a: seq<T>, b: seq<T>, c: seq<T>, d: seq<T>, e: seq<T>, f: seq<T>, rest: seq<T>)
    ensures a + b + c + d + e + f + rest == a + (b + (c + (d + (e + (f + rest)))))
  {
  }

  ghost function WithScalars(m: TestMsg, b: TestMsg): TestMsg {
    m.(id := if b.id != 0 then b.id else m.id,
       hp := if b.hp != 0 then b.hp else m.hp,
       attack := if b.attack != 0 then b.attack else m.attack)
  }

  /** The number fields of a message in front of the rest of its bytes. */
  lemma ParseScalars(b: TestMsg, rest: seq<byte>, m: TestMsg, depth: nat)
    ensures ParseMsg(SerializeMsg(b) + rest, m, depth) ==
            ParseMsg(SerializeBuffs(b.buffs) + (StringField(42, b.msg) + (SerializeUnknowns(b.unknown) + rest)),
                     WithScalars(m, b), depth)
  {
    var buffs := SerializeBuffs(b.buffs) + (StringField(42, b.msg) + (SerializeUnknowns(b.unknown) + rest));
    var attack := VarintField(24, b.attack) + buffs;
    var hp := VarintField(16, b.hp) + attack;
    Regroup(VarintField(8, b.id), VarintField(16, b.hp), VarintField(24, b.attack), SerializeBuffs(b.buffs),
            StringField(42, b.msg), SerializeUnknowns(b.unknown), rest);
    ParseId(b.id, hp, m, depth);
    var m1 := if b.id != 0 then m.(id := b.id) else m;
    ParseHp(b.hp, attack, m1, depth);
    var m2 := if b.hp != 0 then m1.(hp := b.hp) else m1;
    ParseAttack(b.attack, buffs, m2, depth);
  }

  /** Parsing a serialized message in front of anything merges it into the message
      being parsed, or fails if its parts do not fit. */
  lemma ParseSerializedMsg(b: TestMsg, rest: seq<byte>, m: TestMsg, depth: nat)
    requires MsgForeign(b)
    ensures ParseMsg(SerializeMsg(b) + rest, m, depth) ==
            if MsgFits(b, depth) then ParseMsg(rest, MergeMsg(m, b), depth) else Failed
  {
    var unknown := SerializeUnknowns(b.unknown) + rest;
    ParseScalars(b, rest, m, depth);
    var m1 := WithScalars(m, b);
    ParseBuffs(b.buffs, StringField(42, b.msg) + unknown, m1, depth);
    var m2 := m1.(buffs := m1.buffs + b.buffs);
    ParseText(b.msg, unknown, m2, depth);
    ParseMsgUnknowns(b.unknown, rest, if b.msg != [] then m2.(msg := b.msg) else m2, depth);
  }

  /** The known fields of b merged into m, with these elements for those of b. */
  ghost function WithKnown(m: TestMsg, b: TestMsg, cs: seq<Buff>): TestMsg {
    MergeMsg(m, b.(buffs := cs, unknown := []))
  }

  /** A message of any kind: if its known fields are got over, the unknown ones are left. */
  lemma ReparsedMsg(b: TestMsg, m: TestMsg, depth: nat) returns (cs: seq<Buff>)
    ensures |cs| == |b.buffs|
    ensures ParseMsg(SerializeMsg(b), m, depth) != Failed ==>
              && (cs == b.buffs <==> BuffsFit(b.buffs, depth) && BuffsForeign(b.buffs))
              && |b.msg| <= MAX_SIZE && ValidUtf8(b.msg)
              && ParseMsg(SerializeMsg(b), m, depth) ==
                 ParseMsg(SerializeUnknowns(b.unknown), WithKnown(m, b, cs), depth)
  {
    EmptyLeft(SerializeMsg(b));
    EmptyLeft(SerializeUnknowns(b.unknown));
    EmptyLeft(m.unknown);
    ParseScalars(b, [], m, depth);
    var m1 := WithScalars(m, b);
    cs := ReparsedBuffs(b.buffs, StringField(42, b.msg) + SerializeUnknowns(b.unknown), m1, depth);
    ParseText(b.msg, SerializeUnknowns(b.unknown), m1.(buffs := m1.buffs + cs), depth);
  }

  lemma KnownAndUnknown(m: TestMsg, b: TestMsg, cs: seq<Buff>)
    requires |cs| == |b.buffs|
    ensures WithKnown(m, b, cs).(unknown := m.unknown + b.unknown) == MergeMsg(m, b) <==> cs == b.buffs
    ensures WithKnown(m, b, cs).unknown == m.unknown
  {
    EmptyLeft(m.unknown);
    SameTail(m.buffs, cs, b.buffs);
  }

  lemma SameTail<T>(front: seq<T>, x: seq<T>, y: seq<T>)
    ensures front + x == front + y <==> x == y
  {
    if front + x == front + y {
      assert x == (front + x)[|front|..];
      assert y == (front + y)[|front|..];
    }
  }

  /** Any serialized message, parsed into any other: the result is MergeFrom of the two if
      and only if its parts fit and no unknown field has a known tag. */
  lemma MergesIff(b: TestMsg, m: TestMsg, depth: nat)
    ensures ParseMsg(SerializeMsg(b), m, depth) == Done(MergeMsg(m, b)) <==> MsgFits(b, depth) && MsgForeign(b)
  {
    if MsgForeign(b) {
      EmptyLeft(SerializeMsg(b));
      ParseSerializedMsg(b, [], m, depth);
    } else {
      var cs := ReparsedMsg(b, m, depth);
      KnownAndUnknown(m, b, cs);
      var m1 := WithKnown(m, b, cs);
      UnknownsOfMsg(b.unknown, m1, depth);
      if OfNoField(b.unknown) {
        EmptyLeft(SerializeUnknowns(b.unknown));
        ParseMsgUnknowns(b.unknown, [], m1, depth);
      }
    }
  }

  lemma MergeIntoEmpty(m: TestMsg)
    ensures MergeMsg(EMPTY_MSG, m) == m
  {
    EmptyLeft(m.buffs);
    EmptyLeft(m.unknown);
  }

  /** What is written reads back as the same message if and only if it is readable: the
      writer refuses what is too long in total, and the parser everything else. */
  lemma RoundTripIff(m: TestMsg, depth: nat)
    ensures Written(m).None? <==> |SerializeMsg(m)| > INT_MAX
    ensures Written(m).Some? && ParseMsg(Written(m).value, EMPTY_MSG, depth) == Done(m) <==> Readable(m, depth)
  {
    MergeIntoEmpty(m);
    MergesIff(m, EMPTY_MSG, depth);
  }

  lemma PackedWithin(b: Buff)
    ensures |EncodePacked(b.victims)| <= |SerializeBuff(b)|
  {
  }

  lemma ElementFitsIff(b: Buff, depth: nat)
    ensures ElementFits(b, depth) <==>
      |SerializeBuff(b)| <= 0x7FFF_FFEF && AllShort(b.unknown) && MostLevels(b.unknown) + 1 <= depth
  {
    PackedWithin(b);
    if depth > 0 {
      AllFitIff(b.unknown, depth - 1);
    }
  }

  /** Which messages are readable, in full: no more than INT_MAX bytes; a text that is UTF-8;
      no text, element or bytes longer than INT_MAX - 16; an element takes one level, and
      each group one more; and no unknown field has a tag that its message knows. */
  lemma ReadableIff(m: TestMsg, depth: nat)
    ensures Readable(m, depth) == (
      && |SerializeMsg(m)| <= 0x7FFF_FFFF && |m.msg| <= 0x7FFF_FFEF && ValidUtf8(m.msg)
      && AllShort(m.unknown) && MostLevels(m.unknown) <= depth
      && (forall i :: 0 <= i < |m.unknown| ==> Tag(m.unknown[i]) !in {8, 16, 24, 34, 42})
      && (forall i :: 0 <= i < |m.buffs| ==> ReadableElement(m.buffs[i], depth)))
  {
    AllFitIff(m.unknown, depth);
    forall i | 0 <= i < |m.buffs|
      ensures ReadableElement(m.buffs[i], depth) == (ElementFits(m.buffs[i], depth) && BuffForeign(m.buffs[i]))
    {
      ElementFitsIff(m.buffs[i], depth);
    }
  }

  ghost predicate ReadableElement(b: Buff, depth: nat) {
    && |SerializeBuff(b)| <= 0x7FFF_FFEF && AllShort(b.unknown) && MostLevels(b.unknown) + 1 <= depth
    && forall i :: 0 <= i < |b.unknown| ==> Tag(b.unknown[i]) !in {8, 21, 24, 26}
  }

  /** A text that is not UTF-8 is written but refused by the parser. */
  lemma NotUtf8Example(depth: nat)
    ensures var m := EMPTY_MSG.(msg := [0x80]);
      Written(m).Some? && ParseMsg(Written(m).value, EMPTY_MSG, depth) == Failed
  {
    var m := EMPTY_MSG.(msg := [0x80]);
    assert !ValidUtf8(m.msg);
    assert SerializeMsg(m) == [42] + EncodeVarint(1) + [0x80];
    EmptyLeft(SerializeMsg(m));
    ParseSerializedMsg(m, [], EMPTY_MSG, depth);
  }

  lemma {:induction false} ZerosAreUtf8(n: nat)
    ensures ValidUtf8(seq(n, i => 0))
  {
    if n > 0 {
      ZerosAreUtf8(n - 1);
      assert seq(n, i => 0)[1..] == seq(n - 1, i => 0);
    }
  }

  /** A text of the greatest length a prefix may announce, with two more fields set, has
      parts that all fit, but is refused by the writer. */
  lemma TooLongExample(depth: nat)
    ensures var m := EMPTY_MSG.(hp := 0x1000_0000, attack := 0x1000_0000, msg := seq(MAX_SIZE, i => 0));
      MsgFits(m, depth) && MsgForeign(m) && Written(m).None?
  {
    var m := EMPTY_MSG.(hp := 0x1000_0000, attack := 0x1000_0000, msg := seq(MAX_SIZE, i => 0));
    ZerosAreUtf8(MAX_SIZE);
    assert |EncodeVarint(0x1000_0000)| == 5 by {
      assert |EncodeVarint(1)| == 1 && |EncodeVarint(0x80)| == 2 && |EncodeVarint(0x4000)| == 3;
      assert |EncodeVarint(0x20_0000)| == 4;
    }
    assert |EncodeVarint(MAX_SIZE)| == 5 by {
      assert |EncodeVarint(7)| == 1 && |EncodeVarint(0x3FF)| == 2 && |EncodeVarint(0x1_FFFF)| == 3;
      assert |EncodeVarint(0xFF_FFFF)| == 4;
    }
    assert |m.msg| == MAX_SIZE;
    assert |SerializeMsg(m)| >= |VarintField(16, m.hp)| + |VarintField(24, m.attack)| + |StringField(42, m.msg)|;
  }

  // ---------------------------------------------------------------------
  // Parsing any bytes. What is read depends on no byte behind it, so a parse can be split
  // behind any field.

  lemma {:induction false} VarintIsLocal(data: seq<byte>, more: seq<byte>, n: nat)
    requires Varint(data, n).Got?
    ensures Varint(data + more, n) == Got(Varint(data, n).value, Varint(data, n).rest + more)
  {
    assert (data + more)[1..] == data[1..] + more;
    if data[0] >= 128 {
      VarintIsLocal(data[1..], more, n - 1);
    }
  }

  lemma NumbersAreLocal(data: seq<byte>, more: seq<byte>)
    ensures ReadTag(data).Got? ==> ReadTag(data + more) == Got(ReadTag(data).value, ReadTag(data).rest + more)
    ensures ReadSize(data).Got? ==> ReadSize(data + more) == Got(ReadSize(data).value, ReadSize(data).rest + more)
    ensures ReadVarint64(data).Got? ==>
              ReadVarint64(data + more) == Got(ReadVarint64(data).value, ReadVarint64(data).rest + more)
    ensures ReadVarint32(data).Got? ==>
              ReadVarint32(data + more) == Got(ReadVarint32(data).value, ReadVarint32(data).rest + more)
  {
    if Varint(data, MAX_TAG_BYTES).Got? {
      VarintIsLocal(data, more, MAX_TAG_BYTES);
    }
    if Varint(data, MAX_VARINT_BYTES).Got? {
      VarintIsLocal(data, more, MAX_VARINT_BYTES);
    }
  }

  lemma SliceIsLocal(data: seq<byte>, more: seq<byte>, n: nat)
    requires n <= |data|
    ensures (data + more)[..n] == data[..n] && (data + more)[n..] == data[n..] + more
  {
  }

  lemma BytesAreLocal(data: seq<byte>, more: seq<byte>)
    requires ReadBytes(data).Got?
    ensures ReadBytes(data + more) == Got(ReadBytes(data).value, ReadBytes(data).rest + more)
  {
    NumbersAreLocal(data, more);
    SliceIsLocal(ReadSize(data).rest, more, ReadSize(data).value);
  }

  lemma {:induction false} UnknownIsLocal(tag: uint32, data: seq<byte>, more: seq<byte>, depth: nat)
    requires ParseUnknown(tag, data, depth).Got?
    ensures ParseUnknown(tag, data + more, depth) ==
            Got(ParseUnknown(tag, data, depth).value, ParseUnknown(tag, data, depth).rest + more)
    decreases |data|, 1
  {
    NumbersAreLocal(data, more);
    if tag % 8 == 1 {
      SliceIsLocal(data, more, 8);
    } else if tag % 8 == 2 {
      BytesAreLocal(data, more);
    } else if tag % 8 == 3 {
      GroupIsLocal(tag / 8, data, more, depth - 1);
    } else if tag % 8 == 5 {
      SliceIsLocal(data, more, 4);
    }
  }

  lemma {:induction false} GroupIsLocal(n: number, data: seq<byte>, more: seq<byte>, depth: nat)
    requires ParseGroup(n, data, depth).Got?
    ensures ParseGroup(n, data + more, depth) ==
            Got(ParseGroup(n, data, depth).value, ParseGroup(n, data, depth).rest + more)
    decreases |data|, 0
  {
    NumbersAreLocal(data, more);
    var tag, rest := ReadTag(data).value, ReadTag(data).rest;
    if !EndsMessage(tag) {
      GroupGoesOn(n, data, tag, rest, depth);
      GroupGoesOn(n, data + more, tag, rest + more, depth);
      UnknownIsLocal(tag, rest, more, depth);
      GroupIsLocal(n, ParseUnknown(tag, rest, depth).rest, more, depth);
    }
  }

  lemma MsgFieldIsLocal(data: seq<byte>, more: seq<byte>, m: TestMsg, depth: nat)
    requires MsgField(data, m, depth).Next?
    ensures MsgField(data + more, m, depth) ==
            Next(MsgField(data, m, depth).m, MsgField(data, m, depth).rest + more)
  {
    NumbersAreLocal(data, more);
    var tag, rest := ReadTag(data).value, ReadTag(data).rest;
    NumbersAreLocal(rest, more);
    if tag == 34 || tag == 42 {
      BytesAreLocal(rest, more);
    } else if !MsgTag(tag) {
      UnknownIsLocal(tag, rest, more, depth);
    }
  }

  /** Parsing two messages one after the other: what the first bytes gave is parsed on with
      the second ones, whatever both are. */
  lemma {:induction false} ParseSplits(x: seq<byte>, y: seq<byte>, m: TestMsg, a: TestMsg, depth: nat)
    requires ParseMsg(x, m, depth) == Done(a)
    ensures ParseMsg(x + y, m, depth) == ParseMsg(y, a, depth)
    decreases |x|
  {
    if x == [] {
      EmptyLeft(y);
    } else {
      MsgFieldIsLocal(x, y, m, depth);
      ParseSplits(MsgField(x, m, depth).rest, y, MsgField(x, m, depth).m, a, depth);
    }
  }

  /** Any serialized message behind any bytes that parse: the parse gives MergeFrom of the
      two if and only if its parts fit and no unknown field has a known tag. No parse
      interface takes more than INT_MAX bytes. */
  lemma ConcatenationMerges(x: seq<byte>, a: TestMsg, b: TestMsg, depth: nat)
    requires ParseMsg(x, EMPTY_MSG, depth) == Done(a) && |x + SerializeMsg(b)| <= INT_MAX
    ensures Written(b).Some?
    ensures ParseMsg(x + Written(b).value, EMPTY_MSG, depth) == Done(MergeMsg(a, b))
       <==> MsgFits(b, depth) && MsgForeign(b)
  {
    ParseSplits(x, SerializeMsg(b), EMPTY_MSG, a, depth);
    MergesIff(b, a, depth);
  }

  function FirstTag(data: seq<byte>): uint32 {
    if ReadTag(data).Got? then ReadTag(data).value else 0
  }

  /** The tags of the fields in the bytes, up to the first one that is malformed. */
  function TagsIn(data: seq<byte>, depth: nat): set<uint32>
    decreases |data|
  {
    match MsgField(data, EMPTY_MSG, depth)
    case Malformed => {}
    case Next(_, rest) => {FirstTag(data)} + TagsIn(rest, depth)
  }

  /** Laying e over m: of the fields that hold one value those with these tags are taken
      from e, and the others add up. */
  function Overlay(tags: set<uint32>, m: TestMsg, e: TestMsg): TestMsg {
    TestMsg(if 8 in tags then e.id else m.id,
            if 16 in tags then e.hp else m.hp,
            if 24 in tags then e.attack else m.attack,
            m.buffs + e.buffs,
            if 42 in tags then e.msg else m.msg,
            m.unknown + e.unknown)
  }

  lemma OverlayTwice(t1: set<uint32>, t2: set<uint32>, m: TestMsg, e1: TestMsg, e2: TestMsg)
    ensures Overlay(t2, Overlay(t1, m, e1), e2) == Overlay(t1 + t2, m, Overlay(t2, e1, e2))
  {
    Assoc(m.buffs, e1.buffs, e2.buffs);
    Assoc(m.unknown, e1.unknown, e2.unknown);
  }

  ghost function OverlayField(tag: uint32, m: TestMsg, field: Field<TestMsg>): Field<TestMsg> {
    match field
    case Malformed => Malformed
    case Next(e, rest) => Next(Overlay({tag}, m, e), rest)
  }

  ghost function OverlayOutcome(tags: set<uint32>, m: TestMsg, o: Outcome<TestMsg>): Outcome<TestMsg> {
    match o
    case Failed => Failed
    case Done(e) => Done(Overlay(tags, m, e))
  }

  lemma NumberOverlays(data: seq<byte>, body: seq<byte>, tag: uint32, m: TestMsg, depth: nat)
    requires ReadTag(data) == Got(tag, body) && (tag == 8 || tag == 16 || tag == 24)
    ensures MsgField(data, m, depth) == OverlayField(tag, m, MsgField(data, EMPTY_MSG, depth))
  {
    EmptyLeft(m.buffs);
    EmptyLeft(m.unknown);
  }

  lemma ElementOverlays(body: seq<byte>, m: TestMsg, depth: nat)
    ensures BuffsElement(body, m, depth) == OverlayField(34, m, BuffsElement(body, EMPTY_MSG, depth))
  {
    EmptyLeft(m.unknown);
    match ReadBytes(body)
    case Bad =>
    case Got(payload, _) =>
      if depth > 0 {
        match ParseBuff(payload, EMPTY_BUFF, depth - 1)
        case Failed =>
        case Done(b) => EmptyLeft([b]);
      }
  }

  lemma TextOverlays(body: seq<byte>, m: TestMsg)
    ensures TextOf(body, m) == OverlayField(42, m, TextOf(body, EMPTY_MSG))
  {
    EmptyLeft(m.buffs);
    EmptyLeft(m.unknown);
  }

  lemma UnknownOverlays(tag: uint32, body: seq<byte>, m: TestMsg, depth: nat)
    requires !MsgTag(tag)
    ensures UnknownInMsg(tag, body, m, depth) == OverlayField(tag, m, UnknownInMsg(tag, body, EMPTY_MSG, depth))
  {
    EmptyLeft(m.buffs);
    match ParseUnknown(tag, body, depth)
    case Bad =>
    case Got(u, _) => EmptyLeft([u]);
  }

  /** One field is read into any message as it is read into an empty one. */
  lemma FieldOverlays(data: seq<byte>, m: TestMsg, depth: nat)
    ensures MsgField(data, m, depth) == OverlayField(FirstTag(data), m, MsgField(data, EMPTY_MSG, depth))
  {
    match ReadTag(data)
    case Bad =>
    case Got(tag, body) =>
      if tag == 34 {
        BuffsField(data, body, m, depth);
        BuffsField(data, body, EMPTY_MSG, depth);
        ElementOverlays(body, m, depth);
      } else if tag == 42 {
        TextField(data, body, m, depth);
        TextField(data, body, EMPTY_MSG, depth);
        TextOverlays(body, m);
      } else if MsgTag(tag) {
        NumberOverlays(data, body, tag, m, depth);
      } else if !EndsMessage(tag) {
        OtherOfMsg(data, body, tag, m, depth);
        OtherOfMsg(data, body, tag, EMPTY_MSG, depth);
        UnknownOverlays(tag, body, m, depth);
      }
  }

  /** And so are all bytes: what they make of a message is what they make of an empty one,
      laid over it. */
  lemma {:induction false} ParseOverlays(data: seq<byte>, m: TestMsg, depth: nat)
    ensures ParseMsg(data, m, depth) == OverlayOutcome(TagsIn(data, depth), m, ParseMsg(data, EMPTY_MSG, depth))
    decreases |data|
  {
    if data == [] {
      EmptyLeft(m.buffs);
      EmptyLeft(m.unknown);
    } else {
      FieldOverlays(data, m, depth);
      match MsgField(data, EMPTY_MSG, depth)
      case Malformed =>
      case Next(e, rest) =>
        var tag := FirstTag(data);
        ParseOverlays(rest, e, depth);
        ParseOverlays(rest, Overlay({tag}, m, e), depth);
        match ParseMsg(rest, EMPTY_MSG, depth)
        case Failed =>
        case Done(e') => OverlayTwice({tag}, TagsIn(rest, depth), m, e, e');
    }
  }

  /** No field that is set in a is in the bytes and yet left at its default. */
  predicate ResetsNothing(tags: set<uint32>, a: TestMsg, b: TestMsg) {
    && (8 in tags && a.id != 0 ==> b.id != 0)
    && (16 in tags && a.hp != 0 ==> b.hp != 0)
    && (24 in tags && a.attack != 0 ==> b.attack != 0)
    && (42 in tags && a.msg != [] ==> b.msg != [])
  }

  /** Any two byte strings of which the first parses: both together parse if and only if the
      second does, and then to MergeFrom of the two messages if and only if the second gives
      no field its default explicitly that the first has set. */
  lemma BytesMergeIff(x: seq<byte>, y: seq<byte>, a: TestMsg, depth: nat)
    requires ParseMsg(x, EMPTY_MSG, depth) == Done(a)
    ensures ParseMsg(x + y, EMPTY_MSG, depth) == Failed <==> ParseMsg(y, EMPTY_MSG, depth) == Failed
    ensures forall b :: ParseMsg(y, EMPTY_MSG, depth) == Done(b) ==>
              (ParseMsg(x + y, EMPTY_MSG, depth) == Done(MergeMsg(a, b)) <==> ResetsNothing(TagsIn(y, depth), a, b))
  {
    ParseSplits(x, y, EMPTY_MSG, a, depth);
    ParseOverlays(y, a, depth);
    ParseOverlays(y, EMPTY_MSG, depth);
  }

  /** Bytes that set a field to its default explicitly are not merged like that: behind a
      message with an id, two bytes that give 0 for the id take it away. */
  lemma ExplicitDefaultExample(depth: nat)
    ensures
      && ParseMsg([8, 1], EMPTY_MSG, depth) == Done(EMPTY_MSG.(id := 1))
      && ParseMsg([8, 0], EMPTY_MSG, depth) == Done(EMPTY_MSG)
      && ParseMsg([8, 1] + [8, 0], EMPTY_MSG, depth) == Done(EMPTY_MSG)
      && MergeMsg(EMPTY_MSG.(id := 1), EMPTY_MSG) == EMPTY_MSG.(id := 1)
  {
    IdBytes(1, EMPTY_MSG, depth);
    IdBytes(0, EMPTY_MSG, depth);
    IdBytes(0, EMPTY_MSG.(id := 1), depth);
    ParseSplits([8, 1], [8, 0], EMPTY_MSG, EMPTY_MSG.(id := 1), depth);
  }

  lemma IdBytes(v: byte, m: TestMsg, depth: nat)
    requires v < 128
    ensures ParseMsg([8, v], m, depth) == Done(m.(id := v))
  {
    assert [8, v] == [8] + [v];
    ReadTagOneByte(8, [v]);
    assert Varint([v], MAX_VARINT_BYTES) == Got(v, []);
    SmallMod(v, TWO_64);
  }

  // ---------------------------------------------------------------------
  // The same for buffs.

  lemma BuffFieldIsLocal(data: seq<byte>, more: seq<byte>, m: Buff, depth: nat)
    requires BuffField(data, m, depth).Next?
    ensures BuffField(data + more, m, depth) ==
            Next(BuffField(data, m, depth).m, BuffField(data, m, depth).rest + more)
  {
    NumbersAreLocal(data, more);
    var tag, rest := ReadTag(data).value, ReadTag(data).rest;
    NumbersAreLocal(rest, more);
    if tag == 21 {
      SliceIsLocal(rest, more, 4);
    } else if tag == 26 {
      BytesAreLocal(rest, more);
    } else if !BuffTag(tag) {
      UnknownIsLocal(tag, rest, more, depth);
    }
  }

  lemma {:induction false} BuffSplits(x: seq<byte>, y: seq<byte>, m: Buff, a: Buff, depth: nat)
    requires ParseBuff(x, m, depth) == Done(a)
    ensures ParseBuff(x + y, m, depth) == ParseBuff(y, a, depth)
    decreases |x|
  {
    if x == [] {
      EmptyLeft(y);
    } else {
      BuffFieldIsLocal(x, y, m, depth);
      BuffSplits(BuffField(x, m, depth).rest, y, BuffField(x, m, depth).m, a, depth);
    }
  }

  /** The tags of the fields in the bytes, up to the first one that is malformed. */
  function BuffTagsIn(data: seq<byte>, depth: nat): set<uint32>
    decreases |data|
  {
    match BuffField(data, EMPTY_BUFF, depth)
    case Malformed => {}
    case Next(_, rest) => {FirstTag(data)} + BuffTagsIn(rest, depth)
  }

  function OverlayBuff(tags: set<uint32>, m: Buff, e: Buff): Buff {
    Buff(if 8 in tags then e.buffId else m.buffId,
         if 21 in tags then e.remainTime else m.remainTime,
         m.victims + e.victims,
         m.unknown + e.unknown)
  }

  lemma OverlayBuffTwice(t1: set<uint32>, t2: set<uint32>, m: Buff, e1: Buff, e2: Buff)
    ensures OverlayBuff(t2, OverlayBuff(t1, m, e1), e2) == OverlayBuff(t1 + t2, m, OverlayBuff(t2, e1, e2))
  {
    Assoc(m.victims, e1.victims, e2.victims);
    Assoc(m.unknown, e1.unknown, e2.unknown);
  }

  ghost function OverlayBuffField(tag: uint32, m: Buff, field: Field<Buff>): Field<Buff> {
    match field
    case Malformed => Malformed
    case Next(e, rest) => Next(OverlayBuff({tag}, m, e), rest)
  }

  ghost function OverlayBuffOutcome(tags: set<uint32>, m: Buff, o: Outcome<Buff>): Outcome<Buff> {
    match o
    case Failed => Failed
    case Done(e) => Done(OverlayBuff(tags, m, e))
  }

  lemma VictimsOverlay(body: seq<byte>, m: Buff)
    ensures PackedVictims(body, m) == OverlayBuffField(26, m, PackedVictims(body, EMPTY_BUFF))
  {
    EmptyLeft(m.unknown);
    match ReadBytes(body)
    case Bad =>
    case Got(payload, _) =>
      match DecodePacked(payload)
      case None =>
      case Some(vs) => EmptyLeft(vs);
  }

  lemma NumberOverlaysBuff(data: seq<byte>, body: seq<byte>, tag: uint32, m: Buff, depth: nat)
    requires ReadTag(data) == Got(tag, body) && (tag == 8 || tag == 21 || tag == 24)
    ensures BuffField(data, m, depth) == OverlayBuffField(tag, m, BuffField(data, EMPTY_BUFF, depth))
  {
    EmptyLeft(m.unknown);
    EmptyLeft(m.victims);
    if tag == 24 && ReadVarint64(body).Got? {
      EmptyLeft([ReadVarint64(body).value]);
    }
  }

  lemma OtherOfBuff(data: seq<byte>, body: seq<byte>, tag: uint32, m: Buff, depth: nat)
    requires ReadTag(data) == Got(tag, body) && !BuffTag(tag) && !EndsMessage(tag)
    ensures BuffField(data, m, depth) == UnknownInBuff(tag, body, m, depth)
  {
  }

  lemma UnknownOverlaysBuff(tag: uint32, body: seq<byte>, m: Buff, depth: nat)
    requires !BuffTag(tag)
    ensures UnknownInBuff(tag, body, m, depth) == OverlayBuffField(tag, m, UnknownInBuff(tag, body, EMPTY_BUFF, depth))
  {
    EmptyLeft(m.victims);
    match ParseUnknown(tag, body, depth)
    case Bad =>
    case Got(u, _) => EmptyLeft([u]);
  }

  lemma BuffFieldOverlays(data: seq<byte>, m: Buff, depth: nat)
    ensures BuffField(data, m, depth) == OverlayBuffField(FirstTag(data), m, BuffField(data, EMPTY_BUFF, depth))
  {
    match ReadTag(data)
    case Bad =>
    case Got(tag, body) =>
      if tag == 26 {
        VictimsField(data, body, m, depth);
        VictimsField(data, body, EMPTY_BUFF, depth);
        VictimsOverlay(body, m);
      } else if BuffTag(tag) {
        NumberOverlaysBuff(data, body, tag, m, depth);
      } else if !EndsMessage(tag) {
        OtherOfBuff(data, body, tag, m, depth);
        OtherOfBuff(data, body, tag, EMPTY_BUFF, depth);
        UnknownOverlaysBuff(tag, body, m, depth);
      }
  }

  lemma {:induction false} ParseBuffOverlays(data: seq<byte>, m: Buff, depth: nat)
    ensures ParseBuff(data, m, depth) == OverlayBuffOutcome(BuffTagsIn(data, depth), m, ParseBuff(data, EMPTY_BUFF, depth))
    decreases |data|
  {
    if data == [] {
      EmptyLeft(m.victims);
      EmptyLeft(m.unknown);
    } else {
      BuffFieldOverlays(data, m, depth);
      match BuffField(data, EMPTY_BUFF, depth)
      case Malformed =>
      case Next(e, rest) =>
        var tag := FirstTag(data);
        ParseBuffOverlays(rest, e, depth);
        ParseBuffOverlays(rest, OverlayBuff({tag}, m, e), depth);
        match ParseBuff(rest, EMPTY_BUFF, depth)
        case Failed =>
        case Done(e') => OverlayBuffTwice({tag}, BuffTagsIn(rest, depth), m, e, e');
    }
  }

  predicate ResetsNoField(tags: set<uint32>, a: Buff, b: Buff) {
    && (8 in tags && a.buffId != 0 ==> b.buffId != 0)
    && (21 in tags && a.remainTime != 0 ==> b.remainTime != 0)
  }

  /** Any two byte strings of which the first parses as a buff. */
  lemma BuffBytesMergeIff(x: seq<byte>, y: seq<byte>, a: Buff, depth: nat)
    requires ParseBuff(x, EMPTY_BUFF, depth) == Done(a)
    ensures ParseBuff(x + y, EMPTY_BUFF, depth) == Failed <==> ParseBuff(y, EMPTY_BUFF, depth) == Failed
    ensures forall b :: ParseBuff(y, EMPTY_BUFF, depth) == Done(b) ==>
              (ParseBuff(x + y, EMPTY_BUFF, depth) == Done(MergeBuff(a, b)) <==> ResetsNoField(BuffTagsIn(y, depth), a, b))
  {
    BuffSplits(x, y, EMPTY_BUFF, a, depth);
    ParseBuffOverlays(y, a, depth);
    ParseBuffOverlays(y, EMPTY_BUFF, depth);
  }

  // ---------------------------------------------------------------------
  // What parsing leaves.

  /** Everything a parse can leave in a buff, sizes aside. */
  predicate BuffParsed(b: Buff, depth: nat) {
    BuffForeign(b) && AllFit(b.unknown, depth)
  }

  predicate BuffsParsed(buffs: seq<Buff>, depth: nat) {
    forall i :: 0 <= i < |buffs| ==> depth > 0 && BuffParsed(buffs[i], depth - 1)
  }

  predicate MsgParsed(m: TestMsg, depth: nat) {
    && BuffsParsed(m.buffs, depth)
    && |m.msg| <= MAX_SIZE && ValidUtf8(m.msg)
    && OfNoField(m.unknown)
    && AllFit(m.unknown, depth)
  }

  lemma {:induction false} AllFitAppend(us: seq<Unknown>, u: Unknown, depth: nat)
    requires AllFit(us, depth) && Fits(u, depth)
    ensures AllFit(us + [u], depth)
  {
    if us == [] {
      EmptyLeft([u]);
      assert [u][1..] == [];
    } else {
      AllFitAppend(us[1..], u, depth);
      assert (us + [u])[1..] == us[1..] + [u];
    }
  }

  lemma BuffFieldParsed(data: seq<byte>, m: Buff, depth: nat)
    requires BuffParsed(m, depth) && BuffField(data, m, depth).Next?
    ensures BuffParsed(BuffField(data, m, depth).m, depth)
  {
    var tag, rest := ReadTag(data).value, ReadTag(data).rest;
    if !BuffTag(tag) {
      ParsedFits(tag, rest, depth);
      AllFitAppend(m.unknown, ParseUnknown(tag, rest, depth).value, depth);
    }
  }

  lemma {:induction false} BuffIsParsed(data: seq<byte>, m: Buff, depth: nat)
    requires BuffParsed(m, depth)
    ensures match ParseBuff(data, m, depth)
            case Failed => true
            case Done(b) => BuffParsed(b, depth)
    decreases |data|
  {
    if data != [] && BuffField(data, m, depth).Next? {
      BuffFieldParsed(data, m, depth);
      BuffIsParsed(BuffField(data, m, depth).rest, BuffField(data, m, depth).m, depth);
    }
  }

  lemma ElementParsed(body: seq<byte>, m: TestMsg, depth: nat)
    requires MsgParsed(m, depth) && BuffsElement(body, m, depth).Next?
    ensures MsgParsed(BuffsElement(body, m, depth).m, depth)
  {
    BuffIsParsed(ReadBytes(body).value, EMPTY_BUFF, depth - 1);
  }

  lemma TextParsed(body: seq<byte>, m: TestMsg, depth: nat)
    requires MsgParsed(m, depth) && TextOf(body, m).Next?
    ensures MsgParsed(TextOf(body, m).m, depth)
  {
    TextFits(body);
  }

  lemma UnknownParsed(tag: uint32, body: seq<byte>, m: TestMsg, depth: nat)
    requires MsgParsed(m, depth) && UnknownInMsg(tag, body, m, depth).Next? && !MsgTag(tag)
    ensures MsgParsed(UnknownInMsg(tag, body, m, depth).m, depth)
  {
    ParsedFits(tag, body, depth);
    AllFitAppend(m.unknown, ParseUnknown(tag, body, depth).value, depth);
  }

  lemma NumberParsed(data: seq<byte>, m: TestMsg, depth: nat)
    requires MsgParsed(m, depth) && MsgField(data, m, depth).Next?
    requires ReadTag(data).value == 8 || ReadTag(data).value == 16 || ReadTag(data).value == 24
    ensures MsgParsed(MsgField(data, m, depth).m, depth)
  {
  }

  lemma MsgFieldParsed(data: seq<byte>, m: TestMsg, depth: nat)
    requires MsgParsed(m, depth) && MsgField(data, m, depth).Next?
    ensures MsgParsed(MsgField(data, m, depth).m, depth)
  {
    var tag, body := ReadTag(data).value, ReadTag(data).rest;
    if tag == 34 {
      BuffsField(data, body, m, depth);
      ElementParsed(body, m, depth);
    } else if tag == 42 {
      TextField(data, body, m, depth);
      TextParsed(body, m, depth);
    } else if !MsgTag(tag) {
      OtherOfMsg(data, body, tag, m, depth);
      UnknownParsed(tag, body, m, depth);
    } else {
      NumberParsed(data, m, depth);
    }
  }

  lemma TextFits(data: seq<byte>)
    requires ReadBytes(data).Got?
    ensures |ReadBytes(data).value| <= MAX_SIZE
  {
  }

  lemma {:induction false} MsgIsParsed(data: seq<byte>, m: TestMsg, depth: nat)
    requires MsgParsed(m, depth)
    ensures match ParseMsg(data, m, depth)
            case Failed => true
            case Done(r) => MsgParsed(r, depth)
    decreases |data|
  {
    if data != [] && MsgField(data, m, depth).Next? {
      MsgFieldParsed(data, m, depth);
      MsgIsParsed(MsgField(data, m, depth).rest, MsgField(data, m, depth).m, depth);
    }
  }

  /** Whatever bytes a message was parsed from, unknown fields included, writing it and
      parsing that gives it back, if only the sizes fit: the canonical bytes may be longer
      than those it came from. */
  lemma ParsedRoundTrips(data: seq<byte>, m: TestMsg, depth: nat)
    requires ParseMsg(data, EMPTY_MSG, depth) == Done(m)
    requires |SerializeMsg(m)| <= INT_MAX
    requires forall i :: 0 <= i < |m.buffs| ==> |SerializeBuff(m.buffs[i])| <= MAX_SIZE
    ensures Written(m).Some? && ParseMsg(Written(m).value, EMPTY_MSG, depth) == Done(m)
  {
    MsgIsParsed(data, EMPTY_MSG, depth);
    forall i | 0 <= i < |m.buffs|
      ensures ElementFits(m.buffs[i], depth) && BuffForeign(m.buffs[i])
    {
      PackedWithin(m.buffs[i]);
    }
    RoundTripIff(m, depth);
  }

  // ---------------------------------------------------------------------
  // The bytes of single fields and of one whole message, as any peer expects them.

  lemma OnlyPart<T>(x: seq<T>)
    ensures x + [] + [] + [] + [] + [] == x && [] + x + [] + [] + [] + [] == x && [] + [] + x + [] + [] + [] == x
    ensures [] + [] + [] + x + [] + [] == x && [] + [] + [] + [] + x + [] == x
  {
  }

  lemma NumberBytes(id: uint64, hp: uint32, attack: uint32)
    ensures id != 0 ==> SerializeMsg(EMPTY_MSG.(id := id)) == [8] + EncodeVarint(id)
    ensures hp != 0 ==> SerializeMsg(EMPTY_MSG.(hp := hp)) == [16] + EncodeVarint(hp)
    ensures attack != 0 ==> SerializeMsg(EMPTY_MSG.(attack := attack)) == [24] + EncodeVarint(attack)
  {
    OnlyPart([8] + EncodeVarint(id));
    OnlyPart([16] + EncodeVarint(hp));
    OnlyPart([24] + EncodeVarint(attack));
  }

  lemma PartBytes(b: Buff, text: seq<byte>)
    ensures SerializeMsg(EMPTY_MSG.(buffs := [b])) == [34] + EncodeVarint(|SerializeBuff(b)|) + SerializeBuff(b)
    ensures text != [] ==> SerializeMsg(EMPTY_MSG.(msg := text)) == [42] + EncodeVarint(|text|) + text
  {
    OneBuff(b);
    OnlyPart(SerializeBuffs([b]));
    OnlyPart(StringField(42, text));
  }

  /** The tag of each field: its number and its wire type. */
  lemma FieldBytes(id: uint64, hp: uint32, attack: uint32, b: Buff, text: seq<byte>)
    ensures id != 0 ==> SerializeMsg(EMPTY_MSG.(id := id)) == [8] + EncodeVarint(id)
    ensures hp != 0 ==> SerializeMsg(EMPTY_MSG.(hp := hp)) == [16] + EncodeVarint(hp)
    ensures attack != 0 ==> SerializeMsg(EMPTY_MSG.(attack := attack)) == [24] + EncodeVarint(attack)
    ensures SerializeMsg(EMPTY_MSG.(buffs := [b])) == [34] + EncodeVarint(|SerializeBuff(b)|) + SerializeBuff(b)
    ensures text != [] ==> SerializeMsg(EMPTY_MSG.(msg := text)) == [42] + EncodeVarint(|text|) + text
  {
    NumberBytes(id, hp, attack);
    PartBytes(b, text);
  }

  lemma OneBuff(b: Buff)
    ensures SerializeBuffs([b]) == [34] + EncodeVarint(|SerializeBuff(b)|) + SerializeBuff(b)
  {
    assert [b][1..] == [];
    EmptyLeft(Delimited(34, SerializeBuff(b)));
  }

  lemma BuffFieldBytes(id: uint64, time: uint32, vs: seq<uint64>)
    ensures id != 0 ==> SerializeBuff(EMPTY_BUFF.(buffId := id)) == [8] + EncodeVarint(id)
    ensures time != 0 ==>
              SerializeBuff(EMPTY_BUFF.(remainTime := time)) ==
              [21, time % 0x100, time / 0x100 % 0x100, time / 0x1_0000 % 0x100, time / 0x100_0000]
    ensures vs != [] ==>
              SerializeBuff(EMPTY_BUFF.(victims := vs)) == [26] + EncodeVarint(|EncodePacked(vs)|) + EncodePacked(vs)
  {
    PackedEmpty(vs);
    DivideTwice(time, 0x100, 0x100);
    DivideTwice(time, 0x1_0000, 0x100);
  }

  /** A message with all its fields set; 1.0f is 0x3F800000. */
  lemma WireExample()
    ensures
      && var b := Buff(5, 0x3F80_0000, [1, 300], [AsVarint(7, 2)]);
      && SerializeBuff(b) == [8, 5, 21, 0, 0, 0x80, 0x3F, 26, 3, 1, 0xAC, 2, 56, 2]
      && SerializeMsg(TestMsg(150, 1, 300, [b], [0x68, 0x69], [])) ==
         [8, 0x96, 1, 16, 1, 24, 0xAC, 2, 34, 14] + SerializeBuff(b) + [42, 2, 0x68, 0x69]
  {
    var b := Buff(5, 0x3F80_0000, [1, 300], [AsVarint(7, 2)]);
    BuffExample();
    OneBuff(b);
    assert EncodeVarint(150) == [0x96, 1] && EncodeVarint(300) == [0xAC, 2];
    assert EncodeVarint(14) == [14];
  }

  lemma BuffExample()
    ensures
      SerializeBuff(Buff(5, 0x3F80_0000, [1, 300], [AsVarint(7, 2)])) ==
      [8, 5, 21, 0, 0, 0x80, 0x3F, 26, 3, 1, 0xAC, 2, 56, 2]
  {
    var u: Unknown := AsVarint(7, 2);
    OneUnknown(u);
    assert SerializeUnknown(u) == [56, 2];
    PackedExample();
    FloatExample();
  }

  lemma PackedExample()
    ensures PackedField(26, [1, 300]) == [26, 3, 1, 0xAC, 2]
  {
    assert EncodeVarint(300) == [0xAC, 2];
    assert [300][1..] == [] && [1, 300][1..] == [300];
    assert EncodePacked([300]) == EncodeVarint(300) + EncodePacked([300][1..]);
    assert EncodePacked([1, 300]) == EncodeVarint(1) + EncodePacked([1, 300][1..]);
    assert EncodePacked([1, 300]) == [1, 0xAC, 2];
  }

  lemma FloatExample()
    ensures FloatField(21, 0x3F80_0000) == [21, 0, 0, 0x80, 0x3F]
  {
    assert EncodeFixed32(0x3F80_0000) == [0, 0, 0x80, 0x3F];
  }

  // ---------------------------------------------------------------------
  // Cached sizes.

  /** What BuffData's serializer writes when the size cached for victims is c; None where it
      reads behind the end of an empty list. */
  function SerializeBuffCached(b: Buff, c: int): Option<seq<byte>> {
    if c > 0 && b.victims == [] then None
    else Some(VarintField(8, b.buffId) + FloatField(21, b.remainTime)
              + (if c > 0 then [26] + EncodeVarint(c) + EncodePacked(b.victims) else [])
              + SerializeUnknowns(b.unknown))
  }

  lemma MiddleEqual<T>(front: seq<T>, x: seq<T>, y: seq<T>, end: seq<T>)
    ensures front + x + end == front + y + end <==> x == y
  {
    if front + x + end == front + y + end {
      var s := front + x + end;
      assert x == s[|front|..|front| + |x|];
      assert y == (front + y + end)[|front|..|front| + |y|];
    }
  }

  /** The bytes written are right if and only if the cached size is the size ByteSizeLong
      computes (or both say that there is nothing to write). */
  lemma CachedSizeMattersExactly(b: Buff, c: int)
    ensures SerializeBuffCached(b, c) == Some(SerializeBuff(b))
       <==> c == |EncodePacked(b.victims)| || (c <= 0 && b.victims == [])
  {
    PackedEmpty(b.victims);
    if c > 0 && b.victims != [] {
      SameCachedSize(b, c);
    } else if c <= 0 {
      MiddleEqual(VarintField(8, b.buffId) + FloatField(21, b.remainTime), [], PackedField(26, b.victims),
                  SerializeUnknowns(b.unknown));
    }
  }

  lemma SameCachedSize(b: Buff, c: nat)
    requires c > 0 && b.victims != []
    ensures SerializeBuffCached(b, c) == Some(SerializeBuff(b)) <==> c == |EncodePacked(b.victims)|
  {
    PackedEmpty(b.victims);
    var payload := EncodePacked(b.victims);
    MiddleEqual(VarintField(8, b.buffId) + FloatField(21, b.remainTime), [26] + EncodeVarint(c) + payload,
                PackedField(26, b.victims), SerializeUnknowns(b.unknown));
    MiddleEqual([26], EncodeVarint(c), EncodeVarint(|payload|), payload);
    EncodeVarintInjective(c, |payload|);
  }
}
