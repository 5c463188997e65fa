/** The generated classes BuffData and TEST_MSG: fields changed in place, sizes
    cached between ByteSizeLong and serializing, and the parse loops. Each method
    is tied to the message values of GameProtocol. */
module GameMessages {
  import opened Common
  import opened UnknownFields
  import opened WireFormat
  import opened GameProtocol

  datatype Status = Ok | ParseError

  /** What a parse that ended with this status and message amounts to. */
  ghost function OutcomeOf<M>(status: Status, m: M): Outcome<M> {
    if status == Ok then Done(m) else Failed
  }

  /** What one field read in place, up to `next`, amounts to. */
  ghost function FieldOf<M>(status: Status, m: M, data: seq<byte>, next: nat): Field<M> {
    if status == Ok && next <= |data| then Next(m, data[next..]) else Malformed
  }

  // ---------------------------------------------------------------------
  // Packed varints.

  /** UInt64Size(const RepeatedField<uint64_t>&). */
  method UInt64Size(vs: seq<uint64>) returns (out: nat)
    ensures out == |EncodePacked(vs)|
  {
    out := 0;
    var i := 0;
    while i < |vs|
      invariant 0 <= i <= |vs|
      invariant out + |EncodePacked(vs[i..])| == |EncodePacked(vs)|
    {
      VarintSizeIsLength(vs[i]);
      assert vs[i..][1..] == vs[i + 1..];
      out := out + VarintSize(vs[i]);
      i := i + 1;
    }
  }

  /** WriteVarintPacked without its header: at least one element is written. */
  method WritePacked(vs: seq<uint64>) returns (out: seq<byte>)
    requires vs != []
    ensures out == EncodePacked(vs)
  {
    out := EncodeVarint(vs[0]);
    var i := 1;
    EmptyLeft(out);
    while i < |vs|
      invariant 1 <= i <= |vs|
      invariant out + EncodePacked(vs[i..]) == EncodePacked(vs)
    {
      assert vs[i..][1..] == vs[i + 1..];
      Assoc(out, EncodeVarint(vs[i]), EncodePacked(vs[i + 1..]));
      out := out + EncodeVarint(vs[i]);
      i := i + 1;
    }
    EmptyLeft(out);
  }

  ghost function VictimsBehind(vs: seq<uint64>, r: Option<seq<uint64>>): Option<seq<uint64>> {
    match r
    case Some(ws) => Some(vs + ws)
    case None => None
  }

  lemma VictimsBehindTwice(vs: seq<uint64>, v: uint64, r: Option<seq<uint64>>)
    ensures VictimsBehind(vs, VictimsBehind([v], r)) == VictimsBehind(vs + [v], r)
    ensures VictimsBehind([], r) == r
    ensures VictimsBehind(vs, Some([])) == Some(vs)
  {
    if r.Some? {
      Assoc(vs, [v], r.value);
      EmptyLeft(r.value);
    }
    EmptyLeft(vs);
  }

  lemma DecodePackedStep(data: seq<byte>, value: uint64, rest: seq<byte>)
    requires data != []
    ensures ReadVarint64(data) == Got(value, rest) ==> DecodePacked(data) == VictimsBehind([value], DecodePacked(rest))
    ensures ReadVarint64(data) == Bad ==> DecodePacked(data) == None
  {
  }

  /** ReadPackedVarintArray over exactly the announced bytes. */
  method ReadPacked(data: seq<byte>) returns (r: Option<seq<uint64>>)
    ensures r == DecodePacked(data)
  {
    var vs: seq<uint64>, p := [], 0;
    assert data[0..] == data;
    VictimsBehindTwice(vs, 0, DecodePacked(data));
    while p < |data|
      invariant 0 <= p <= |data|
      invariant DecodePacked(data) == VictimsBehind(vs, DecodePacked(data[p..]))
      decreases |data| - p
    {
      var ok, value, next := VarintParse64(data, p);
      DecodePackedStep(data[p..], value, data[if ok then next else p..]);
      if !ok {
        return None;
      }
      VictimsBehindTwice(vs, value, DecodePacked(data[next..]));
      vs := vs + [value];
      p := next;
    }
    VictimsBehindTwice(vs, 0, None);
    return Some(vs);
  }

  // ---------------------------------------------------------------------
  // Sizes as the generated code computes them.

  /** ToCachedSize and static_cast<int32_t>. */
  function ToInt(n: nat): int {
    var low := n % TWO_32;
    if low <= INT_MAX then low else low - TWO_32
  }

  lemma ToIntFits(n: nat)
    ensures n <= INT_MAX ==> ToInt(n) == n
  {
    if n <= INT_MAX {
      SmallMod(n, TWO_32);
    }
  }

  /** VarintSize32SignExtended. */
  function Int32Size(n: int): nat {
    if n < 0 then 10 else VarintSize(n)
  }

  lemma DelimitedSize(tag: byte, payload: seq<byte>)
    ensures |Delimited(tag, payload)| == 1 + |EncodeVarint(|payload|)| + |payload|
  {
  }

  /** The packed field and the size cached for it. */
  method PackedFieldSize(tag: byte, vs: seq<uint64>) returns (size: nat, cached: int)
    ensures SizeOf(size, |PackedField(tag, vs)|) && cached == ToInt(|EncodePacked(vs)|)
  {
    var dataSize := UInt64Size(vs);
    size := 0;
    if dataSize > 0 {
      size := 1 + Int32Size(ToInt(dataSize));
      ToIntFits(dataSize);
      DelimitedSize(tag, EncodePacked(vs));
      if dataSize <= INT_MAX {
        VarintSizeIsLength(dataSize);
      }
    }
    size := size + dataSize;
    cached := ToInt(dataSize);
  }

  /** UInt64SizePlusOne of a field that is set. */
  method VarintFieldSize(tag: byte, v: uint64) returns (size: nat)
    ensures size == |VarintField(tag, v)|
  {
    size := 0;
    if v != 0 {
      VarintSizeIsLength(v);
      size := 1 + VarintSize(v);
    }
  }

  /** A tag and StringSize of a string that is not empty. */
  method StringFieldSize(tag: byte, s: seq<byte>) returns (size: nat)
    ensures SizeOf(size, |StringField(tag, s)|)
  {
    size := 0;
    if s != [] {
      DelimitedSizeOf(|s|, |s|);
      DelimitedSize(tag, s);
      size := 1 + (LengthSize(|s|) + |s|);
    }
  }

  lemma BuffSizeParts(b: Buff)
    ensures |SerializeBuff(b)| == |VarintField(8, b.buffId)| + |FloatField(21, b.remainTime)|
                                  + |PackedField(26, b.victims)| + |SerializeUnknowns(b.unknown)|
    ensures |EncodePacked(b.victims)| <= |PackedField(26, b.victims)|
  {
  }

  // ---------------------------------------------------------------------

  class BuffData {
    var buffid: uint64
    /** Raw bits of the float. */
    var remaintime: uint32
    var victims: seq<uint64>
    var unknown: seq<Unknown>
    var victimsCachedByteSize: int
    var cachedSize: int

    ghost function View(): Buff
      reads this`buffid, this`remaintime, this`victims, this`unknown
    {
      Buff(buffid, remaintime, victims, unknown)
    }

    /** The caches hold what ByteSizeLong computes for the current fields. */
    ghost predicate Cached()
      reads this
    {
      victimsCachedByteSize == |EncodePacked(victims)| && cachedSize == |SerializeBuff(View())|
    }

    constructor ()
      ensures View() == EMPTY_BUFF && Cached()
    {
      buffid, remaintime, victims, unknown := 0, 0, [], [];
      victimsCachedByteSize, cachedSize := 0, 0;
    }

    method Clear()
      modifies this`buffid, this`remaintime, this`victims, this`unknown
      ensures View() == EMPTY_BUFF
    {
      victims := [];
      buffid, remaintime := 0, 0;
      unknown := [];
    }

    method MergeFrom(from: BuffData)
      requires from != this
      modifies this`buffid, this`remaintime, this`victims, this`unknown
      ensures View() == MergeBuff(old(View()), from.View())
    {
      victims := victims + from.victims;
      if from.buffid != 0 {
        buffid := from.buffid;
      }
      if from.remaintime != 0 {
        remaintime := from.remaintime;
      }
      unknown := unknown + from.unknown;
    }

    method CopyFrom(from: BuffData)
      modifies this`buffid, this`remaintime, this`victims, this`unknown
      ensures View() == old(from.View())
    {
      if from == this {
        return;
      }
      Clear();
      MergeFrom(from);
      EmptyLeft(from.victims);
      EmptyLeft(from.unknown);
    }

    /** The size of the serialized message; fills in both caches, which are right unless the
        size is too large. */
    method ByteSizeLong() returns (total: nat)
      modifies this`victimsCachedByteSize, this`cachedSize
      ensures SizeOf(total, |SerializeBuff(View())|)
      ensures |SerializeBuff(View())| <= INT_MAX ==> Cached()
    {
      BuffSizeParts(View());
      total, victimsCachedByteSize := PackedFieldSize(26, victims);
      ToIntFits(|EncodePacked(victims)|);
      var size := VarintFieldSize(8, buffid);
      total := total + size;
      if remaintime != 0 {
        total := total + 1 + 4;
      }
      size := ComputeUnknownFieldsSize(unknown);
      total := total + size;
      ToIntFits(total);
      cachedSize := ToInt(total);
    }

    /** Uses the cached size of victims, whether or not it is up to date. A stale positive
        size with no victims makes the loop read behind the end of the list; then there is
        no telling what is written. */
    method InternalSerialize() returns (target: Option<seq<byte>>)
      ensures target == SerializeBuffCached(View(), victimsCachedByteSize)
      ensures Cached() ==> target == Some(SerializeBuff(View()))
    {
      CachedSizeMattersExactly(View(), victimsCachedByteSize);
      var id, time, packed := [], [], [];
      if buffid != 0 {
        id := [8] + EncodeVarint(buffid);
      }
      if remaintime != 0 {
        time := [21] + EncodeFixed32(remaintime);
      }
      if victimsCachedByteSize > 0 {
        if victims == [] {
          return None;
        }
        packed := WritePacked(victims);
        packed := [26] + EncodeVarint(victimsCachedByteSize) + packed;
      }
      var more := InternalSerializeUnknownFields(unknown);
      return Some(id + time + packed + more);
    }

    /** Parses data, which ends at the message's limit, into this message. */
    method InternalParse(data: seq<byte>, depth: nat) returns (status: Status)
      modifies this`buffid, this`remaintime, this`victims, this`unknown
      ensures OutcomeOf(status, View()) == ParseBuff(data, old(View()), depth)
    {
      var ptr := 0;
      assert data[0..] == data;
      while ptr < |data|
        invariant 0 <= ptr <= |data|
        invariant ParseBuff(data[ptr..], View(), depth) == ParseBuff(data, old(View()), depth)
        decreases |data| - ptr
      {
        status, ptr := ParseField(data, ptr, depth);
        if status != Ok {
          return;
        }
      }
      status := Ok;
    }

    /** One round of the parse loop. */
    method ParseField(data: seq<byte>, ptr: nat, depth: nat) returns (status: Status, next: nat)
      requires ptr < |data|
      modifies this`buffid, this`remaintime, this`victims, this`unknown
      ensures status == Ok ==> ptr < next <= |data|
      ensures FieldOf(status, View(), data, next) == BuffField(data[ptr..], old(View()), depth)
    {
      next := ptr;
      var ok, tag, body := ReadTagBytes(data, ptr);
      if !ok {
        return ParseError, next;
      }
      if tag == 8 || tag == 24 {
        var ok, v, after := VarintParse64(data, body);
        if !ok {
          return ParseError, next;
        }
        if tag == 8 {
          buffid := v;
        } else {
          victims := victims + [v];
        }
        return Ok, after;
      } else if tag == 21 {
        if |data| - body < 4 {
          return ParseError, next;
        }
        SliceOfRest(data, body, 4);
        remaintime := DecodeFixed32(data[body..body + 4]);
        return Ok, body + 4;
      } else if tag == 26 {
        status, next := ParsePackedVictims(data, body);
        next := if status == Ok then next else ptr;
      } else if EndsMessage(tag) {
        return ParseError, next;
      } else {
        var ok, u, after := FieldParser(tag, data, body, depth);
        if !ok {
          return ParseError, next;
        }
        unknown := unknown + [u];
        return Ok, after;
      }
    }

    /** PackedUInt64Parser. */
    method ParsePackedVictims(data: seq<byte>, body: nat) returns (status: Status, next: nat)
      requires body <= |data|
      modifies this`victims
      ensures status == Ok ==> body < next <= |data|
      ensures FieldOf(status, View(), data, next) == PackedVictims(data[body..], old(View()))
    {
      next := body;
      var ok, payload, end := ReadString(data, body);
      if !ok {
        return ParseError, next;
      }
      var vs := ReadPacked(payload);
      if vs.None? {
        return ParseError, next;
      }
      victims := victims + vs.value;
      return Ok, end;
    }
  }

  // ---------------------------------------------------------------------

  /** The values of a list of buffs. */
  ghost function Views(bs: seq<BuffData>): (r: seq<Buff>)
    reads bs
    ensures |r| == |bs|
  {
    seq(|bs|, i requires 0 <= i < |bs| reads bs => bs[i].View())
  }

  ghost predicate AllCached(bs: seq<BuffData>)
    reads bs
  {
    CachedTo(bs, |bs|, true)
  }

  /** So far, if all sizes fit. */
  ghost predicate CachedTo(bs: seq<BuffData>, i: nat, fits: bool)
    reads bs
  {
    fits ==> forall j {:trigger bs[j].Cached()} :: 0 <= j < i && j < |bs| ==> bs[j].Cached()
  }

  lemma ViewsAt(bs: seq<BuffData>, i: nat)
    requires i < |bs|
    ensures Views(bs)[i] == bs[i].View()
  {
  }

  twostate lemma ViewsKept(bs: seq<BuffData>)
    requires forall b :: b in bs ==> old(allocated(b)) && b.View() == old(b.View())
    ensures Views(bs) == old(Views(bs))
  {
    forall i | 0 <= i < |bs|
      ensures Views(bs)[i] == old(Views(bs)[i])
    {
      assert bs[i] in bs;
    }
  }

  lemma ViewsOfLast(bs: seq<BuffData>, b: BuffData)
    ensures Views(bs + [b]) == Views(bs) + [b.View()]
  {
  }

  lemma {:induction false} SerializedBuffsFrom(bs: seq<Buff>, i: nat)
    requires i < |bs|
    ensures SerializeBuffs(bs[i..]) == Delimited(34, SerializeBuff(bs[i])) + SerializeBuffs(bs[i + 1..])
  {
    assert bs[i..][1..] == bs[i + 1..];
  }

  lemma BuffsSizeCons(bs: seq<Buff>)
    requires bs != []
    ensures |SerializeBuffs(bs)| == |Delimited(34, SerializeBuff(bs[0]))| + |SerializeBuffs(bs[1..])|
  {
  }

  lemma {:induction false} PartsFit(bs: seq<Buff>, i: nat)
    requires i < |bs|
    ensures |Delimited(34, SerializeBuff(bs[i]))| <= |SerializeBuffs(bs)|
  {
    BuffsSizeCons(bs);
    if i > 0 {
      PartsFit(bs[1..], i - 1);
    }
  }

  /** The size of one element with its tag and length. */
  ghost predicate SizeAt(bs: seq<Buff>, sizes: seq<nat>, i: nat)
    requires i < |bs| && i < |sizes|
  {
    sizes[i] == |Delimited(34, SerializeBuff(bs[i]))|
  }

  ghost predicate SizesAre(bs: seq<Buff>, sizes: seq<nat>) {
    |sizes| == |bs| && forall i {:trigger SizeAt(bs, sizes, i)} :: 0 <= i < |bs| ==> SizeAt(bs, sizes, i)
  }

  ghost function SizesOf(bs: seq<Buff>): (sizes: seq<nat>)
    ensures SizesAre(bs, sizes)
  {
    seq(|bs|, i requires 0 <= i < |bs| => |Delimited(34, SerializeBuff(bs[i]))|)
  }

  /** The first `i` sizes, and one for the tag of each later element. */
  ghost function CountedTo(sizes: seq<nat>, i: nat): int
    requires i <= |sizes|
  {
    if i == 0 then |sizes| else CountedTo(sizes, i - 1) - 1 + sizes[i - 1]
  }

  lemma {:induction false} CountedRest(bs: seq<Buff>, sizes: seq<nat>, i: nat)
    requires SizesAre(bs, sizes) && i <= |bs|
    ensures CountedTo(sizes, i) + |SerializeBuffs(bs[i..])| == |SerializeBuffs(bs)| + |bs| - i
  {
    if i == 0 {
      assert bs[0..] == bs;
    } else {
      CountedRest(bs, sizes, i - 1);
      assert bs[i - 1..][1..] == bs[i..];
      assert SizeAt(bs, sizes, i - 1);
      BuffsSizeCons(bs[i - 1..]);
    }
  }

  ghost predicate Counted(total: nat, sizes: seq<nat>, i: nat) {
    i <= |sizes| && CountedTo(sizes, i) >= |sizes| - i && SizeOf(total, CountedTo(sizes, i))
  }

  lemma CountedAll(total: nat, bs: seq<Buff>, sizes: seq<nat>)
    requires SizesAre(bs, sizes) && Counted(total, sizes, |sizes|)
    ensures SizeOf(total, |SerializeBuffs(bs)|)
  {
    CountedRest(bs, sizes, |bs|);
  }

  lemma CountOneMore(total: nat, size: nat, sizes: seq<nat>, i: nat)
    requires i < |sizes| && Counted(total, sizes, i) && SizeOf(size + 1, sizes[i]) && sizes[i] > 0
    ensures Counted(total + size, sizes, i + 1)
  {
  }

  /** MessageSize of one buff; fills in its caches. */
  method BuffSize(bs: seq<BuffData>, i: nat, ghost views: seq<Buff>, ghost sizes: seq<nat>, ghost fits: bool)
      returns (size: nat)
    requires i < |bs| && Views(bs) == views && SizesAre(views, sizes)
    requires CachedTo(bs, i, fits) && (fits ==> sizes[i] <= INT_MAX)
    modifies bs
    ensures SizeOf(size + 1, sizes[i]) && sizes[i] > 0
    ensures CachedTo(bs, i + 1, fits) && Views(bs) == views
  {
    ViewsAt(bs, i);
    DelimitedSize(34, SerializeBuff(views[i]));
    assert SizeAt(views, sizes, i);
    size := bs[i].ByteSizeLong();
    ViewsKept(bs);
    if fits {
      forall j | 0 <= j < i + 1
        ensures bs[j].Cached()
      {
        assert j < i ==> old(bs[j].Cached());
      }
    }
    DelimitedSizeOf(size, |SerializeBuff(views[i])|);
    size := size + LengthSize(size);
  }

  /** All sizes fit if they do together. */
  lemma {:induction false} FitsEach(bs: seq<Buff>, sizes: seq<nat>, i: nat)
    requires SizesAre(bs, sizes) && i < |bs|
    ensures sizes[i] <= |SerializeBuffs(bs)|
  {
    assert SizeAt(bs, sizes, i);
    PartsFit(bs, i);
  }

  /** The sizes of the buffs with their tags and lengths; fills in their caches. */
  method AddBuffSizes(bs: seq<BuffData>, ghost views: seq<Buff>, ghost sizes: seq<nat>, ghost fits: bool)
      returns (total: nat)
    requires Views(bs) == views && SizesAre(views, sizes)
    requires fits ==> forall i :: 0 <= i < |sizes| ==> sizes[i] <= INT_MAX
    modifies bs
    ensures Views(bs) == views && Counted(total, sizes, |sizes|) && CachedTo(bs, |bs|, fits)
  {
    total := |bs|;
    var i := 0;
    while i < |bs|
      invariant 0 <= i <= |bs| && Views(bs) == views
      invariant Counted(total, sizes, i)
      invariant CachedTo(bs, i, fits)
    {
      var size := BuffSize(bs, i, views, sizes, fits);
      CountOneMore(total, size, sizes, i);
      total := total + size;
      i := i + 1;
    }
  }

  /** The caches are right unless the size is too large. */
  method BuffsSize(bs: seq<BuffData>) returns (total: nat)
    modifies bs
    ensures SizeOf(total, |SerializeBuffs(Views(bs))|)
    ensures |SerializeBuffs(Views(bs))| <= INT_MAX ==> AllCached(bs)
    ensures Views(bs) == old(Views(bs))
  {
    ghost var views := Views(bs);
    ghost var sizes := SizesOf(views);
    forall i | 0 <= i < |sizes|
      ensures sizes[i] <= |SerializeBuffs(views)|
    {
      FitsEach(views, sizes, i);
    }
    total := AddBuffSizes(bs, views, sizes, |SerializeBuffs(views)| <= INT_MAX);
    CountedAll(total, views, sizes);
  }

  lemma MsgSizeParts(m: TestMsg)
    ensures |SerializeMsg(m)| ==
            |SerializeBuffs(m.buffs)|
            + (|StringField(42, m.msg)| + |VarintField(8, m.id)| + |VarintField(16, m.hp)|
               + |VarintField(24, m.attack)| + |SerializeUnknowns(m.unknown)|)
  {
  }

  /** A number field that is set. */
  method VarintBytes(tag: byte, v: uint64) returns (target: seq<byte>)
    ensures target == VarintField(tag, v)
  {
    target := [];
    if v != 0 {
      target := [tag] + EncodeVarint(v);
    }
  }

  /** A string that is not empty. */
  method StringBytes(tag: byte, s: seq<byte>) returns (target: seq<byte>)
    ensures target == StringField(tag, s)
  {
    target := [];
    if s != [] {
      target := [tag] + EncodeVarint(|s|) + s;
    }
  }

  class TestMsgData {
    var id: uint64
    var hp: uint32
    var attack: uint32
    var buffs: seq<BuffData>
    var msg: seq<byte>
    var unknown: seq<Unknown>
    var cachedSize: int

    ghost function View(): TestMsg
      reads this`id, this`hp, this`attack, this`buffs, this`msg, this`unknown, buffs
    {
      TestMsg(id, hp, attack, Views(buffs), msg, unknown)
    }

    /** The sizes cached in the buffs are those of their current fields. */
    ghost predicate Cached()
      reads this`buffs, buffs
    {
      AllCached(buffs)
    }

    constructor ()
      ensures View() == EMPTY_MSG && buffs == []
    {
      id, hp, attack, buffs, msg, unknown := 0, 0, 0, [], [], [];
      cachedSize := 0;
    }

    method Clear()
      modifies this
      ensures View() == EMPTY_MSG && buffs == []
    {
      buffs := [];
      msg := [];
      id, hp, attack := 0, 0, 0;
      unknown := [];
    }

    method AppendCopy(from: BuffData)
      modifies this`buffs
      ensures Views(buffs) == old(Views(buffs)) + [from.View()]
      ensures |buffs| == old(|buffs|) + 1 && buffs[..old(|buffs|)] == old(buffs) && fresh(buffs[old(|buffs|)])
    {
      var b := new BuffData();
      b.CopyFrom(from);
      ViewsKept(buffs);
      ViewsOfLast(buffs, b);
      buffs := buffs + [b];
    }

    /** RepeatedPtrField::MergeFrom copies the elements into new ones. */
    method MergeBuffs(from: seq<BuffData>)
      modifies this`buffs
      ensures Views(buffs) == old(Views(buffs)) + Views(from)
    {
      ghost var before, source := Views(buffs), Views(from);
      EmptyLeft(before);
      var i := 0;
      while i < |from|
        invariant 0 <= i <= |from|
        invariant Views(from) == source
        invariant Views(buffs) == before + source[..i]
      {
        label copying:
        ViewsAt(from, i);
        AppendCopy(from[i]);
        ViewsKept@copying(from);
        GrowPrefix(before, source, i);
        i := i + 1;
      }
      assert source[..i] == source;
    }

    method MergeFrom(from: TestMsgData)
      requires from != this
      modifies this
      ensures View() == MergeMsg(old(View()), old(from.View()))
    {
      MergeScalars(from);
      label merged:
      MergeBuffs(from.buffs);
    }

    /** The order of the field-wise merges does not matter: no field depends on another. */
    method MergeScalars(from: TestMsgData)
      requires from != this
      modifies this`id, this`hp, this`attack, this`msg, this`unknown
      ensures unknown == old(unknown) + from.unknown
      ensures msg == if from.msg != [] then from.msg else old(msg)
      ensures id == if from.id != 0 then from.id else old(id)
      ensures hp == if from.hp != 0 then from.hp else old(hp)
      ensures attack == if from.attack != 0 then from.attack else old(attack)
    {
      if from.msg != [] {
        msg := from.msg;
      }
      if from.id != 0 {
        id := from.id;
      }
      if from.hp != 0 {
        hp := from.hp;
      }
      if from.attack != 0 {
        attack := from.attack;
      }
      unknown := unknown + from.unknown;
    }

    method CopyFrom(from: TestMsgData)
      modifies this
      ensures View() == old(from.View())
    {
      if from == this {
        return;
      }
      Clear();
      label cleared:
      MergeFrom(from);
      EmptyLeft(old@cleared(from.View()).buffs);
      EmptyLeft(from.unknown);
    }

    /** The size of the serialized message; fills in all caches, which are right unless the
        size is too large. */
    method ByteSizeLong() returns (total: nat)
      modifies this`cachedSize, buffs
      ensures SizeOf(total, |SerializeMsg(View())|) && View() == old(View())
      ensures cachedSize == ToInt(total)
      ensures |SerializeMsg(View())| <= INT_MAX ==> Cached()
    {
      ghost var m := View();
      MsgSizeParts(m);
      total := BuffsSize(buffs);
      assert View() == m;
      var rest := OtherSizes();
      total := total + rest;
      cachedSize := ToInt(total);
      assert View() == m;
    }

    /** The sizes of the fields other than `buffs`. */
    method OtherSizes() returns (total: nat)
      ensures SizeOf(total, |StringField(42, msg)| + |VarintField(8, id)| + |VarintField(16, hp)|
                            + |VarintField(24, attack)| + |SerializeUnknowns(unknown)|)
    {
      total := StringFieldSize(42, msg);
      var size := VarintFieldSize(8, id);
      total := total + size;
      size := VarintFieldSize(16, hp);
      total := total + size;
      size := VarintFieldSize(24, attack);
      total := total + size;
      size := ComputeUnknownFieldsSize(unknown);
      total := total + size;
    }

    /** Writes each buff with the size cached in it. */
    method SerializeElements() returns (target: seq<byte>)
      requires Cached()
      ensures target == SerializeBuffs(Views(buffs))
    {
      target := [];
      ghost var views := Views(buffs);
      assert views[0..] == views;
      EmptyLeft(SerializeBuffs(views));
      var i := 0;
      while i < |buffs|
        invariant 0 <= i <= |buffs|
        invariant target + SerializeBuffs(views[i..]) == SerializeBuffs(views)
      {
        ViewsAt(buffs, i);
        assert buffs[i].Cached();
        var bytes := buffs[i].InternalSerialize();
        var element := bytes.value;
        SerializedBuffsFrom(views, i);
        Assoc(target, Delimited(34, element), SerializeBuffs(views[i + 1..]));
        target := target + ([34] + EncodeVarint(buffs[i].cachedSize) + element);
        i := i + 1;
      }
      EmptyLeft(target);
    }

    method InternalSerialize() returns (target: seq<byte>)
      requires Cached()
      ensures target == SerializeMsg(View())
    {
      var f1 := VarintBytes(8, id);
      var f2 := VarintBytes(16, hp);
      var f3 := VarintBytes(24, attack);
      var f4 := SerializeElements();
      var f5 := StringBytes(42, msg);
      var f6 := InternalSerializeUnknownFields(unknown);
      target := f1 + f2 + f3 + f4 + f5 + f6;
    }

    /** SerializeToString: nothing longer than INT_MAX is written. */
    method SerializeToString() returns (r: Option<seq<byte>>)
      modifies this`cachedSize, buffs
      ensures r == Written(old(View())) && View() == old(View())
    {
      var size := ByteSizeLong();
      if size > INT_MAX {
        return None;
      }
      var target := InternalSerialize();
      return Some(target);
    }

    /** ParseFromString. */
    method ParseFromString(data: seq<byte>) returns (ok: bool)
      modifies this
      ensures match ParseMsg(data, EMPTY_MSG, RECURSION_LIMIT)
              case Done(m) => ok && View() == m
              case Failed => !ok
    {
      Clear();
      var status := InternalParse(data, RECURSION_LIMIT);
      ok := status == Ok;
    }

    /** Parses data, which ends at the message's limit, into this message. */
    method InternalParse(data: seq<byte>, depth: nat) returns (status: Status)
      modifies this`id, this`hp, this`attack, this`buffs, this`msg, this`unknown
      ensures OutcomeOf(status, View()) == ParseMsg(data, old(View()), depth)
    {
      var ptr := 0;
      assert data[0..] == data;
      while ptr < |data|
        invariant 0 <= ptr <= |data|
        invariant ParseMsg(data[ptr..], View(), depth) == ParseMsg(data, old(View()), depth)
        decreases |data| - ptr
      {
        var ok, tag, body := ReadTagBytes(data, ptr);
        if ok && tag == 34 {
          BuffsField(data[ptr..], data[body..], View(), depth);
          ParseReadsTag(data, depth);
          status, ptr := ParseBuffsRun(data, body, depth, f => AfterField(f, depth));
        } else {
          status, ptr := ParseField(data, ptr, depth);
        }
        if status != Ok {
          return;
        }
      }
      status := Ok;
    }

    /** The inner loop over consecutive `buffs`, which looks for the tag byte 34
        itself: however the parse goes on, if that does not depend on who reads the tag, it
        goes on to the same result as after the first element. */
    method ParseBuffsRun(data: seq<byte>, body: nat, depth: nat, ghost after: Field<TestMsg> -> Outcome<TestMsg>)
        returns (status: Status, ptr: nat)
      requires body <= |data| && TagMayBeRead(data, depth, after)
      modifies this`buffs
      ensures status == Ok ==> body < ptr <= |data|
      ensures after(FieldOf(status, View(), data, ptr)) == after(BuffsElement(data[body..], old(View()), depth))
    {
      status, ptr := Ok, body;
      ghost var result := after(BuffsElement(data[body..], View(), depth));
      var more := true;
      while more
        invariant ptr <= |data| && (status == Ok ==> body <= ptr)
        invariant more ==> status == Ok && after(BuffsElement(data[ptr..], View(), depth)) == result
        invariant !more ==> after(FieldOf(status, View(), data, ptr)) == result && (status == Ok ==> body < ptr)
        decreases more, |data| - ptr
      {
        status, ptr, more := ParseNextBuff(data, ptr, depth, after, result);
      }
    }

    /** One round: an element, and the tag byte behind it if another one follows. */
    method ParseNextBuff(data: seq<byte>, p: nat, depth: nat, ghost after: Field<TestMsg> -> Outcome<TestMsg>,
                         ghost result: Outcome<TestMsg>)
        returns (status: Status, ptr: nat, more: bool)
      requires p <= |data| && TagMayBeRead(data, depth, after)
      requires after(BuffsElement(data[p..], View(), depth)) == result
      modifies this`buffs
      ensures ptr <= |data| && (status == Ok ==> p < ptr) && (more ==> status == Ok)
      ensures more ==> after(BuffsElement(data[ptr..], View(), depth)) == result
      ensures !more ==> after(FieldOf(status, View(), data, ptr)) == result
    {
      status, ptr := ParseElement(data, p, depth);
      more := status == Ok && ptr < |data| && data[ptr] == 34;
      if more {
        RunGoesOn(data, ptr, View(), depth, after);
        ptr := ptr + 1;
      }
    }

    /** ctx->ParseMessage(_internal_add_buffs(), ptr). */
    method ParseElement(data: seq<byte>, body: nat, depth: nat) returns (status: Status, next: nat)
      requires body <= |data|
      modifies this`buffs
      ensures next <= |data| && (status == Ok ==> body < next)
      ensures FieldOf(status, View(), data, next) == BuffsElement(data[body..], old(View()), depth)
    {
      next := body;
      var ok, payload, end := ReadString(data, body);
      if !ok || depth == 0 {
        return ParseError, next;
      }
      status := AddParsed(payload, depth - 1);
      next := end;
    }

    /** A new element, parsed from the bytes within its announced length. */
    method AddParsed(payload: seq<byte>, depth: nat) returns (status: Status)
      modifies this`buffs
      ensures match ParseBuff(payload, EMPTY_BUFF, depth)
              case Done(b) => status == Ok && Views(buffs) == old(Views(buffs)) + [b]
              case Failed => status == ParseError
    {
      var b := new BuffData();
      status := b.InternalParse(payload, depth);
      ViewsKept(buffs);
      ViewsOfLast(buffs, b);
      buffs := buffs + [b];
    }

    /** One round of the parse loop for a field other than `buffs`. */
    method ParseField(data: seq<byte>, ptr: nat, depth: nat) returns (status: Status, next: nat)
      requires ptr < |data| && (ReadTag(data[ptr..]).Got? ==> ReadTag(data[ptr..]).value != 34)
      modifies this`id, this`hp, this`attack, this`msg, this`unknown
      ensures status == Ok ==> ptr < next <= |data|
      ensures FieldOf(status, View(), data, next) == MsgField(data[ptr..], old(View()), depth)
    {
      next := ptr;
      var ok, tag, body := ReadTagBytes(data, ptr);
      if !ok {
        return ParseError, next;
      }
      if tag == 8 {
        var ok, v, after := VarintParse64(data, body);
        if !ok {
          return ParseError, next;
        }
        id := v;
        return Ok, after;
      } else if tag == 16 || tag == 24 {
        var ok, v, after := VarintParse32(data, body);
        if !ok {
          return ParseError, next;
        }
        if tag == 16 {
          hp := v;
        } else {
          attack := v;
        }
        return Ok, after;
      } else if tag == 42 {
        var ok, s, after := ReadString(data, body);
        if !ok || !ValidUtf8(s) {
          return ParseError, next;
        }
        msg := s;
        return Ok, after;
      } else if EndsMessage(tag) {
        return ParseError, next;
      } else {
        var ok, u, after := FieldParser(tag, data, body, depth);
        if !ok {
          return ParseError, next;
        }
        unknown := unknown + [u];
        return Ok, after;
      }
    }
  }

  /** How a parse goes on after a field. */
  ghost function AfterField(field: Field<TestMsg>, depth: nat): Outcome<TestMsg> {
    match field
    case Malformed => Failed
    case Next(m, rest) => ParseMsg(rest, m, depth)
  }

  /** It makes no difference for what comes after whether a tag byte 34 is read as a tag or
      looked for. */
  ghost predicate TagMayBeRead(data: seq<byte>, depth: nat, after: Field<TestMsg> -> Outcome<TestMsg>) {
    forall p: nat, m: TestMsg {:trigger after(Next(m, data[p..]))} :: p < |data| && data[p] == 34 ==>
      after(Next(m, data[p..])) == after(BuffsElement(data[p + 1..], m, depth))
  }

  lemma RunGoesOn(data: seq<byte>, p: nat, m: TestMsg, depth: nat, after: Field<TestMsg> -> Outcome<TestMsg>)
    requires TagMayBeRead(data, depth, after) && p < |data| && data[p] == 34
    ensures after(FieldOf(Ok, m, data, p)) == after(BuffsElement(data[p + 1..], m, depth))
  {
    assert FieldOf(Ok, m, data, p) == Next(m, data[p..]);
  }

  lemma TagByteAgain(data: seq<byte>, ptr: nat, m: TestMsg, depth: nat)
    requires ptr < |data| && data[ptr] == 34
    ensures ParseMsg(data[ptr..], m, depth) == AfterField(BuffsElement(data[ptr + 1..], m, depth), depth)
  {
    assert data[ptr..] == [34] + data[ptr + 1..];
    ReadTagOneByte(34, data[ptr + 1..]);
    BuffsField(data[ptr..], data[ptr + 1..], m, depth);
  }

  /** So it is for the rest of the parse. */
  lemma ParseReadsTag(data: seq<byte>, depth: nat)
    ensures TagMayBeRead(data, depth, f => AfterField(f, depth))
  {
    forall p: nat, m: TestMsg | p < |data| && data[p] == 34
      ensures AfterField(Next(m, data[p..]), depth) == AfterField(BuffsElement(data[p + 1..], m, depth), depth)
    {
      TagByteAgain(data, p, m, depth);
    }
  }
}
