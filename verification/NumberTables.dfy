/** Lookup of fields and enum values by number: a run of consecutive numbers at the start
    is served by position, everything else by a hash table. */
module NumberTables {
  import opened Common

  const LIMIT_MAX: nat := 65535

  // ---------------------------------------------------------------------
  // The runs served by position.

  /** The longest run 1, 2, 3, ... at the start, cut at what 16 bits can hold. */
  ghost predicate IsFieldLimit(numbers: seq<int>, limit: nat) {
    && limit <= |numbers| && limit <= LIMIT_MAX
    && (forall i :: 0 <= i < limit ==> numbers[i] == i + 1)
    && (limit == |numbers| || limit == LIMIT_MAX || numbers[limit] != limit + 1)
  }

  method SequentialFieldLimit(numbers: seq<int>) returns (limit: nat)
    ensures IsFieldLimit(numbers, limit)
  {
    limit := 0;
    var i := 0;
    while i < LIMIT_MAX && i < |numbers| && numbers[i] == i + 1
      invariant limit == i <= |numbers| && i <= LIMIT_MAX
      invariant forall k :: 0 <= k < i ==> numbers[k] == k + 1
    {
      limit := i + 1;
      i := i + 1;
    }
  }

  /** The last position of the longest run of consecutive numbers at the start, cut in
      the same way. */
  ghost predicate IsValueLimit(numbers: seq<int>, limit: nat) {
    && limit < |numbers| && limit < LIMIT_MAX
    && (forall i :: 0 <= i <= limit ==> numbers[i] == numbers[0] + i)
    && (limit + 1 == |numbers| || limit + 1 == LIMIT_MAX || numbers[limit + 1] != numbers[0] + limit + 1)
  }

  method SequentialValueLimit(numbers: seq<int>) returns (limit: nat)
    ensures numbers != [] ==> IsValueLimit(numbers, limit)
  {
    limit := 0;
    var i := 0;
    while i < LIMIT_MAX && i < |numbers| && numbers[i] == i + numbers[0]
      invariant i <= |numbers| && i <= LIMIT_MAX && limit == if i == 0 then 0 else i - 1
      invariant forall k :: 0 <= k < i ==> numbers[k] == numbers[0] + k
    {
      limit := i;
      i := i + 1;
    }
  }

  /** Linear search: the position of the first of the first `n` numbers that is `number`. */
  function First(numbers: seq<int>, n: nat, number: int): (r: Option<nat>)
    requires n <= |numbers|
    ensures r.Some? ==> r.value < n && numbers[r.value] == number
    ensures r.Some? ==> forall i :: 0 <= i < r.value ==> numbers[i] != number
    ensures r.None? ==> forall i :: 0 <= i < n ==> numbers[i] != number
  {
    if n == 0 then None
    else
      var r := First(numbers, n - 1, number);
      if r.Some? then r else if numbers[n - 1] == number then Some(n - 1) else None
  }

  // ---------------------------------------------------------------------
  // Enum values.

  class EnumTables {
    const enums: seq<seq<int>>
    const limits: seq<nat>
    /** The value kept for an enum and a number, by its position in the enum. */
    var byNumber: map<(nat, int), nat>
    /** How many values of each enum have been built. */
    ghost var added: seq<nat>

    predicate InRun(e: nat, number: int)
      requires e < |enums| && |limits| == |enums| && enums[e] != []
    {
      enums[e][0] <= number <= enums[e][0] + limits[e]
    }

    /** The table has the first value added with the number, unless the run serves it. */
    ghost predicate EntryOk(e: nat, n: int)
      requires |limits| == |enums| == |added| && e < |enums| && enums[e] != [] && added[e] <= |enums[e]|
      reads this
    {
      if InRun(e, n) then (e, n) !in byNumber else
        match First(enums[e], added[e], n)
        case Some(i) => (e, n) in byNumber && byNumber[(e, n)] == i
        case None => (e, n) !in byNumber
    }

    ghost predicate EnumOk(e: nat)
      requires |limits| == |enums| == |added| && e < |enums|
      reads this
    {
      && enums[e] != [] && IsValueLimit(enums[e], limits[e]) && added[e] <= |enums[e]|
      && forall n {:trigger EntryOk(e, n)} :: EntryOk(e, n)
    }

    ghost predicate Valid()
      reads this
    {
      |limits| == |enums| == |added| && forall e :: 0 <= e < |enums| ==> EnumOk(e)
    }

    constructor (enums: seq<seq<int>>, limits: seq<nat>)
      requires |limits| == |enums|
      requires forall e :: 0 <= e < |enums| ==> enums[e] != [] && IsValueLimit(enums[e], limits[e])
      ensures this.enums == enums && this.limits == limits && Valid()
      ensures added == seq(|enums|, e => 0)
    {
      this.enums, this.limits := enums, limits;
      byNumber, added := map[], seq(|enums|, e => 0);
    }

    /** Values are added as they are declared. Of values with one number, the first counts. */
    method AddEnumValueByNumber(e: nat, i: nat) returns (isNew: bool)
      requires Valid() && e < |enums| && i == added[e] < |enums[e]|
      modifies this
      ensures isNew <==>
        || enums[e][0] <= enums[e][i] <= enums[e][0] + limits[e]
        || forall j :: 0 <= j < i ==> enums[e][j] != enums[e][i]
      ensures Valid() && added == old(added)[e := i + 1]
    {
      var number := enums[e][i];
      assert EnumOk(e) && EntryOk(e, number);
      added := added[e := i + 1];
      isNew := InRun(e, number) || (e, number) !in byNumber;
      if !InRun(e, number) && (e, number) !in byNumber {
        byNumber := byNumber[(e, number) := i];
      }
      forall o | 0 <= o < |enums|
        ensures EnumOk(o)
      {
        assert old(EnumOk(o));
        forall n
          ensures EntryOk(o, n)
        {
          assert old(EntryOk(o, n));
        }
      }
    }

    /** The first declared value with the number, aliases or not, as a linear search finds it. */
    method FindEnumValueByNumber(e: nat, number: int) returns (r: Option<nat>)
      requires Valid() && e < |enums| && added[e] == |enums[e]|
      ensures r == First(enums[e], |enums[e]|, number)
    {
      assert EnumOk(e) && EntryOk(e, number);
      var base := enums[e][0];
      if base <= number && number <= base + limits[e] {
        assert enums[e][number - base] == number;
        return Some(number - base);
      }
      return if (e, number) in byNumber then Some(byNumber[(e, number)]) else None;
    }
  }

  // ---------------------------------------------------------------------
  // Fields.

  /** The field at a position of a message, or an extension, which may or may not know the
      message it extends. */
  datatype Field = Declared(message: nat, index: nat) | Extension(id: nat, extendee: Option<nat>, number: int)

  class FieldTables {
    const messages: seq<seq<int>>
    const limits: seq<nat>
    var byNumber: map<(Option<nat>, int), Field>
    /** The fields that were added without a conflict. */
    ghost var accepted: set<Field>

    predicate Known(f: Field) {
      match f
      case Declared(m, i) => m < |messages| && i < |messages[m]|
      case Extension(_, extendee, _) => extendee.Some? ==> extendee.value < |messages|
    }

    function Parent(f: Field): (p: Option<nat>)
      requires Known(f)
      ensures p.Some? ==> p.value < |messages|
    {
      match f
      case Declared(m, _) => Some(m)
      case Extension(_, extendee, _) => extendee
    }

    function Number(f: Field): int
      requires Known(f)
    {
      match f
      case Declared(m, i) => messages[m][i]
      case Extension(_, _, number) => number
    }

    ghost predicate SameNumber(f: Field, g: Field) {
      Known(f) && Known(g) && Parent(f) == Parent(g) && Number(f) == Number(g)
    }

    predicate InRun(parent: Option<nat>, number: int)
      requires |limits| == |messages| && (parent.Some? ==> parent.value < |messages|)
    {
      parent.Some? && 1 <= number <= limits[parent.value]
    }

    ghost predicate AcceptedOk(f: Field)
      requires |limits| == |messages|
      reads this
    {
      && Known(f)
      && if InRun(Parent(f), Number(f)) then f.Declared? && f.index == Number(f) - 1
         else (Parent(f), Number(f)) in byNumber && byNumber[(Parent(f), Number(f))] == f
    }

    ghost predicate Valid()
      reads this
    {
      && |limits| == |messages|
      && (forall m :: 0 <= m < |messages| ==> IsFieldLimit(messages[m], limits[m]))
      && (forall f {:trigger AcceptedOk(f)} :: f in accepted ==> AcceptedOk(f))
      && (forall k {:trigger k in byNumber} :: k in byNumber ==>
           byNumber[k] in accepted && Known(byNumber[k]) && (Parent(byNumber[k]), Number(byNumber[k])) == k)
    }

    constructor (messages: seq<seq<int>>, limits: seq<nat>)
      requires |limits| == |messages|
      requires forall m :: 0 <= m < |messages| ==> IsFieldLimit(messages[m], limits[m])
      ensures this.messages == messages && this.limits == limits && Valid() && accepted == {}
    {
      this.messages, this.limits := messages, limits;
      byNumber, accepted := map[], {};
    }

    /** A field is accepted if and only if no other field accepted so far, and no field in
        the run, has its number in the same message. */
    method AddFieldByNumber(f: Field) returns (ok: bool)
      requires Valid() && Known(f) && f !in accepted
      modifies this
      ensures Valid() && accepted == old(accepted) + (if ok then {f} else {})
      ensures ok <==>
        && (forall g :: g in old(accepted) ==> !SameNumber(g, f))
        && (Parent(f).Some? && 1 <= Number(f) <= limits[Parent(f).value] ==>
             f == Declared(Parent(f).value, Number(f) - 1))
    {
      var parent, number := Parent(f), Number(f);
      if InRun(parent, number) {
        if f.Extension? {
          return false;
        }
        ok := f == Declared(parent.value, number - 1);
        if ok {
          forall g | g in accepted
            ensures !SameNumber(g, f)
          {
            assert AcceptedOk(g);
          }
          accepted := accepted + {f};
          assert forall g :: g in old(accepted) ==> old(AcceptedOk(g));
        }
        return;
      }
      if (parent, number) in byNumber {
        return false;
      }
      forall g | g in accepted
        ensures !SameNumber(g, f)
      {
        assert AcceptedOk(g);
      }
      byNumber := byNumber[(parent, number) := f];
      accepted := accepted + {f};
      assert forall g :: g in old(accepted) ==> old(AcceptedOk(g));
      return true;
    }

    /** The table's answer: a declared field or an extension. */
    method FindByNumber(m: nat, number: int) returns (r: Option<Field>)
      requires Valid() && m < |messages|
      ensures r == if InRun(Some(m), number) then Some(Declared(m, number - 1))
        else if (Some(m), number) in byNumber then Some(byNumber[(Some(m), number)]) else None
    {
      if 1 <= number && number <= limits[m] {
        return Some(Declared(m, number - 1));
      }
      return if (Some(m), number) in byNumber then Some(byNumber[(Some(m), number)]) else None;
    }

    /** If all fields of the message were accepted, a lookup finds the one declared field
        with the number, as a linear search does, and nothing if there is none. */
    method FindFieldByNumber(m: nat, number: int) returns (r: Option<nat>)
      requires Valid() && m < |messages|
      requires forall i {:trigger Declared(m, i)} :: 0 <= i < |messages[m]| ==> Declared(m, i) in accepted
      ensures r == First(messages[m], |messages[m]|, number)
      ensures forall i :: 0 <= i < |messages[m]| && messages[m][i] == number ==> r == Some(i)
    {
      var found := FindByNumber(m, number);
      forall i | 0 <= i < |messages[m]| && messages[m][i] == number
        ensures found == Some(Declared(m, i))
      {
        assert AcceptedOk(Declared(m, i));
      }
      ghost var first := First(messages[m], |messages[m]|, number);
      assert first.Some? ==> messages[m][first.value] == number;
      if found == None || found.value.Extension? {
        return None;
      }
      assert found.value.message == m && messages[m][found.value.index] == number by {
        if !InRun(Some(m), number) {
          assert (Some(m), number) in byNumber;
        }
      }
      return Some(found.value.index);
    }
  }
}
