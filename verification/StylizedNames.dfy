/** The lazily built index of fields by lower-case name; the one by camel-case name works
    in the same way. Of fields with one name in one parent the first cross-linked counts,
    though the index is filled from a hash set. */
module StylizedNames {
  import opened Common

  type FieldId = nat

  /** The parent that a field is indexed under, and its name in lower case. */
  datatype Key = Key(parent: nat, name: string)

  /** Field i has the key, and none of the fields before it. */
  ghost predicate FirstAt(order: seq<FieldId>, keyOf: FieldId -> Key, key: Key, i: nat) {
    i < |order| && keyOf(order[i]) == key && forall j :: 0 <= j < i ==> keyOf(order[j]) != key
  }

  /** The first field in the order with the key. */
  function First(order: seq<FieldId>, keyOf: FieldId -> Key, key: Key): (r: Option<FieldId>)
    ensures r.Some? ==> r.value in order && keyOf(r.value) == key
    ensures r.None? ==> forall f :: f in order ==> keyOf(f) != key
  {
    if order == [] then None
    else
      var r := First(order[..|order| - 1], keyOf, key);
      assert order == order[..|order| - 1] + [order[|order| - 1]];
      if r.Some? then r
      else if keyOf(order[|order| - 1]) == key then Some(order[|order| - 1]) else None
  }

  /** It is the field at the first position that has the key. */
  lemma {:induction false} FirstIs(order: seq<FieldId>, keyOf: FieldId -> Key, key: Key, i: nat)
    requires FirstAt(order, keyOf, key, i)
    ensures First(order, keyOf, key) == Some(order[i])
  {
    if i < |order| - 1 {
      FirstIs(order[..|order| - 1], keyOf, key, i);
    }
  }

  lemma FirstOfLonger(order: seq<FieldId>, f: FieldId, keyOf: FieldId -> Key, key: Key)
    ensures First(order + [f], keyOf, key) ==
      if First(order, keyOf, key).Some? then First(order, keyOf, key)
      else if keyOf(f) == key then Some(f) else None
  {
    assert (order + [f])[..|order|] == order;
  }

  class NameIndex {
    const keyOf: FieldId -> Key
    /** The fields among the symbols by parent, a hash set. */
    var fields: set<FieldId>
    var byName: map<Key, FieldId>
    var tmp: Option<map<Key, FieldId>>
    var once: bool
    /** The fields in the order in which they were cross-linked. */
    ghost var order: seq<FieldId>

    /** No field but the first cross-linked one has the key. */
    ghost predicate Alone(key: Key)
      reads this`order
    {
      forall f :: f in order && keyOf(f) == key ==> First(order, keyOf, key) == Some(f)
    }

    /** What is stored for a key agrees with the order, and every conflict is stored. */
    ghost predicate KeyOk(key: Key)
      reads this`order, this`byName
    {
      && (key in byName ==> First(order, keyOf, key) == Some(byName[key]))
      && (key !in byName ==> Alone(key))
    }

    ghost predicate TmpOk(key: Key)
      reads this`order, this`tmp
    {
      tmp.Some? ==>
        if key in tmp.value then First(order, keyOf, key) == Some(tmp.value[key])
        else First(order, keyOf, key) == None
    }

    ghost predicate Valid()
      reads this
    {
      && (forall key {:trigger KeyOk(key)} :: KeyOk(key))
      && (forall key {:trigger TmpOk(key)} :: TmpOk(key))
      && (once ==> forall f :: f in order ==> keyOf(f) in byName)
      && (once ==> tmp.None?)
    }

    constructor (keyOf: FieldId -> Key)
      ensures Valid() && order == [] && tmp.Some? && fields == {} && !once && this.keyOf == keyOf
    {
      this.keyOf := keyOf;
      fields, byName, tmp, once, order := {}, map[], Some(map[]), false, [];
    }

    /** A field is among the symbols by parent from when it is built. */
    method AddAliasUnderParent(f: FieldId)
      requires Valid()
      modifies this`fields
      ensures Valid() && fields == old(fields) + {f}
    {
      fields := fields + {f};
    }

    method AddFieldByStylizedNames(f: FieldId)
      requires Valid() && tmp.Some? && f !in order
      modifies this`byName, this`tmp, this`order
      ensures Valid() && tmp.Some? && order == old(order) + [f]
    {
      var key := keyOf(f);
      var seen := tmp.value;
      assert KeyOk(key) && TmpOk(key);
      order := order + [f];
      if key !in seen {
        tmp := Some(seen[key := f]);
      } else if key !in byName {
        byName := byName[key := seen[key]];
      }
      forall k
        ensures KeyOk(k) && TmpOk(k)
      {
        FirstOfLonger(old(order), f, keyOf, k);
        assert old(KeyOk(k) && TmpOk(k));
      }
    }

    /** After the build, only the conflicts are left. */
    method FinalizeTables()
      requires Valid()
      modifies this`tmp
      ensures Valid() && tmp.None?
    {
      tmp := None;
      assert forall key :: KeyOk(key) ==> TmpOk(key);
    }

    /** Whatever order the hash set is walked in, the lookup finds the field that was
        cross-linked first. */
    method FindFieldByLowercaseName(key: Key) returns (r: Option<FieldId>)
      requires Valid() && tmp.None?
      requires forall f :: f in fields <==> f in order
      modifies this`byName, this`once
      ensures Valid() && once
      ensures r == First(order, keyOf, key)
    {
      if !once {
        LazyInit();
        once := true;
      }
      assert KeyOk(key);
      return if key in byName then Some(byName[key]) else None;
    }

    method LazyInit()
      requires Valid() && tmp.None?
      requires forall f :: f in fields <==> f in order
      modifies this`byName
      ensures Valid() && forall f :: f in order ==> keyOf(f) in byName
    {
      var rest := fields;
      while rest != {}
        invariant rest <= fields && Valid()
        invariant forall f :: f in order && f !in rest ==> keyOf(f) in byName
        decreases rest
      {
        var f :| f in rest;
        rest := rest - {f};
        StoreFirst(f);
      }
    }

    /** InsertIfNotPresent: what is stored for a key stays. */
    method StoreFirst(f: FieldId)
      requires Valid() && tmp.None? && f in order
      modifies this`byName
      ensures byName == if keyOf(f) in old(byName) then old(byName) else old(byName)[keyOf(f) := f]
      ensures Valid()
    {
      assert KeyOk(keyOf(f));
      if keyOf(f) !in byName {
        byName := byName[keyOf(f) := f];
        forall k
          ensures KeyOk(k)
        {
          assert old(KeyOk(k));
        }
      }
    }
  }
}
