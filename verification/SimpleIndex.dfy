/** The symbol table of the descriptor database that keeps parsed files: an ordered
    map from each symbol to the file that declares it. */
module SimpleIndexes {
  import opened Common
  import opened SymbolNames

  datatype Entry<V> = Entry(key: string, value: V)

  /** The keys of an ordered map, in order. */
  function Keys<V>(entries: seq<Entry<V>>): (keys: seq<string>)
    ensures |keys| == |entries|
    ensures forall i :: 0 <= i < |keys| ==> keys[i] == entries[i].key
  {
    seq(|entries|, i requires 0 <= i < |entries| => entries[i].key)
  }

  function InsertedEntry<V>(entries: seq<Entry<V>>, entry: Entry<V>): seq<Entry<V>> {
    var u := UpperBound(Keys(entries), entry.key);
    entries[..u] + [entry] + entries[u..]
  }

  lemma KeysOfInserted<V>(entries: seq<Entry<V>>, entry: Entry<V>)
    ensures Keys(InsertedEntry(entries, entry)) == Inserted(Keys(entries), entry.key)
  {
  }

  lemma InsertedMembers<V>(entries: seq<Entry<V>>, entry: Entry<V>)
    ensures multiset(InsertedEntry(entries, entry)) == multiset(entries) + multiset{entry}
  {
    var u := UpperBound(Keys(entries), entry.key);
    assert entries == entries[..u] + entries[u..];
  }

  class SimpleIndex<V(==)> {
    var bySymbol: seq<Entry<V>>

    ghost predicate Valid()
      reads this
    {
      TableOk(Keys(bySymbol))
    }

    constructor ()
      ensures Valid() && bySymbol == []
    {
      bySymbol := [];
    }

    /** A name is taken if it is valid and no symbol conflicts with it, and also in
        the one overlooked case; it is that case, and no other, that lets one symbol
        of the table enclose another. */
    method AddSymbol(name: string, value: V) returns (added: bool)
      requires Valid()
      modifies this
      ensures
        && var keys := old(Keys(bySymbol));
        && (added <==> ValidateSymbolName(name) && (!Conflicts(keys, name) || Overlooked(keys, name)))
        && (Valid() <==> !(added && Overlooked(keys, name)))
      ensures bySymbol == if added then InsertedEntry(old(bySymbol), Entry(name, value)) else old(bySymbol)
      ensures multiset(bySymbol) == old(multiset(bySymbol)) + if added then multiset{Entry(name, value)} else multiset{}
    {
      InsertedMembers(bySymbol, Entry(name, value));
      if !ValidateSymbolName(name) {
        return false;
      }
      var keys := Keys(bySymbol);
      NeighboursAllowIff(keys, name);
      InsertKeepsTableIff(keys, name);
      KeysOfInserted(bySymbol, Entry(name, value));
      if Overlooked(keys, name) {
        assert Conflicts(keys, name) by {
          assert IsSubSymbol(name, keys[0]);
        }
      }
      var iter := LastLessOrEqual(keys, name);
      if iter == |bySymbol| {
        bySymbol := InsertedEntry(bySymbol, Entry(name, value));
        return true;
      }
      if IsSubSymbol(bySymbol[iter].key, name) {
        return false;
      }
      iter := iter + 1;
      if iter != |bySymbol| && IsSubSymbol(name, bySymbol[iter].key) {
        return false;
      }
      bySymbol := InsertedEntry(bySymbol, Entry(name, value));
      return true;
    }

    /** The value kept under the symbol that equals or encloses `name`, if any does. */
    method FindSymbol(name: string) returns (value: Option<V>)
      requires Valid()
      ensures value.Some? <==> exists i :: 0 <= i < |bySymbol| && IsSubSymbol(bySymbol[i].key, name)
      ensures forall i :: 0 <= i < |bySymbol| && IsSubSymbol(bySymbol[i].key, name) ==>
        value == Some(bySymbol[i].value)
    {
      var keys := Keys(bySymbol);
      var iter := LastLessOrEqual(keys, name);
      forall i | 0 <= i < |keys| && IsSubSymbol(keys[i], name)
        ensures i == iter
      {
        EncloserIsNeighbour(keys, name, i);
      }
      if iter != |bySymbol| && IsSubSymbol(bySymbol[iter].key, name) {
        return Some(bySymbol[iter].value);
      }
      return None;
    }
  }
}
