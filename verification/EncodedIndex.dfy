/** The index of the descriptor database that keeps encoded files: new file names and
    symbols go to ordered sets, which are merged into sorted vectors when a lookup needs
    them. */
module EncodedIndexes {
  import opened Common
  import opened FileNames
  import opened SymbolNames
  import opened SymbolOrder

  datatype File<V> = File(value: V, package: string)

  datatype SymbolEntry = SymbolEntry(offset: nat, symbol: string)

  predicate Placed<V>(files: seq<File<V>>, entries: seq<SymbolEntry>) {
    forall i :: 0 <= i < |entries| ==> entries[i].offset < |files|
  }

  function AsOperand<V>(files: seq<File<V>>, entry: SymbolEntry): Operand
    requires entry.offset < |files|
  {
    InPackage(files[entry.offset].package, entry.symbol)
  }

  /** The full names of a container's entries, in its order. */
  function Names<V>(files: seq<File<V>>, entries: seq<SymbolEntry>): (names: seq<string>)
    requires Placed(files, entries)
    ensures |names| == |entries|
    ensures forall i :: 0 <= i < |names| ==> names[i] == Full(AsOperand(files, entries[i]))
  {
    seq(|entries|, i requires 0 <= i < |entries| => Full(AsOperand(files, entries[i])))
  }

  /** No name of one table encloses a name of the other. */
  ghost predicate Apart(a: seq<string>, b: seq<string>) {
    forall i, j {:trigger a[i], b[j]} :: 0 <= i < |a| && 0 <= j < |b| ==>
      !IsSubSymbol(a[i], b[j]) && !IsSubSymbol(b[j], a[i])
  }

  // ---------------------------------------------------------------------
  // The search, with the two-part comparison.

  /** SymbolCompare of the key and entry `i`. */
  predicate Before<V>(files: seq<File<V>>, entries: seq<SymbolEntry>, key: Operand, i: nat)
    requires Placed(files, entries) && i < |entries|
  {
    Compare(key, AsOperand(files, entries[i]))
  }

  /** The position of the first entry after the key, by SymbolCompare. */
  function FirstAfter<V>(files: seq<File<V>>, entries: seq<SymbolEntry>, key: Operand): (u: nat)
    requires Placed(files, entries)
    ensures u <= |entries|
  {
    if entries == [] || Before(files, entries, key, 0) then 0
    else 1 + FirstAfter(files, entries[1..], key)
  }

  lemma {:induction false} FirstAfterIs<V>(files: seq<File<V>>, entries: seq<SymbolEntry>, key: Operand, f: nat)
    requires Placed(files, entries) && f <= |entries|
    requires forall i {:trigger Before(files, entries, key, i)} :: 0 <= i < f ==> !Before(files, entries, key, i)
    requires f < |entries| ==> Before(files, entries, key, f)
    ensures FirstAfter(files, entries, key) == f
  {
    if f > 0 {
      assert !Before(files, entries, key, 0);
      forall i | 0 <= i < |entries| - 1
        ensures Before(files, entries[1..], key, i) == Before(files, entries, key, i + 1)
      {
      }
      FirstAfterIs(files, entries[1..], key, f - 1);
    }
  }

  function LastNotAfter<V>(files: seq<File<V>>, entries: seq<SymbolEntry>, key: Operand): (i: nat)
    requires Placed(files, entries)
    ensures i <= |entries|
  {
    var u := FirstAfter(files, entries, key);
    if u != 0 then u - 1 else u
  }

  /** The comparison misjudges the key against entry `m`. */
  predicate MisjudgedAt<V>(files: seq<File<V>>, entries: seq<SymbolEntry>, key: Operand, m: nat)
    requires Placed(files, entries)
  {
    m < |entries| && Misjudged(key, AsOperand(files, entries[m]))
  }

  /** A misjudged entry is the first one after the key. */
  lemma MisjudgedIsNext<V>(files: seq<File<V>>, entries: seq<SymbolEntry>, key: Operand, m: nat)
    requires Placed(files, entries) && TableOk(Names(files, entries)) && MisjudgedAt(files, entries, key, m)
    ensures m == UpperBound(Names(files, entries), Full(key))
  {
    var names := Names(files, entries);
    MisjudgedEncloses(key, AsOperand(files, entries[m]));
    assert Less(Full(key), names[m]);
    var u := UpperBound(names, Full(key));
    if u < m {
      NothingBetween(Full(key), names[u]);
    }
  }

  /** In a table in order, the comparison puts the key in front of all entries that are
      after it by name, but for a misjudged one. */
  lemma CompareAt<V>(files: seq<File<V>>, entries: seq<SymbolEntry>, key: Operand, i: nat)
    requires Placed(files, entries) && TableOk(Names(files, entries)) && i < |entries|
    ensures
      Before(files, entries, key, i) ==
      (UpperBound(Names(files, entries), Full(key)) <= i && !MisjudgedAt(files, entries, key, i))
  {
    var names := Names(files, entries);
    CompareIsLessIff(key, AsOperand(files, entries[i]));
    if UpperBound(names, Full(key)) <= i {
      AfterUpperBound(names, Full(key), i);
    }
    if MisjudgedAt(files, entries, key, i) {
      MisjudgedIsNext(files, entries, key, i);
      MisjudgedEncloses(key, AsOperand(files, entries[i]));
    }
  }

  /** The search ends where that of the full names ends, or behind a misjudged entry
      there; and the key is before all entries from there on, so every way to search
      for that place finds it. */
  lemma SearchByName<V>(files: seq<File<V>>, entries: seq<SymbolEntry>, key: Operand)
    requires Placed(files, entries) && TableOk(Names(files, entries))
    ensures
      && var u := UpperBound(Names(files, entries), Full(key));
      && FirstAfter(files, entries, key) == if MisjudgedAt(files, entries, key, u) then u + 1 else u
    ensures forall i {:trigger Before(files, entries, key, i)} ::
      FirstAfter(files, entries, key) <= i < |entries| ==> Before(files, entries, key, i)
  {
    var u := UpperBound(Names(files, entries), Full(key));
    var f := if MisjudgedAt(files, entries, key, u) then u + 1 else u;
    forall i | 0 <= i < |entries|
      ensures Before(files, entries, key, i) == (f <= i)
    {
      CompareAt(files, entries, key, i);
      if MisjudgedAt(files, entries, key, i) {
        MisjudgedIsNext(files, entries, key, i);
      }
    }
    FirstAfterIs(files, entries, key, f);
  }

  // ---------------------------------------------------------------------
  // Merging.

  /** std::merge: takes from the second range only what is before the first. */
  function Merge<V>(files: seq<File<V>>, a: seq<SymbolEntry>, b: seq<SymbolEntry>): (r: seq<SymbolEntry>)
    requires Placed(files, a) && Placed(files, b)
    ensures |r| == |a| + |b| && Placed(files, r)
    decreases |a| + |b|
  {
    if a == [] then b
    else if b == [] then a
    else if Compare(AsOperand(files, b[0]), AsOperand(files, a[0])) then [b[0]] + Merge(files, a, b[1..])
    else [a[0]] + Merge(files, a[1..], b)
  }

  lemma CountHead<T>(s: seq<T>)
    requires s != []
    ensures multiset(s) == multiset([s[0]]) + multiset(s[1..])
  {
    assert s == [s[0]] + s[1..];
  }

  lemma {:induction false} MergeKeepsAll<V>(files: seq<File<V>>, a: seq<SymbolEntry>, b: seq<SymbolEntry>)
    requires Placed(files, a) && Placed(files, b)
    ensures multiset(Merge(files, a, b)) == multiset(a) + multiset(b)
    decreases |a| + |b|
  {
    if a != [] && b != [] {
      if Compare(AsOperand(files, b[0]), AsOperand(files, a[0])) {
        MergeKeepsAll(files, a, b[1..]);
        CountHead(b);
      } else {
        MergeKeepsAll(files, a[1..], b);
        CountHead(a);
      }
    }
  }

  function MergeNames(a: seq<string>, b: seq<string>): (r: seq<string>)
    ensures |r| == |a| + |b|
    ensures forall s :: s in r <==> s in a || s in b
    decreases |a| + |b|
  {
    if a == [] then b
    else if b == [] then a
    else if Less(b[0], a[0]) then
      assert b == [b[0]] + b[1..];
      [b[0]] + MergeNames(a, b[1..])
    else
      assert a == [a[0]] + a[1..];
      [a[0]] + MergeNames(a[1..], b)
  }

  lemma NamesOfCons<V>(files: seq<File<V>>, entry: SymbolEntry, entries: seq<SymbolEntry>)
    requires Placed(files, entries) && entry.offset < |files|
    ensures Names(files, [entry] + entries) == [Full(AsOperand(files, entry))] + Names(files, entries)
  {
  }

  lemma NamesOfTail<V>(files: seq<File<V>>, entries: seq<SymbolEntry>)
    requires Placed(files, entries) && entries != []
    ensures Names(files, entries)[1..] == Names(files, entries[1..])
  {
  }

  lemma ApartTails(a: seq<string>, b: seq<string>)
    requires Apart(a, b)
    ensures a != [] ==> Apart(a[1..], b)
    ensures b != [] ==> Apart(a, b[1..])
  {
    if a != [] {
      assert forall i :: 0 <= i < |a[1..]| ==> a[1..][i] == a[i + 1];
    }
    if b != [] {
      assert forall i :: 0 <= i < |b[1..]| ==> b[1..][i] == b[i + 1];
    }
  }

  /** Merging by the two-part comparison merges the full names: a misjudged pair would
      enclose each other. */
  lemma {:induction false} NamesOfMerge<V>(files: seq<File<V>>, a: seq<SymbolEntry>, b: seq<SymbolEntry>)
    requires Placed(files, a) && Placed(files, b) && Apart(Names(files, a), Names(files, b))
    ensures Names(files, Merge(files, a, b)) == MergeNames(Names(files, a), Names(files, b))
    decreases |a| + |b|
  {
    if a != [] && b != [] {
      var x, y := AsOperand(files, a[0]), AsOperand(files, b[0]);
      assert Names(files, a)[0] == Full(x) && Names(files, b)[0] == Full(y);
      ApartTails(Names(files, a), Names(files, b));
      CompareIsLessIff(y, x);
      if Misjudged(y, x) {
        MisjudgedEncloses(y, x);
      }
      if Compare(y, x) {
        NamesOfTail(files, b);
        NamesOfMerge(files, a, b[1..]);
        NamesOfCons(files, b[0], Merge(files, a, b[1..]));
      } else {
        NamesOfTail(files, a);
        NamesOfMerge(files, a[1..], b);
        NamesOfCons(files, a[0], Merge(files, a[1..], b));
      }
    }
  }

  ghost predicate AllAfter(s: string, names: seq<string>) {
    forall t :: t in names ==> Less(s, t)
  }

  lemma SortedCons(s: string, names: seq<string>)
    requires AllAfter(s, names) && Sorted(names)
    ensures Sorted([s] + names)
  {
    var r := [s] + names;
    forall i, j | 0 <= i < j < |r|
      ensures Less(r[i], r[j])
    {
      assert r[j] == names[j - 1] && names[j - 1] in names;
    }
  }

  lemma SortedHead(names: seq<string>)
    requires names != [] && Sorted(names)
    ensures AllAfter(names[0], names[1..]) && Sorted(names[1..])
  {
    forall t | t in names[1..]
      ensures Less(names[0], t)
    {
      var i :| 0 <= i < |names[1..]| && names[1..][i] == t;
      assert names[i + 1] == t;
    }
  }

  lemma AfterBoth(s: string, t: string, names: seq<string>)
    requires Less(s, t) && AllAfter(t, names)
    ensures AllAfter(s, names)
  {
    forall u | u in names
      ensures Less(s, u)
    {
      LessTransitive(s, t, u);
    }
  }

  lemma AfterWhole(s: string, names: seq<string>)
    requires names != [] && Less(s, names[0]) && AllAfter(names[0], names[1..])
    ensures AllAfter(s, names)
  {
    AfterBoth(s, names[0], names[1..]);
    assert names == [names[0]] + names[1..];
  }

  lemma {:induction false} MergeIsSorted(a: seq<string>, b: seq<string>)
    requires Sorted(a) && Sorted(b) && forall s :: s in a ==> s !in b
    ensures Sorted(MergeNames(a, b))
    decreases |a| + |b|
  {
    if a != [] && b != [] {
      SortedHead(a);
      SortedHead(b);
      assert a[0] in a && b[0] in b;
      LessTotal(a[0], b[0]);
      if Less(b[0], a[0]) {
        AfterWhole(b[0], a);
        MergeIsSorted(a, b[1..]);
        SortedCons(b[0], MergeNames(a, b[1..]));
      } else {
        AfterWhole(a[0], b);
        MergeIsSorted(a[1..], b);
        SortedCons(a[0], MergeNames(a[1..], b));
      }
    }
  }

  lemma SortedIsDistinct(names: seq<string>, i: nat, j: nat)
    requires Sorted(names) && i < |names| && j < |names| && names[i] == names[j]
    ensures i == j
  {
    LessIrreflexive(names[i]);
  }

  lemma MemberIndex(names: seq<string>, s: string) returns (i: nat)
    requires s in names
    ensures i < |names| && names[i] == s
  {
    i :| 0 <= i < |names| && names[i] == s;
  }

  /** Two names that come from two tables that stay apart do not enclose each other. */
  lemma UnionApart(a: seq<string>, b: seq<string>, s: string, t: string)
    requires NoneEncloses(a) && NoneEncloses(b) && Apart(a, b)
    requires (s in a || s in b) && (t in a || t in b) && s != t
    ensures !IsSubSymbol(s, t)
  {
    if s in a {
      var i := MemberIndex(a, s);
      if t in a {
        var j := MemberIndex(a, t);
      } else {
        var j := MemberIndex(b, t);
      }
    } else {
      var i := MemberIndex(b, s);
      if t in a {
        var j := MemberIndex(a, t);
      } else {
        var j := MemberIndex(b, t);
      }
    }
  }

  /** Merging two tables that stay apart gives one table with all their names. */
  lemma MergeIsTable(a: seq<string>, b: seq<string>)
    requires TableOk(a) && TableOk(b) && Apart(a, b)
    ensures TableOk(MergeNames(a, b))
  {
    forall s | s in a
      ensures s !in b
    {
      var i := MemberIndex(a, s);
      assert forall j :: 0 <= j < |b| ==> !IsSubSymbol(a[i], b[j]);
    }
    MergeIsSorted(a, b);
    var r := MergeNames(a, b);
    forall i, j | 0 <= i < |r| && 0 <= j < |r| && i != j
      ensures !IsSubSymbol(r[i], r[j])
    {
      if r[i] == r[j] {
        SortedIsDistinct(r, i, j);
      }
      assert r[i] in r && r[j] in r;
      UnionApart(a, b, r[i], r[j]);
    }
    forall i | 0 <= i < |r|
      ensures ValidateSymbolName(r[i])
    {
      assert r[i] in r;
      if r[i] in a {
        var k := MemberIndex(a, r[i]);
      } else {
        var k := MemberIndex(b, r[i]);
      }
    }
  }

  // ---------------------------------------------------------------------
  // Insertion.

  function InsertedSymbol<V>(files: seq<File<V>>, entries: seq<SymbolEntry>, entry: SymbolEntry): (r: seq<SymbolEntry>)
    requires Placed(files, entries) && entry.offset < |files|
    ensures Placed(files, r)
  {
    var u := FirstAfter(files, entries, AsOperand(files, entry));
    entries[..u] + [entry] + entries[u..]
  }

  lemma InsertedMembers<V>(files: seq<File<V>>, entries: seq<SymbolEntry>, entry: SymbolEntry)
    requires Placed(files, entries) && entry.offset < |files|
    ensures multiset(InsertedSymbol(files, entries, entry)) == multiset(entries) + multiset{entry}
  {
    var u := FirstAfter(files, entries, AsOperand(files, entry));
    assert entries == entries[..u] + entries[u..];
  }

  lemma NamesOfConcat<V>(files: seq<File<V>>, a: seq<SymbolEntry>, b: seq<SymbolEntry>)
    requires Placed(files, a) && Placed(files, b)
    ensures Names(files, a + b) == Names(files, a) + Names(files, b)
  {
  }

  lemma NamesOfSlices<V>(files: seq<File<V>>, entries: seq<SymbolEntry>, u: nat)
    requires Placed(files, entries) && u <= |entries|
    ensures Names(files, entries[..u]) == Names(files, entries)[..u]
    ensures Names(files, entries[u..]) == Names(files, entries)[u..]
  {
  }

  lemma NamesOfInserted<V>(files: seq<File<V>>, entries: seq<SymbolEntry>, entry: SymbolEntry)
    requires Placed(files, entries) && entry.offset < |files|
    requires FirstAfter(files, entries, AsOperand(files, entry)) ==
             UpperBound(Names(files, entries), Full(AsOperand(files, entry)))
    ensures
      Names(files, InsertedSymbol(files, entries, entry)) ==
      Inserted(Names(files, entries), Full(AsOperand(files, entry)))
  {
    var u := FirstAfter(files, entries, AsOperand(files, entry));
    NamesOfSlices(files, entries, u);
    NamesOfConcat(files, entries[..u], [entry]);
    NamesOfConcat(files, entries[..u] + [entry], entries[u..]);
    assert Names(files, [entry]) == [Full(AsOperand(files, entry))];
  }

  /** Some entry that the set takes for the same as the key. */
  predicate HasEquivalent<V>(files: seq<File<V>>, entries: seq<SymbolEntry>, key: Operand)
    requires Placed(files, entries)
  {
    exists i :: 0 <= i < |entries| && Equivalent(key, AsOperand(files, entries[i]))
  }

  /** std::set::insert: an entry that is equivalent to one already there is dropped. */
  function WithSymbol<V>(files: seq<File<V>>, entries: seq<SymbolEntry>, entry: SymbolEntry): (r: seq<SymbolEntry>)
    requires Placed(files, entries) && entry.offset < |files|
    ensures Placed(files, r)
  {
    if HasEquivalent(files, entries, AsOperand(files, entry)) then entries else InsertedSymbol(files, entries, entry)
  }

  lemma InsertKeepsApartIff(names: seq<string>, name: string, others: seq<string>)
    requires Apart(names, others)
    ensures Apart(Inserted(names, name), others) <==> !Conflicts(others, name)
  {
    var u, r := UpperBound(names, name), Inserted(names, name);
    assert r[u] == name;
    if Conflicts(others, name) {
      var j :| 0 <= j < |others| && (IsSubSymbol(others[j], name) || IsSubSymbol(name, others[j]));
    } else {
      forall i, j | 0 <= i < |r| && 0 <= j < |others|
        ensures !IsSubSymbol(r[i], others[j]) && !IsSubSymbol(others[j], r[i])
      {
        if i != u {
          assert r[i] == names[if i < u then i else i - 1];
        }
      }
    }
  }

  lemma OverlookedConflicts(keys: seq<string>, name: string)
    requires Overlooked(keys, name)
    ensures Conflicts(keys, name)
  {
    assert IsSubSymbol(name, keys[0]);
  }

  lemma FullIsValid<V>(files: seq<File<V>>, entry: SymbolEntry)
    requires entry.offset < |files| && ValidateSymbolName(files[entry.offset].package)
    ensures ValidateSymbolName(entry.symbol) ==> ValidateSymbolName(Full(AsOperand(files, entry)))
  {
  }

  /** Some entry of the container equals or encloses `name`, and has this value. */
  ghost predicate Encloses<V(!new)>(files: seq<File<V>>, entries: seq<SymbolEntry>, name: string, value: V)
    requires Placed(files, entries)
  {
    exists i :: 0 <= i < |entries| &&
      IsSubSymbol(Full(AsOperand(files, entries[i])), name) && files[entries[i].offset].value == value
  }

  lemma EnclosesIn<V(!new)>(files: seq<File<V>>, a: seq<SymbolEntry>, b: seq<SymbolEntry>, name: string, value: V)
    requires Placed(files, a) && Placed(files, b) && forall e :: e in a ==> e in b
    ensures Encloses(files, a, name, value) ==> Encloses(files, b, name, value)
  {
    if Encloses(files, a, name, value) {
      var i :| 0 <= i < |a| &&
        IsSubSymbol(Full(AsOperand(files, a[i])), name) && files[a[i].offset].value == value;
      assert a[i] in b;
    }
  }

  lemma CountedMember<T>(a: seq<T>, b: seq<T>, all: seq<T>, e: T)
    requires multiset(all) == multiset(a) + multiset(b)
    ensures e in all <==> e in a || e in b
  {
    assert e in all <==> e in multiset(all);
  }

  lemma EnclosesInEither<V(!new)>(files: seq<File<V>>, a: seq<SymbolEntry>, b: seq<SymbolEntry>,
                                  all: seq<SymbolEntry>, name: string, value: V)
    requires Placed(files, a) && Placed(files, b) && Placed(files, all)
    requires multiset(all) == multiset(a) + multiset(b)
    ensures Encloses(files, all, name, value) <==> Encloses(files, a, name, value) || Encloses(files, b, name, value)
  {
    forall e: SymbolEntry
      ensures e in all <==> e in a || e in b
    {
      CountedMember(a, b, all, e);
    }
    EnclosesIn(files, a, all, name, value);
    EnclosesIn(files, b, all, name, value);
    if Encloses(files, all, name, value) {
      var i :| 0 <= i < |all| &&
        IsSubSymbol(Full(AsOperand(files, all[i])), name) && files[all[i].offset].value == value;
      assert all[i] in a || all[i] in b;
    }
  }

  ghost predicate PackagesOk<V>(files: seq<File<V>>) {
    forall i :: 0 <= i < |files| ==> ValidateSymbolName(files[i].package)
  }

  /** Over both containers: packages and names are valid, names are in order, and none
      encloses another. */
  ghost predicate IndexOk<V>(files: seq<File<V>>, tree: seq<SymbolEntry>, flat: seq<SymbolEntry>) {
    && Placed(files, tree) && Placed(files, flat)
    && PackagesOk(files)
    && TableOk(Names(files, tree)) && TableOk(Names(files, flat))
    && Apart(Names(files, tree), Names(files, flat))
  }

  /** The key encloses the entry behind entry `m`. */
  predicate EnclosesNext<V>(files: seq<File<V>>, entries: seq<SymbolEntry>, key: Operand, m: nat)
    requires Placed(files, entries)
  {
    m + 1 < |entries| && IsSubSymbol(Full(key), Full(AsOperand(files, entries[m + 1])))
  }

  /** The second case the neighbour check gets wrong: the name, without a package, is that
      of the package of a nameless entry, and it does not enclose the entry after that. */
  ghost predicate SkipsNameless<V>(files: seq<File<V>>, entries: seq<SymbolEntry>, key: Operand)
    requires Placed(files, entries)
  {
    exists m: nat :: MisjudgedAt(files, entries, key, m) && !EnclosesNext(files, entries, key, m)
  }

  /** Whether the neighbours in one container let the name through. */
  ghost predicate LetsThrough<V>(files: seq<File<V>>, entries: seq<SymbolEntry>, key: Operand)
    requires Placed(files, entries)
  {
    || !Conflicts(Names(files, entries), Full(key))
    || Overlooked(Names(files, entries), Full(key))
    || SkipsNameless(files, entries, key)
  }

  ghost predicate Accepts<V>(files: seq<File<V>>, tree: seq<SymbolEntry>, flat: seq<SymbolEntry>, entry: SymbolEntry)
    requires Placed(files, tree) && Placed(files, flat) && entry.offset < |files|
  {
    && ValidateSymbolName(entry.symbol)
    && LetsThrough(files, tree, AsOperand(files, entry))
    && LetsThrough(files, flat, AsOperand(files, entry))
  }

  /** Accepted, but not stored: the set has a nameless entry it takes for the same. */
  ghost predicate Drops<V>(files: seq<File<V>>, tree: seq<SymbolEntry>, entry: SymbolEntry)
    requires Placed(files, tree) && entry.offset < |files|
  {
    SkipsNameless(files, tree, AsOperand(files, entry))
  }

  /** The accepted names that spoil the table: those that are stored although a conflict
      with one of the containers was not seen. */
  ghost predicate Spoils<V>(files: seq<File<V>>, tree: seq<SymbolEntry>, flat: seq<SymbolEntry>, entry: SymbolEntry)
    requires Placed(files, tree) && Placed(files, flat) && entry.offset < |files|
  {
    && !Drops(files, tree, entry)
    && (|| Overlooked(Names(files, tree), Full(AsOperand(files, entry)))
        || Overlooked(Names(files, flat), Full(AsOperand(files, entry)))
        || SkipsNameless(files, flat, AsOperand(files, entry)))
  }

  lemma OverlookedIsFirst(names: seq<string>, name: string)
    requires Overlooked(names, name)
    ensures UpperBound(names, name) == 0
  {
  }

  lemma MisjudgedConflicts<V>(files: seq<File<V>>, entries: seq<SymbolEntry>, key: Operand, m: nat)
    requires Placed(files, entries) && MisjudgedAt(files, entries, key, m)
    ensures Conflicts(Names(files, entries), Full(key))
  {
    MisjudgedEncloses(key, AsOperand(files, entries[m]));
    assert IsSubSymbol(Full(key), Names(files, entries)[m]);
  }

  lemma MisjudgedAlone<V>(files: seq<File<V>>, entries: seq<SymbolEntry>, key: Operand, m: nat)
    requires Placed(files, entries) && TableOk(Names(files, entries)) && MisjudgedAt(files, entries, key, m)
    ensures SkipsNameless(files, entries, key) == !EnclosesNext(files, entries, key, m)
  {
    MisjudgedIsNext(files, entries, key, m);
    if SkipsNameless(files, entries, key) {
      var n: nat :| MisjudgedAt(files, entries, key, n) && !EnclosesNext(files, entries, key, n);
      MisjudgedIsNext(files, entries, key, n);
    }
  }

  /** The neighbours of a key that is misjudged against the next entry by name. */
  lemma NeighboursOfMisjudged<V>(files: seq<File<V>>, entries: seq<SymbolEntry>, key: Operand, m: nat)
    requires Placed(files, entries) && TableOk(Names(files, entries)) && MisjudgedAt(files, entries, key, m)
    ensures LastNotAfter(files, entries, key) == m && !IsSubSymbol(Full(AsOperand(files, entries[m])), Full(key))
    ensures LetsThrough(files, entries, key) == !EnclosesNext(files, entries, key, m)
  {
    MisjudgedIsNext(files, entries, key, m);
    SearchByName(files, entries, key);
    MisjudgedEncloses(key, AsOperand(files, entries[m]));
    MisjudgedConflicts(files, entries, key, m);
    MisjudgedAlone(files, entries, key, m);
    var names := Names(files, entries);
    if Overlooked(names, Full(key)) {
      OverlookedIsFirst(names, Full(key));
      assert EnclosesNext(files, entries, key, 0) == (1 < |names| && IsSubSymbol(Full(key), names[1]));
    }
  }

  /** Without one the search finds the neighbours by name. */
  lemma NeighboursByName<V>(files: seq<File<V>>, entries: seq<SymbolEntry>, key: Operand)
    requires Placed(files, entries) && TableOk(Names(files, entries))
    requires !MisjudgedAt(files, entries, key, UpperBound(Names(files, entries), Full(key)))
    ensures !SkipsNameless(files, entries, key)
    ensures LastNotAfter(files, entries, key) == LastLessOrEqual(Names(files, entries), Full(key))
    ensures LetsThrough(files, entries, key) == NeighboursAllow(Names(files, entries), Full(key))
  {
    SearchByName(files, entries, key);
    NeighboursAllowIff(Names(files, entries), Full(key));
    if SkipsNameless(files, entries, key) {
      var m: nat :| MisjudgedAt(files, entries, key, m);
      MisjudgedIsNext(files, entries, key, m);
    }
  }

  /** For a key that is let through, the set finds an equivalent entry exactly if it is
      misjudged against one. */
  lemma EquivalentIsMisjudged<V>(files: seq<File<V>>, entries: seq<SymbolEntry>, key: Operand)
    requires Placed(files, entries) && TableOk(Names(files, entries)) && LetsThrough(files, entries, key)
    ensures HasEquivalent(files, entries, key) == SkipsNameless(files, entries, key)
    ensures !SkipsNameless(files, entries, key) ==>
            FirstAfter(files, entries, key) == UpperBound(Names(files, entries), Full(key))
  {
    var u := UpperBound(Names(files, entries), Full(key));
    if MisjudgedAt(files, entries, key, u) {
      NeighboursOfMisjudged(files, entries, key, u);
      EquivalentIff(key, AsOperand(files, entries[u]));
    } else {
      NeighboursByName(files, entries, key);
      SearchByName(files, entries, key);
      if HasEquivalent(files, entries, key) {
        var i :| 0 <= i < |entries| && Equivalent(key, AsOperand(files, entries[i]));
        NoEquivalentByName(files, entries, key, i);
      }
    }
  }

  lemma NoEquivalentByName<V>(files: seq<File<V>>, entries: seq<SymbolEntry>, key: Operand, i: nat)
    requires Placed(files, entries) && TableOk(Names(files, entries)) && i < |entries|
    requires NeighboursAllow(Names(files, entries), Full(key))
    requires !MisjudgedAt(files, entries, key, UpperBound(Names(files, entries), Full(key)))
    ensures !Equivalent(key, AsOperand(files, entries[i]))
  {
    var e, names := AsOperand(files, entries[i]), Names(files, entries);
    EquivalentIff(key, e);
    if Misjudged(key, e) {
      MisjudgedIsNext(files, entries, key, i);
    } else if Equivalent(key, e) {
      if Misjudged(e, key) {
        MisjudgedEncloses(e, key);
      }
      EncloserIsNeighbour(names, Full(key), i);
    }
  }

  /** What a name that both neighbour checks let through does to the table. */
  lemma AcceptedKeepsIndexIff<V>(files: seq<File<V>>, tree: seq<SymbolEntry>, flat: seq<SymbolEntry>, entry: SymbolEntry)
    requires IndexOk(files, tree, flat) && entry.offset < |files| && Accepts(files, tree, flat, entry)
    ensures IndexOk(files, WithSymbol(files, tree, entry), flat) == !Spoils(files, tree, flat, entry)
  {
    var key := AsOperand(files, entry);
    EquivalentIsMisjudged(files, tree, key);
    if !SkipsNameless(files, tree, key) {
      StoredKeepsIndexIff(files, tree, flat, entry);
      LetThroughConflicts(files, tree, key);
      LetThroughConflicts(files, flat, key);
    }
  }

  /** Of the names let through those conflict that were overlooked or skip a nameless entry. */
  lemma LetThroughConflicts<V>(files: seq<File<V>>, entries: seq<SymbolEntry>, key: Operand)
    requires Placed(files, entries) && LetsThrough(files, entries, key)
    ensures
      Conflicts(Names(files, entries), Full(key)) ==
      (Overlooked(Names(files, entries), Full(key)) || SkipsNameless(files, entries, key))
  {
    if Overlooked(Names(files, entries), Full(key)) {
      OverlookedConflicts(Names(files, entries), Full(key));
    }
    if SkipsNameless(files, entries, key) {
      var m: nat :| MisjudgedAt(files, entries, key, m);
      MisjudgedConflicts(files, entries, key, m);
    }
  }

  lemma StoredKeepsIndexIff<V>(files: seq<File<V>>, tree: seq<SymbolEntry>, flat: seq<SymbolEntry>, entry: SymbolEntry)
    requires IndexOk(files, tree, flat) && entry.offset < |files| && ValidateSymbolName(entry.symbol)
    requires FirstAfter(files, tree, AsOperand(files, entry)) ==
             UpperBound(Names(files, tree), Full(AsOperand(files, entry)))
    ensures
      IndexOk(files, InsertedSymbol(files, tree, entry), flat) ==
      !(Conflicts(Names(files, tree), Full(AsOperand(files, entry))) ||
        Conflicts(Names(files, flat), Full(AsOperand(files, entry))))
  {
    var full := Full(AsOperand(files, entry));
    FullIsValid(files, entry);
    NamesOfInserted(files, tree, entry);
    InsertKeepsTableIff(Names(files, tree), full);
    InsertKeepsApartIff(Names(files, tree), full, Names(files, flat));
  }

  /** What is said to be added but dropped by the set is not found afterwards: no entry of
      either container encloses the name. */
  lemma DroppedIsLost<V(!new)>(files: seq<File<V>>, tree: seq<SymbolEntry>, flat: seq<SymbolEntry>,
                               entry: SymbolEntry, value: V)
    requires IndexOk(files, tree, flat) && entry.offset < |files|
    requires Accepts(files, tree, flat, entry) && Drops(files, tree, entry)
    ensures WithSymbol(files, tree, entry) == tree
    ensures !Encloses(files, tree, Full(AsOperand(files, entry)), value)
    ensures !Encloses(files, flat, Full(AsOperand(files, entry)), value)
  {
    var key := AsOperand(files, entry);
    EquivalentIsMisjudged(files, tree, key);
    var m: nat :| MisjudgedAt(files, tree, key, m);
    MisjudgedEncloses(key, AsOperand(files, tree[m]));
    NothingEncloses(Names(files, tree), Full(key), m);
    NothingEnclosesApart(Names(files, tree), Full(key), Names(files, flat), m);
  }

  lemma NothingEncloses(names: seq<string>, name: string, m: nat)
    requires NoneEncloses(names) && m < |names| && names[m] == name + "."
    ensures forall i :: 0 <= i < |names| ==> !IsSubSymbol(names[i], name)
  {
    forall i | 0 <= i < |names|
      ensures !IsSubSymbol(names[i], name)
    {
      assert i != m ==> !IsSubSymbol(names[i], names[m]);
    }
  }

  lemma NothingEnclosesApart(names: seq<string>, name: string, others: seq<string>, m: nat)
    requires Apart(names, others) && m < |names| && names[m] == name + "."
    ensures forall i :: 0 <= i < |others| ==> !IsSubSymbol(others[i], name)
  {
    forall i | 0 <= i < |others|
      ensures !IsSubSymbol(others[i], name)
    {
      assert !IsSubSymbol(others[i], names[m]);
    }
  }

  /** The entry that encloses a name asked for, if there is one, is where the search ends. */
  lemma EncloserIsFound<V>(files: seq<File<V>>, entries: seq<SymbolEntry>, name: string)
    requires Placed(files, entries) && TableOk(Names(files, entries))
    ensures forall i :: 0 <= i < |entries| && IsSubSymbol(Full(AsOperand(files, entries[i])), name) ==>
      i == LastNotAfter(files, entries, Plain(name))
  {
    var names := Names(files, entries);
    var u := UpperBound(names, name);
    SearchByName(files, entries, Plain(name));
    if MisjudgedAt(files, entries, Plain(name), u) {
      MisjudgedEncloses(Plain(name), AsOperand(files, entries[u]));
      NothingEncloses(names, name, u);
    }
    forall i | 0 <= i < |entries| && IsSubSymbol(Full(AsOperand(files, entries[i])), name)
      ensures i == LastNotAfter(files, entries, Plain(name))
    {
      assert IsSubSymbol(names[i], name);
      EncloserIsNeighbour(names, name, i);
    }
  }

  /** One more file changes nothing about the symbols. */
  lemma AppendedFile<V>(files: seq<File<V>>, file: File<V>, tree: seq<SymbolEntry>, flat: seq<SymbolEntry>)
    requires IndexOk(files, tree, flat) && ValidateSymbolName(file.package)
    ensures IndexOk(files + [file], tree, flat)
  {
    assert Names(files + [file], tree) == Names(files, tree);
    assert Names(files + [file], flat) == Names(files, flat);
  }

  // ---------------------------------------------------------------------
  // The two cases at literal inputs.

  const NAMELESS_FIRST := [SymbolEntry(0, "A"), SymbolEntry(1, "")]

  function NamelessFiles<V>(value: V): seq<File<V>> {
    [File(value, ""), File(value, "a"), File(value, "")]
  }

  lemma NamelessTable<V>(value: V)
    ensures Placed(NamelessFiles(value), NAMELESS_FIRST)
    ensures Names(NamelessFiles(value), NAMELESS_FIRST) == ["A", "a."]
    ensures TableOk(["A", "a."])
  {
    var files, entries := NamelessFiles(value), NAMELESS_FIRST;
    var names: seq<string> := ["A", "a."];
    assert Full(AsOperand(files, entries[0])) == names[0];
    assert Full(AsOperand(files, entries[1])) == names[1];
    assert names[0][0] < names[1][0];
  }

  /** A file without a package has message "A", and one of package "a" a message without a
      name. Message "a" of a file without a package is let through, although it conflicts
      and is not overlooked. Beside the set it is dropped; beside the vector it is stored
      and spoils the table. */
  lemma NamelessExample<V>(value: V)
    ensures
      && var files, entry := NamelessFiles(value), SymbolEntry(2, "a");
      && Placed(files, NAMELESS_FIRST) && Placed(files, [])
      && IndexOk(files, NAMELESS_FIRST, []) && IndexOk(files, [], NAMELESS_FIRST)
      && Conflicts(Names(files, NAMELESS_FIRST), "a") && !Overlooked(Names(files, NAMELESS_FIRST), "a")
      && Accepts(files, NAMELESS_FIRST, [], entry) && WithSymbol(files, NAMELESS_FIRST, entry) == NAMELESS_FIRST
      && Accepts(files, [], NAMELESS_FIRST, entry) && !IndexOk(files, WithSymbol(files, [], entry), NAMELESS_FIRST)
  {
    var files, entry := NamelessFiles(value), SymbolEntry(2, "a");
    var key := AsOperand(files, entry);
    NamelessTable(value);
    assert MisjudgedAt(files, NAMELESS_FIRST, key, 1) && !EnclosesNext(files, NAMELESS_FIRST, key, 1);
    MisjudgedConflicts(files, NAMELESS_FIRST, key, 1);
    assert !IsSubSymbol("a", "A");
    assert Accepts(files, NAMELESS_FIRST, [], entry) && Accepts(files, [], NAMELESS_FIRST, entry);
    EquivalentIsMisjudged(files, NAMELESS_FIRST, key);
    AcceptedKeepsIndexIff(files, [], NAMELESS_FIRST, entry);
  }

  /** The value of the file that a lookup found. */
  function ValueOf<V>(files: seq<File<V>>, offset: Option<nat>): Option<V> {
    if offset.Some? && offset.value < |files| then Some(files[offset.value].value) else None
  }

  /** What a file name is found as: the set counts before the vector. */
  function Lookup<V>(files: seq<File<V>>, recent: seq<FileEntry>, flat: seq<FileEntry>, name: string): Option<V> {
    ValueOf(files, FindInBoth(recent, flat, name))
  }

  lemma LookupIsNone<V>(files: seq<File<V>>, recent: seq<FileEntry>, flat: seq<FileEntry>, name: string)
    requires EntriesOk(|files|, recent) && EntriesOk(|files|, flat)
    ensures Lookup(files, recent, flat, name).None? == (!Has(recent, name) && !Has(flat, name))
  {
    FindInBothInRange(|files|, recent, flat, name);
  }

  lemma LookupWithFile<V>(files: seq<File<V>>, file: File<V>, recent: seq<FileEntry>, flat: seq<FileEntry>, name: string)
    requires EntriesOk(|files|, recent) && EntriesOk(|files|, flat)
    ensures Lookup(files + [file], recent, flat, name) == Lookup(files, recent, flat, name)
  {
    FindInBothInRange(|files|, recent, flat, name);
  }

  /** A name put into the set is found as the file put with it, unless the set had it; all
      other names are found as before. */
  lemma LookupWithName<V>(files: seq<File<V>>, offset: nat, recent: seq<FileEntry>, flat: seq<FileEntry>,
                          name: string, other: string)
    requires offset < |files|
    ensures
      Lookup(files, WithName(recent, FileEntry(offset, name)), flat, other) ==
      if other == name && !Has(recent, name) then Some(files[offset].value) else Lookup(files, recent, flat, other)
  {
    FindInBothWithName(recent, flat, FileEntry(offset, name), other);
  }

  lemma LookupsWithName<V>(files: seq<File<V>>, offset: nat, recent: seq<FileEntry>, flat: seq<FileEntry>, name: string)
    requires offset < |files|
    ensures
      Lookup(files, WithName(recent, FileEntry(offset, name)), flat, name) ==
      if !Has(recent, name) then Some(files[offset].value) else Lookup(files, recent, flat, name)
    ensures
      forall other :: other != name ==>
        Lookup(files, WithName(recent, FileEntry(offset, name)), flat, other) == Lookup(files, recent, flat, other)
  {
    forall other
      ensures other != name ==>
        Lookup(files, WithName(recent, FileEntry(offset, name)), flat, other) == Lookup(files, recent, flat, other)
    {
      LookupWithName(files, offset, recent, flat, name, other);
    }
    LookupWithName(files, offset, recent, flat, name, name);
  }

  class EncodedIndex<V(!new)> {
    var files: seq<File<V>>
    var byName: seq<FileEntry>
    var byNameFlat: seq<FileEntry>
    var tree: seq<SymbolEntry>
    var flat: seq<SymbolEntry>

    ghost predicate Valid()
      reads this
    {
      && EntriesOk(|files|, byName) && EntriesOk(|files|, byNameFlat)
      && IndexOk(files, tree, flat)
    }

    constructor ()
      ensures Valid() && files == [] && tree == [] && flat == []
      ensures byName == [] && byNameFlat == []
    {
      files, byName, byNameFlat, tree, flat := [], [], [], [], [];
    }

    /** What the file name is found as. */
    function FileOf(name: string): Option<V>
      reads this
    {
      Lookup(files, byName, byNameFlat, name)
    }

    /** A symbol of the file added last. */
    function LastEntry(symbol: string): (entry: SymbolEntry)
      requires files != []
      reads this`files
      ensures entry.offset < |files|
    {
      SymbolEntry(|files| - 1, symbol)
    }

    /** A value with its package; no name stands for it yet. */
    method Push(file: File<V>)
      requires Valid() && ValidateSymbolName(file.package)
      modifies this`files
      ensures Valid() && files == old(files) + [file]
      ensures forall name :: FileOf(name) == old(FileOf(name))
    {
      AppendedFile(files, file, tree, flat);
      forall name
        ensures Lookup(files + [file], byName, byNameFlat, name) == Lookup(files, byName, byNameFlat, name)
      {
        LookupWithFile(files, file, byName, byNameFlat, name);
      }
      files := files + [file];
    }

    /** InsertIfNotPresent into the set, for the file added last. */
    method InsertName(name: string) returns (inserted: bool)
      requires Valid() && files != []
      modifies this`byName
      ensures Valid() && inserted == !Has(old(byName), name)
      ensures FileOf(name) == if inserted then Some(files[|files| - 1].value) else old(FileOf(name))
      ensures forall other :: other != name ==> FileOf(other) == old(FileOf(other))
    {
      var entry := FileEntry(|files| - 1, name);
      WithNameOk(|files|, byName, entry);
      LookupsWithName(files, |files| - 1, byName, byNameFlat, name);
      inserted := !Has(byName, name);
      byName := WithName(byName, entry);
    }

    /** The start of AddFile. The value is recorded even if the file is refused. A name that
        is only in the vector is put into the set before it is refused, and is found as the
        refused file from then on. */
    method BeginFile(name: string, package: string, value: V) returns (ok: bool)
      requires Valid()
      modifies this`files, this`byName
      ensures Valid()
      ensures ok == (ValidateSymbolName(package) && old(FileOf(name)).None?)
      ensures files == old(files) + [File(value, if ValidateSymbolName(package) then package else "")]
      ensures FileOf(name) == if ValidateSymbolName(package) && !Has(old(byName), name) then Some(value) else old(FileOf(name))
      ensures forall other :: other != name ==> FileOf(other) == old(FileOf(other))
    {
      LookupIsNone(files, byName, byNameFlat, name);
      ok := ValidateSymbolName(package);
      Push(File(value, if ok then package else ""));
      if !ok {
        return false;
      }
      var inserted := InsertName(name);
      ok := inserted && !Has(byNameFlat, name);
    }

    /** The two neighbours of the new name in one container. */
    method CheckForMutualSubsymbols(name: string, key: Operand, entries: seq<SymbolEntry>) returns (ok: bool)
      requires Placed(files, entries) && TableOk(Names(files, entries))
      requires name == Full(key)
      ensures ok == LetsThrough(files, entries, key)
      ensures ok <==>
        || !Conflicts(Names(files, entries), name) || Overlooked(Names(files, entries), name)
        || SkipsNameless(files, entries, key)
    {
      ghost var u := UpperBound(Names(files, entries), name);
      if MisjudgedAt(files, entries, key, u) {
        NeighboursOfMisjudged(files, entries, key, u);
      } else {
        NeighboursByName(files, entries, key);
      }
      var iter := LastNotAfter(files, entries, key);
      if iter != |entries| {
        if IsSubSymbol(Full(AsOperand(files, entries[iter])), name) {
          return false;
        }
        iter := iter + 1;
        if iter != |entries| && IsSubSymbol(name, Full(AsOperand(files, entries[iter]))) {
          return false;
        }
      }
      return true;
    }

    /** The checks of AddSymbol. */
    method MayAdd(entry: SymbolEntry) returns (ok: bool)
      requires Valid() && entry.offset < |files|
      ensures ok == Accepts(files, tree, flat, entry)
    {
      var key := AsOperand(files, entry);
      var full := Full(key);
      if !ValidateSymbolName(entry.symbol) {
        return false;
      }
      ok := CheckForMutualSubsymbols(full, key, tree);
      if !ok {
        return false;
      }
      ok := CheckForMutualSubsymbols(full, key, flat);
    }

    /** A symbol of the last file is taken if it is valid and conflicts with no entry of
        the set or the vector, except for what the neighbour check overlooks or skips. The
        set drops it if it skipped a nameless entry there. The table stays in order if and
        only if no conflict was let through to be stored. */
    method AddSymbol(symbol: string) returns (added: bool)
      requires Valid() && files != []
      modifies this`tree
      ensures added == Accepts(files, old(tree), flat, LastEntry(symbol))
      ensures added <==>
        && ValidateSymbolName(symbol)
        && LetsThrough(files, old(tree), AsOperand(files, LastEntry(symbol)))
        && LetsThrough(files, flat, AsOperand(files, LastEntry(symbol)))
      ensures multiset(tree) == old(multiset(tree)) +
        if added && !SkipsNameless(files, old(tree), AsOperand(files, LastEntry(symbol)))
        then multiset{LastEntry(symbol)} else multiset{}
      ensures tree == (if added then WithSymbol(files, old(tree), LastEntry(symbol)) else old(tree))
      ensures Valid() == !(added && Spoils(files, old(tree), flat, LastEntry(symbol)))
    {
      var entry := LastEntry(symbol);
      added := MayAdd(entry);
      if added {
        AcceptedKeepsIndexIff(files, tree, flat, entry);
        EquivalentIsMisjudged(files, tree, AsOperand(files, entry));
        InsertedMembers(files, tree, entry);
        tree := WithSymbol(files, tree, entry);
      }
    }

    /** MergeIntoFlat for the symbols: no entry is lost or doubled. */
    method MergeSymbols()
      requires Valid()
      modifies this`tree, this`flat
      ensures Valid() && tree == []
      ensures multiset(flat) == old(multiset(tree) + multiset(flat))
    {
      if tree == [] {
        return;
      }
      MergeKeepsAll(files, tree, flat);
      NamesOfMerge(files, tree, flat);
      MergeIsTable(Names(files, tree), Names(files, flat));
      flat := Merge(files, tree, flat);
      tree := [];
    }

    /** MergeIntoFlat for the file names: each is found as before. */
    method MergeFileNames()
      requires Valid()
      modifies this`byName, this`byNameFlat
      ensures Valid() && byName == []
      ensures forall name :: FileOf(name) == old(FileOf(name))
    {
      if byName == [] {
        return;
      }
      MergeOk(|files|, byName, byNameFlat);
      forall name
        ensures FileNames.Find(MergeFiles(byName, byNameFlat), name) == FindInBoth(byName, byNameFlat, name)
      {
        FindMerged(byName, byNameFlat, name);
      }
      byNameFlat := MergeFiles(byName, byNameFlat);
      byName := [];
    }

    /** The sets are emptied into the vectors. */
    method EnsureFlat()
      requires Valid()
      modifies this`byName, this`byNameFlat, this`tree, this`flat
      ensures Valid() && tree == [] && byName == []
      ensures multiset(flat) == old(multiset(tree) + multiset(flat))
      ensures forall name :: FileOf(name) == old(FileOf(name))
    {
      MergeFileNames();
      MergeSymbols();
    }

    /** The search for a file in the vector. */
    method FindFile(name: string) returns (value: Option<V>)
      requires Valid()
      modifies this`byName, this`byNameFlat, this`tree, this`flat
      ensures Valid() && tree == [] && byName == []
      ensures multiset(flat) == old(multiset(tree) + multiset(flat))
      ensures forall other :: FileOf(other) == old(FileOf(other))
      ensures value == old(FileOf(name))
    {
      EnsureFlat();
      LowerBoundFinds(byNameFlat, name);
      FindInRange(|files|, byNameFlat, name);
      var i := LowerBound(byNameFlat, name);
      if i == |byNameFlat| || byNameFlat[i].name != name {
        return None;
      }
      return Some(files[byNameFlat[i].offset].value);
    }

    /** The search in the vector alone. A name that the comparison misjudges against an
        entry has nothing that encloses it. */
    method FindSymbolOnlyFlat(name: string) returns (value: Option<V>)
      requires Valid()
      ensures value.None? <==> !exists i :: 0 <= i < |flat| && IsSubSymbol(Full(AsOperand(files, flat[i])), name)
      ensures forall i :: 0 <= i < |flat| && IsSubSymbol(Full(AsOperand(files, flat[i])), name) ==>
        value == Some(files[flat[i].offset].value)
    {
      EncloserIsFound(files, flat, name);
      var iter := LastNotAfter(files, flat, Plain(name));
      if iter != |flat| && IsSubSymbol(Full(AsOperand(files, flat[iter])), name) {
        return Some(files[flat[iter].offset].value);
      }
      return None;
    }

    /** However the symbols got where they are, the lookup finds the value of the entry,
        in the set or in the vector, that equals or encloses the name. */
    method FindSymbol(name: string) returns (value: Option<V>)
      requires Valid()
      modifies this`byName, this`byNameFlat, this`tree, this`flat
      ensures Valid() && tree == [] && byName == []
      ensures multiset(flat) == old(multiset(tree) + multiset(flat))
      ensures forall other :: FileOf(other) == old(FileOf(other))
      ensures forall v :: value == Some(v) <==> Encloses(files, old(tree), name, v) || Encloses(files, old(flat), name, v)
    {
      EnsureFlat();
      value := FindSymbolOnlyFlat(name);
      forall v
        ensures Encloses(files, flat, name, v) <==>
          Encloses(files, old(tree), name, v) || Encloses(files, old(flat), name, v)
      {
        EnclosesInEither(files, old(tree), old(flat), flat, name, v);
      }
    }
  }

  /** A file is added and the vector filled; a second file of the same name is refused, and
      is what the name is found as. */
  method RefusedFileIsFound<V(!new)>(name: string, first: V, second: V) returns (added: bool, found: Option<V>)
    ensures !added && found == Some(second)
  {
    var index := new EncodedIndex<V>();
    added := index.BeginFile(name, "", first);
    index.EnsureFlat();
    added := index.BeginFile(name, "", second);
    found := index.FindFile(name);
  }
}
