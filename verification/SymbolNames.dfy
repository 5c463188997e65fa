/** Dotted symbol names in lexicographic order, and why looking at one neighbour
    in a sorted table finds the symbol that encloses a name. */
module SymbolNames {
  import opened Common

  /** Lexicographic order, as std::string compares. */
  predicate Less(a: string, b: string) {
    b != "" && (a == "" || a[0] < b[0] || (a[0] == b[0] && Less(a[1..], b[1..])))
  }

  /** True if the names are equal or `sub` names a scope that encloses `super`:
      "foo.bar" encloses "foo.bar.baz" but not "foo.barbaz". */
  predicate IsSubSymbol(sub: string, super: string) {
    sub == super || (sub < super && super[|sub|] == '.')
  }

  predicate ValidChar(c: char) {
    c == '.' || c == '_' || '0' <= c <= '9' || 'A' <= c <= 'Z' || 'a' <= c <= 'z'
  }

  predicate ValidateSymbolName(name: string) {
    forall i :: 0 <= i < |name| ==> ValidChar(name[i])
  }

  ghost predicate FirstDifference(a: string, b: string, i: int) {
    0 <= i < |a| && i < |b| && a[i] != b[i] && a[..i] == b[..i]
  }

  ghost predicate DiffersLess(a: string, b: string) {
    exists i :: FirstDifference(a, b, i) && a[i] < b[i]
  }

  lemma DiffersLater(a: string, b: string)
    requires a != [] && b != [] && a[0] == b[0]
    ensures DiffersLess(a, b) == DiffersLess(a[1..], b[1..])
  {
    var c, d := a[1..], b[1..];
    assert a == [a[0]] + c && b == [b[0]] + d;
    if i :| FirstDifference(c, d, i) && c[i] < d[i] {
      assert a[..i + 1] == [a[0]] + c[..i] && b[..i + 1] == [b[0]] + d[..i];
      assert FirstDifference(a, b, i + 1);
    }
    if i :| FirstDifference(a, b, i) && a[i] < b[i] {
      assert c[..i - 1] == a[..i][1..] && d[..i - 1] == b[..i][1..];
      assert FirstDifference(c, d, i - 1);
    }
  }

  lemma DiffersFirst(a: string, b: string)
    requires a != [] && b != [] && a[0] != b[0]
    ensures DiffersLess(a, b) == (a[0] < b[0])
  {
    if a[0] < b[0] {
      assert FirstDifference(a, b, 0);
    }
    if i :| FirstDifference(a, b, i) && a[i] < b[i] {
      assert i > 0 ==> a[..i][0] == b[..i][0];
    }
  }

  lemma PrefixLater(a: string, b: string)
    requires a != [] && b != []
    ensures a < b <==> a[0] == b[0] && a[1..] < b[1..]
  {
    if a[0] == b[0] && a[1..] < b[1..] {
      assert a == [a[0]] + a[1..] && b == [b[0]] + b[1..];
    }
  }

  /** Shorter prefixes first, and otherwise by the first character that differs. */
  lemma {:induction false} LessIff(a: string, b: string)
    ensures Less(a, b) <==> a < b || DiffersLess(a, b)
  {
    if a != [] && b != [] {
      PrefixLater(a, b);
      if a[0] == b[0] {
        DiffersLater(a, b);
        LessIff(a[1..], b[1..]);
      } else {
        DiffersFirst(a, b);
      }
    }
  }

  lemma {:induction false} LessIrreflexive(a: string)
    ensures !Less(a, a)
  {
    if a != "" {
      LessIrreflexive(a[1..]);
    }
  }

  lemma {:induction false} LessTotal(a: string, b: string)
    ensures Less(a, b) || a == b || Less(b, a)
  {
    if a != "" && b != "" && a[0] == b[0] {
      LessTotal(a[1..], b[1..]);
      if a[1..] == b[1..] {
        assert a == [a[0]] + a[1..] == [b[0]] + b[1..] == b;
      }
    }
  }

  lemma {:induction false} LessTransitive(a: string, b: string, c: string)
    requires Less(a, b) && Less(b, c)
    ensures Less(a, c)
  {
    if a != "" && a[0] == b[0] == c[0] {
      LessTransitive(a[1..], b[1..], c[1..]);
    }
  }

  lemma LessAsymmetric(a: string, b: string)
    requires Less(a, b)
    ensures !Less(b, a) && a != b
  {
    LessIrreflexive(a);
    if Less(b, a) {
      LessTransitive(a, b, a);
    }
  }

  lemma {:induction false} PrefixIsLess(a: string, b: string)
    requires a < b
    ensures Less(a, b)
  {
    if a != "" {
      PrefixIsLess(a[1..], b[1..]);
    }
  }

  /** '.' sorts before every other character allowed in names, so whatever lies
      between a scope and something in it is in the scope too. */
  lemma {:induction false} BetweenIsInScope(k: string, p: string, q: string)
    requires IsSubSymbol(k, q) && Less(k, p) && !Less(q, p) && ValidateSymbolName(p)
    ensures IsSubSymbol(k, p)
  {
    if k == "" {
      assert ValidChar(p[0]);
    } else {
      assert p[0] == k[0] == q[0];
      assert forall i :: 0 <= i < |p[1..]| ==> p[1..][i] == p[i + 1];
      BetweenIsInScope(k[1..], p[1..], q[1..]);
      assert k == [k[0]] + k[1..] && p == [p[0]] + p[1..];
    }
  }

  // ---------------------------------------------------------------------
  // Sorted tables of names.

  ghost predicate Sorted(keys: seq<string>) {
    forall i, j {:trigger keys[i], keys[j]} :: 0 <= i < j < |keys| ==> Less(keys[i], keys[j])
  }

  /** No name of the table encloses another one. */
  ghost predicate NoneEncloses(keys: seq<string>) {
    forall i, j {:trigger keys[i], keys[j]} :: 0 <= i < |keys| && 0 <= j < |keys| && i != j ==>
      !IsSubSymbol(keys[i], keys[j])
  }

  ghost predicate AllValid(keys: seq<string>) {
    forall i {:trigger keys[i]} :: 0 <= i < |keys| ==> ValidateSymbolName(keys[i])
  }

  ghost predicate TableOk(keys: seq<string>) {
    Sorted(keys) && NoneEncloses(keys) && AllValid(keys)
  }

  /** The position of the first name after `name`, as std::map::upper_bound. */
  function UpperBound(keys: seq<string>, name: string): (u: nat)
    ensures u <= |keys|
    ensures forall i :: 0 <= i < u ==> !Less(name, keys[i])
    ensures u < |keys| ==> Less(name, keys[u])
  {
    if keys == [] || Less(name, keys[0]) then 0 else 1 + UpperBound(keys[1..], name)
  }

  /** FindLastLessOrEqual: one before the upper bound, unless that is the beginning. */
  function LastLessOrEqual(keys: seq<string>, name: string): (i: nat)
    ensures i <= |keys|
    ensures i == |keys| <==> keys == []
  {
    var u := UpperBound(keys, name);
    if u != 0 then u - 1 else u
  }

  lemma AfterUpperBound(keys: seq<string>, name: string, i: nat)
    requires Sorted(keys) && UpperBound(keys, name) <= i < |keys|
    ensures Less(name, keys[i])
  {
    var u := UpperBound(keys, name);
    if u < i {
      LessTransitive(name, keys[u], keys[i]);
    }
  }

  /** The single-neighbour lookup. */
  function Find(keys: seq<string>, name: string): (r: Option<nat>) {
    var i := LastLessOrEqual(keys, name);
    if i < |keys| && IsSubSymbol(keys[i], name) then Some(i) else None
  }

  /** A full scan for a name that equals or encloses the one asked for. */
  function Scan(keys: seq<string>, name: string): (r: Option<nat>) {
    if keys == [] then None
    else if IsSubSymbol(keys[|keys| - 1], name) then Some(|keys| - 1)
    else Scan(keys[..|keys| - 1], name)
  }

  lemma {:induction false} ScanFinds(keys: seq<string>, name: string)
    ensures match Scan(keys, name)
            case Some(i) => i < |keys| && IsSubSymbol(keys[i], name)
            case None => forall i :: 0 <= i < |keys| ==> !IsSubSymbol(keys[i], name)
  {
    if keys != [] {
      ScanFinds(keys[..|keys| - 1], name);
    }
  }

  /** Any name enclosing the query is the last one not after it. */
  lemma EncloserIsNeighbour(keys: seq<string>, name: string, k: nat)
    requires TableOk(keys) && k < |keys| && IsSubSymbol(keys[k], name)
    ensures UpperBound(keys, name) > 0 && k == LastLessOrEqual(keys, name)
  {
    var u := UpperBound(keys, name);
    LessIrreflexive(name);
    if keys[k] != name {
      PrefixIsLess(keys[k], name);
      LessAsymmetric(keys[k], name);
    }
    if k >= u {
      AfterUpperBound(keys, name, k);
    }
    if k < u - 1 {
      BetweenIsInScope(keys[k], keys[u - 1], name);
    }
  }

  /** For every query, over valid names of which none encloses another, looking at
      one neighbour gives what a full scan gives. */
  lemma FindEqualsScan(keys: seq<string>, name: string)
    requires TableOk(keys)
    ensures Find(keys, name) == Scan(keys, name)
  {
    ScanFinds(keys, name);
    match Scan(keys, name)
    case Some(k) => EncloserIsNeighbour(keys, name, k);
    case None =>
  }

  // ---------------------------------------------------------------------
  // Adding a name.

  ghost predicate Conflicts(keys: seq<string>, name: string) {
    exists i :: 0 <= i < |keys| && (IsSubSymbol(keys[i], name) || IsSubSymbol(name, keys[i]))
  }

  /** The two neighbours that are compared with a new name. */
  predicate NeighboursAllow(keys: seq<string>, name: string) {
    var i := LastLessOrEqual(keys, name);
    i == |keys| ||
    (!IsSubSymbol(keys[i], name) && !(i + 1 < |keys| && IsSubSymbol(name, keys[i + 1])))
  }

  /** The case the neighbour check gets wrong: every name sorts after the new one,
      so the step past the last name not after it skips the first name, and that
      is the only one the new name encloses. */
  predicate Overlooked(keys: seq<string>, name: string) {
    && keys != []
    && Less(name, keys[0])
    && IsSubSymbol(name, keys[0])
    && !(1 < |keys| && IsSubSymbol(name, keys[1]))
  }

  lemma EnclosedIsNext(keys: seq<string>, name: string, k: nat)
    requires TableOk(keys) && k < |keys| && IsSubSymbol(name, keys[k]) && keys[k] != name
    ensures var u := UpperBound(keys, name); u < |keys| && IsSubSymbol(name, keys[u])
  {
    var u := UpperBound(keys, name);
    PrefixIsLess(name, keys[k]);
    assert u <= k;
    if u < k {
      LessAsymmetric(keys[u], keys[k]);
      BetweenIsInScope(name, keys[u], keys[k]);
    }
  }

  lemma EncloserIsNotAfter(k: string, name: string)
    ensures IsSubSymbol(k, name) ==> !Less(name, k)
  {
    LessIrreflexive(name);
    if k < name {
      PrefixIsLess(k, name);
      LessAsymmetric(k, name);
    }
  }

  /** Comparing with two neighbours finds a conflict with any name of the table,
      except in the overlooked case. */
  lemma NeighboursAllowIff(keys: seq<string>, name: string)
    requires TableOk(keys)
    ensures NeighboursAllow(keys, name) <==> !Conflicts(keys, name) || Overlooked(keys, name)
  {
    var u, i := UpperBound(keys, name), LastLessOrEqual(keys, name);
    if Overlooked(keys, name) {
      EncloserIsNotAfter(keys[0], name);
    } else if Conflicts(keys, name) {
      var k :| 0 <= k < |keys| && (IsSubSymbol(keys[k], name) || IsSubSymbol(name, keys[k]));
      if IsSubSymbol(keys[k], name) {
        EncloserIsNeighbour(keys, name, k);
      } else {
        EnclosedIsNext(keys, name, k);
        if u == 0 {
          assert IsSubSymbol(name, keys[0]) && Less(name, keys[0]);
        }
      }
    }
  }

  function Inserted(keys: seq<string>, name: string): seq<string> {
    var u := UpperBound(keys, name);
    keys[..u] + [name] + keys[u..]
  }

  lemma InsertKeepsSorted(keys: seq<string>, name: string)
    requires Sorted(keys) && name !in keys
    ensures Sorted(Inserted(keys, name))
  {
    var u := UpperBound(keys, name);
    var r := Inserted(keys, name);
    forall i, j | 0 <= i < j < |r|
      ensures Less(r[i], r[j])
    {
      if i == u {
        AfterUpperBound(keys, name, j - 1);
      } else if j == u {
        LessTotal(keys[i], name);
      }
    }
  }

  /** Where a name of the table, or the new one, ends up. */
  function Shifted(u: nat, k: nat): nat {
    if k < u then k else k + 1
  }

  lemma InsertedAt(keys: seq<string>, name: string, k: nat)
    requires k < |keys|
    ensures var u, r := UpperBound(keys, name), Inserted(keys, name);
      |r| == |keys| + 1 && r[u] == name && Shifted(u, k) < |r| && r[Shifted(u, k)] == keys[k]
  {
  }

  lemma InsertKeepsApart(keys: seq<string>, name: string)
    requires NoneEncloses(keys) && !Conflicts(keys, name)
    ensures NoneEncloses(Inserted(keys, name))
  {
    var u, r := UpperBound(keys, name), Inserted(keys, name);
    forall i, j | 0 <= i < |r| && 0 <= j < |r| && i != j
      ensures !IsSubSymbol(r[i], r[j])
    {
      if i == u {
        InsertedAt(keys, name, if j < u then j else j - 1);
      } else if j == u {
        InsertedAt(keys, name, if i < u then i else i - 1);
      } else {
        var i', j' := if i < u then i else i - 1, if j < u then j else j - 1;
        InsertedAt(keys, name, i');
        InsertedAt(keys, name, j');
        assert !IsSubSymbol(keys[i'], keys[j']);
      }
    }
  }

  lemma InsertOfConflict(keys: seq<string>, name: string)
    requires Conflicts(keys, name)
    ensures !NoneEncloses(Inserted(keys, name))
  {
    var u, r := UpperBound(keys, name), Inserted(keys, name);
    var k :| 0 <= k < |keys| && (IsSubSymbol(keys[k], name) || IsSubSymbol(name, keys[k]));
    InsertedAt(keys, name, k);
    assert Shifted(u, k) != u;
  }

  lemma InsertKeepsValid(keys: seq<string>, name: string)
    requires AllValid(keys) && ValidateSymbolName(name)
    ensures AllValid(Inserted(keys, name))
  {
  }

  /** Inserting keeps the table in order if and only if nothing conflicts. */
  lemma InsertKeepsTableIff(keys: seq<string>, name: string)
    requires TableOk(keys) && ValidateSymbolName(name)
    ensures TableOk(Inserted(keys, name)) <==> !Conflicts(keys, name)
  {
    InsertKeepsValid(keys, name);
    if Conflicts(keys, name) {
      InsertOfConflict(keys, name);
    } else {
      InsertKeepsApart(keys, name);
      assert forall i :: 0 <= i < |keys| ==> keys[i] != name by {
        assert forall i :: 0 <= i < |keys| ==> !IsSubSymbol(keys[i], name);
      }
      InsertKeepsSorted(keys, name);
    }
  }

  /** Adding "foo" after "foo.a" is accepted; then "foo.b" is not found although
      "foo" encloses it. */
  lemma OverlookedExample()
    ensures NeighboursAllow(["foo.a"], "foo") && Overlooked(["foo.a"], "foo")
    ensures Inserted(["foo.a"], "foo") == ["foo", "foo.a"]
    ensures Find(["foo", "foo.a"], "foo.b") == None && IsSubSymbol("foo", "foo.b")
  {
    var foo, a, b := "foo", "foo.a", "foo.b";
    assert foo < a;
    PrefixIsLess(foo, a);
    PrefixIsLess(foo, b);
    LessAsymmetric(foo, a);
    LessAsymmetric(foo, b);
    assert Less(a[4..], b[4..]);
    assert a[3..][1..] == a[4..] && b[3..][1..] == b[4..];
    assert Less(a[3..], b[3..]);
    assert a[2..][1..] == a[3..] && b[2..][1..] == b[3..];
    assert Less(a[2..], b[2..]);
    assert a[1..][1..] == a[2..] && b[1..][1..] == b[2..];
    assert Less(a[1..], b[1..]);
    assert Less(a, b);
    LessAsymmetric(a, b);
    assert UpperBound(["foo", "foo.a"][1..], b) == 1 + UpperBound(["foo", "foo.a"][1..][1..], b);
  }
}
