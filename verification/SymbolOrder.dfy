/** The two-part comparison of the encoded index: package first, then symbol, without
    building the full names in the common cases. */
module SymbolOrder {
  import opened SymbolNames

  /** What a comparison sees: an entry with the package of its file, or a bare name. */
  datatype Operand = InPackage(package: string, symbol: string) | Plain(name: string)

  /** AsString. */
  function Full(o: Operand): string {
    match o
    case InPackage(p, s) => if p == "" then s else p + "." + s
    case Plain(name) => name
  }

  /** GetParts, its first and its second half. */
  function First(o: Operand): string {
    match o
    case InPackage(p, s) => if p == "" then s else p
    case Plain(name) => name
  }

  function Second(o: Operand): string {
    match o
    case InPackage(p, s) => if p == "" then "" else s
    case Plain(_) => ""
  }

  /** The characters of `s` before position `n`, as substr(0, n). */
  function Head(s: string, n: nat): string {
    if n < |s| then s[..n] else s
  }

  /** SymbolCompare. */
  predicate Compare(l: Operand, r: Operand) {
    var a, b := First(l), First(r);
    if Head(a, |b|) != Head(b, |a|) then Less(Head(a, |b|), Head(b, |a|))
    else if |a| == |b| then Less(Second(l), Second(r))
    else Less(Full(l), Full(r))
  }

  lemma {:induction false} LessAfterCommon(p: string, x: string, y: string)
    ensures Less(p + x, p + y) == Less(x, y)
  {
    if p == "" {
      assert p + x == x && p + y == y;
    } else {
      assert (p + x)[1..] == p[1..] + x && (p + y)[1..] == p[1..] + y;
      LessAfterCommon(p[1..], x, y);
    }
  }

  lemma {:induction false} LessAtDifference(a: string, b: string, x: string, y: string)
    requires |a| == |b| && a != b
    ensures Less(a + x, b + y) == Less(a, b)
  {
    if a[0] == b[0] {
      assert (a + x)[1..] == a[1..] + x && (b + y)[1..] == b[1..] + y;
      assert a[1..] != b[1..] by {
        assert a == [a[0]] + a[1..] && b == [b[0]] + b[1..];
      }
      LessAtDifference(a[1..], b[1..], x, y);
    }
  }

  lemma FullStartsWithFirst(o: Operand, n: nat) returns (rest: string)
    requires n <= |First(o)|
    ensures Full(o) == Head(First(o), n) + rest
  {
    var f := First(o);
    rest := f[n..] + Full(o)[|f|..];
    assert Full(o)[..|f|] == f;
    assert Head(f, n) == f[..n];
    assert Full(o) == f[..n] + f[n..] + Full(o)[|f|..];
    assert f[..n] + f[n..] + Full(o)[|f|..] == f[..n] + (f[n..] + Full(o)[|f|..]);
  }

  /** The one pair the fast comparison gets wrong: a name without a package against an
      entry of that very package whose symbol is empty. */
  predicate Misjudged(l: Operand, r: Operand) {
    && (l.Plain? || l.package == "")
    && r.InPackage? && r.package != "" && r.symbol == ""
    && First(l) == r.package
  }

  lemma CompareInSamePlace(l: Operand, r: Operand)
    requires First(l) == First(r)
    ensures Compare(l, r) == Less(Full(l), Full(r)) <==> !Misjudged(l, r)
  {
    var p := First(l);
    LessIrreflexive("");
    var dot: string := ".";
    if l.InPackage? && l.package != "" && r.InPackage? && r.package != "" {
      LessAfterCommon(p + dot, l.symbol, r.symbol);
    } else if l.InPackage? && l.package != "" {
      assert Full(l) == p + (dot + l.symbol) && Full(r) == p + "";
      LessAfterCommon(p, dot + l.symbol, "");
    } else if r.InPackage? && r.package != "" {
      assert Full(r) == p + (dot + r.symbol) && Full(l) == p + "";
      LessAfterCommon(p, "", dot + r.symbol);
    } else {
      LessIrreflexive(p);
    }
  }

  /** Comparing package and symbol agrees with comparing the full names, except for
      the one misjudged pair. */
  lemma CompareIsLessIff(l: Operand, r: Operand)
    ensures Compare(l, r) == Less(Full(l), Full(r)) <==> !Misjudged(l, r)
  {
    var a, b := First(l), First(r);
    if Head(a, |b|) != Head(b, |a|) {
      var n := if |a| < |b| then |a| else |b|;
      var x := FullStartsWithFirst(l, n);
      var y := FullStartsWithFirst(r, n);
      assert Head(a, |b|) == Head(a, n) && Head(b, |a|) == Head(b, n);
      LessAtDifference(Head(a, n), Head(b, n), x, y);
    } else if |a| == |b| {
      CompareInSamePlace(l, r);
    }
  }

  /** The misjudged name encloses the nameless entry and sorts right before it. */
  lemma MisjudgedEncloses(l: Operand, r: Operand)
    requires Misjudged(l, r)
    ensures Full(r) == Full(l) + "." && IsSubSymbol(Full(l), Full(r)) && !IsSubSymbol(Full(r), Full(l))
    ensures Less(Full(l), Full(r)) && !Compare(l, r)
  {
    PrefixIsLess(Full(l), Full(r));
    CompareIsLessIff(l, r);
  }

  /** No valid name lies between a name and the same name with a dot. */
  lemma {:induction false} NothingBetween(k: string, s: string)
    requires ValidateSymbolName(s) && Less(k, s)
    ensures !Less(s, k + ".")
  {
    if k == "" {
      assert ValidChar(s[0]);
    } else if Less(s, k + ".") {
      assert s[0] == k[0];
      assert forall i :: 0 <= i < |s[1..]| ==> s[1..][i] == s[i + 1];
      assert (k + ".")[1..] == k[1..] + ".";
      NothingBetween(k[1..], s[1..]);
    }
  }

  /** Neither is less: what the ordered set takes for one element. */
  predicate Equivalent(l: Operand, r: Operand) {
    !Compare(l, r) && !Compare(r, l)
  }

  lemma EquivalentIff(l: Operand, r: Operand)
    ensures Equivalent(l, r) <==> Full(l) == Full(r) || Misjudged(l, r) || Misjudged(r, l)
  {
    CompareIsLessIff(l, r);
    CompareIsLessIff(r, l);
    LessTotal(Full(l), Full(r));
    LessIrreflexive(Full(l));
    if Misjudged(l, r) {
      MisjudgedEncloses(l, r);
      LessAsymmetric(Full(l), Full(r));
    } else if Misjudged(r, l) {
      MisjudgedEncloses(r, l);
      LessAsymmetric(Full(r), Full(l));
    }
  }

  /** Entries of files whose messages have names. */
  predicate Named(o: Operand) {
    o.Plain? || o.package == "" || o.symbol != ""
  }

  /** So on named operands it is a strict weak order, as an ordered set needs. */
  lemma CompareIsStrictWeakOrder(a: Operand, b: Operand, c: Operand)
    requires Named(a) && Named(b) && Named(c)
    ensures !Compare(a, a)
    ensures Compare(a, b) ==> !Compare(b, a)
    ensures Compare(a, b) && Compare(b, c) ==> Compare(a, c)
    ensures !Compare(a, b) && !Compare(b, a) <==> Full(a) == Full(b)
  {
    CompareIsLessIff(a, a);
    CompareIsLessIff(a, b);
    CompareIsLessIff(b, a);
    CompareIsLessIff(b, c);
    CompareIsLessIff(a, c);
    LessIrreflexive(Full(a));
    LessTotal(Full(a), Full(b));
    if Less(Full(a), Full(b)) {
      LessAsymmetric(Full(a), Full(b));
      if Less(Full(b), Full(c)) {
        LessTransitive(Full(a), Full(b), Full(c));
      }
    }
  }

  /** It is the order of the full names without the misjudged pairs. */
  lemma CompareIff(a: Operand, b: Operand)
    ensures Compare(a, b) <==> Less(Full(a), Full(b)) && !Misjudged(a, b)
  {
    CompareIsLessIff(a, b);
    if Misjudged(a, b) {
      MisjudgedEncloses(a, b);
    }
  }

  predicate MisjudgedPair(a: Operand, b: Operand) {
    Misjudged(a, b) || Misjudged(b, a)
  }

  /** Transitivity fails for three operands if and only if the outer two are misjudged and
      the third lies between them; no valid name does. */
  lemma TransitivityBreaksIff(a: Operand, b: Operand, c: Operand)
    ensures !Compare(a, a) && !(Compare(a, b) && Compare(b, a))
    ensures Compare(a, b) && Compare(b, c) && !Compare(a, c) <==>
            Misjudged(a, c) && Less(Full(a), Full(b)) && Less(Full(b), Full(c))
    ensures ValidateSymbolName(Full(b)) && Compare(a, b) && Compare(b, c) ==> Compare(a, c)
  {
    CompareIff(a, a);
    LessIrreflexive(Full(a));
    CompareIff(a, b);
    CompareIff(b, a);
    CompareIff(b, c);
    CompareIff(a, c);
    if Less(Full(a), Full(b)) {
      LessAsymmetric(Full(a), Full(b));
      if Less(Full(b), Full(c)) {
        LessTransitive(Full(a), Full(b), Full(c));
        if Misjudged(a, c) {
          BetweenMisjudged(a, b, c);
        }
      }
    }
  }

  /** What lies between a misjudged pair is misjudged with neither, and no valid name. */
  lemma BetweenMisjudged(a: Operand, b: Operand, c: Operand)
    requires Misjudged(a, c) && Less(Full(a), Full(b)) && Less(Full(b), Full(c))
    ensures !Misjudged(a, b) && !Misjudged(b, c) && !ValidateSymbolName(Full(b))
  {
    LessIrreflexive(Full(b));
    MisjudgedEncloses(a, c);
    if Misjudged(a, b) {
      MisjudgedEncloses(a, b);
    }
    if Misjudged(b, c) {
      MisjudgedEncloses(b, c);
    }
    if ValidateSymbolName(Full(b)) {
      NothingBetween(Full(a), Full(b));
    }
  }

  /** Equivalence is not transitive for three operands if and only if one of the outer two
      is misjudged against the middle one, the other has the full name of the middle one,
      and the outer two are not misjudged. */
  lemma EquivalenceBreaksIff(a: Operand, b: Operand, c: Operand)
    ensures Equivalent(a, b) && Equivalent(b, c) && !Equivalent(a, c) <==>
            && !MisjudgedPair(a, c)
            && (if Full(a) == Full(b) then MisjudgedPair(b, c) else MisjudgedPair(a, b) && Full(b) == Full(c))
  {
    EquivalentIff(a, b);
    EquivalentIff(b, c);
    EquivalentIff(a, c);
    PairDiffers(a, b);
    PairDiffers(b, c);
  }

  lemma PairDiffers(a: Operand, b: Operand)
    ensures MisjudgedPair(a, b) ==> Full(a) != Full(b)
  {
  }

  /** An empty symbol breaks it: "a" and "a." are both equivalent to the nameless
      entry of package "a", but not to each other. */
  lemma EmptySymbolBreaksOrder()
    ensures
      && var nameless := InPackage("a", "");
      && !Compare(Plain("a"), nameless) && !Compare(nameless, Plain("a"))
      && !Compare(Plain("a."), nameless) && !Compare(nameless, Plain("a."))
      && Compare(Plain("a"), Plain("a."))
  {
    var a, ad := "a", "a.";
    var nameless := InPackage(a, "");
    assert ad[..1] == a && ad == a + ".";
    PrefixIsLess(a, ad);
    LessIrreflexive(ad);
    LessIrreflexive("");
    assert First(nameless) == a && Full(nameless) == ad;
    assert Head(a, 2) == a == Head(ad, 1) && Head(a, 1) == a;
  }
}
