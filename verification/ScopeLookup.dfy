/** How the descriptor builder resolves a name used inside a scope, and which files'
    symbols it may see. */
module ScopeLookup {
  import opened Common
  import opened SymbolNames

  datatype Kind = Package | Message | Field | Oneof | Enum | EnumValue | Service | Method

  datatype Symbol = Symbol(kind: Kind, file: string)

  predicate IsType(s: Symbol) {
    s.kind == Message || s.kind == Enum
  }

  predicate IsAggregate(s: Symbol) {
    s.kind == Message || s.kind == Package || s.kind == Enum || s.kind == Service
  }

  datatype ResolveMode = LookupAll | LookupTypes

  // ---------------------------------------------------------------------
  // Dotted names and their components.

  function LastDotBefore(s: string, n: nat): (d: int)
    requires n <= |s|
    ensures -1 <= d < n
    ensures d >= 0 ==> s[d] == '.'
    ensures forall i :: d < i < n ==> s[i] != '.'
  {
    if n == 0 then -1 else if s[n - 1] == '.' then n - 1 else LastDotBefore(s, n - 1)
  }

  /** find_last_of('.'), -1 standing for npos. */
  function LastDot(s: string): (d: int)
    ensures -1 <= d < |s|
  {
    LastDotBefore(s, |s|)
  }

  function FirstDotFrom(s: string, n: nat): (d: nat)
    requires n <= |s|
    ensures n <= d <= |s|
    ensures d < |s| ==> s[d] == '.'
    ensures forall i :: n <= i < d ==> s[i] != '.'
    decreases |s| - n
  {
    if n == |s| || s[n] == '.' then n else FirstDotFrom(s, n + 1)
  }

  /** find_first_of('.'), the length standing for npos. */
  function FirstDot(s: string): (d: nat)
    ensures d <= |s|
  {
    FirstDotFrom(s, 0)
  }

  /** The name with the given components. */
  function Join(parts: seq<string>): string
    requires parts != []
  {
    var last := |parts| - 1;
    if last == 0 then parts[0] else Join(parts[..last]) + "." + parts[last]
  }

  ghost predicate NoDots(parts: seq<string>) {
    parts != [] && forall i :: 0 <= i < |parts| ==> '.' !in parts[i]
  }

  lemma LastDotOfDotted(a: string, b: string)
    requires '.' !in b
    ensures LastDot(a + "." + b) == |a| && LastDot(b) == -1
    ensures (a + "." + b)[..|a|] == a
  {
    var s := a + "." + b;
    assert s[|a|] == '.';
    assert forall i :: |a| < i < |s| ==> s[i] == b[i - |a| - 1];
  }

  /** Chopping at the last dot chops off the last component. */
  lemma ChopIsLastComponent(parts: seq<string>, n: nat)
    requires NoDots(parts) && 1 <= n <= |parts|
    ensures var s := Join(parts[..n]); LastDot(s) == if n == 1 then -1 else |Join(parts[..n - 1])|
    ensures n > 1 ==> Join(parts[..n])[..|Join(parts[..n - 1])|] == Join(parts[..n - 1])
  {
    if n == 1 {
      LastDotOfDotted("", parts[0]);
    } else {
      assert parts[..n][..n - 1] == parts[..n - 1];
      LastDotOfDotted(Join(parts[..n - 1]), parts[n - 1]);
    }
  }

  /** The components of a name. */
  function Split(s: string): (parts: seq<string>)
    ensures parts != []
    decreases |s|
  {
    var d := LastDot(s);
    if d == -1 then [s] else Split(s[..d]) + [s[d + 1..]]
  }

  lemma JoinSnoc(parts: seq<string>, part: string)
    requires parts != []
    ensures Join(parts + [part]) == Join(parts) + "." + part
  {
    assert (parts + [part])[..|parts|] == parts;
  }

  lemma CutAtLast(s: string) returns (a: string, b: string)
    requires LastDot(s) >= 0
    ensures s == a + "." + b && '.' !in b && a == s[..LastDot(s)] && b == s[LastDot(s) + 1..]
  {
    a, b := s[..LastDot(s)], s[LastDot(s) + 1..];
  }

  /** Every name is joined from its components, and these have no dots. */
  lemma {:induction false} JoinSplit(s: string)
    ensures NoDots(Split(s)) && Join(Split(s)) == s
    decreases |s|
  {
    if LastDot(s) >= 0 {
      var a, b := CutAtLast(s);
      JoinSplit(a);
      JoinSnoc(Split(a), b);
    }
  }

  lemma SplitDotted(a: string, b: string)
    requires '.' !in b
    ensures Split(a + "." + b) == Split(a) + [b] && Split(b) == [b]
  {
    LastDotOfDotted(a, b);
    AfterDot(a, b);
  }

  lemma AfterDot(a: string, b: string)
    ensures (a + "." + b)[|a| + 1..] == b
  {
  }

  lemma InitAndLast<T>(s: seq<T>)
    requires s != []
    ensures s == s[..|s| - 1] + [s[|s| - 1]]
  {
  }

  /** There is no other way to write it as components. */
  lemma {:induction false} SplitJoin(parts: seq<string>)
    requires NoDots(parts)
    ensures Split(Join(parts)) == parts
    decreases |parts|
  {
    if |parts| == 1 {
      SplitDotted("", parts[0]);
    } else {
      var init := parts[..|parts| - 1];
      SplitJoin(init);
      SplitDotted(Join(init), parts[|parts| - 1]);
      InitAndLast(parts);
    }
  }

  /** A character of a component. */
  predicate WordChar(c: char) {
    c == '_' || '0' <= c <= '9' || 'A' <= c <= 'Z' || 'a' <= c <= 'z'
  }

  /** A name is valid if and only if its components consist of letters, digits and
      underscores. */
  lemma {:induction false} ValidByComponents(s: string)
    ensures ValidateSymbolName(s) <==> forall p, c :: p in Split(s) && c in p ==> WordChar(c)
    decreases |s|
  {
    var d := LastDot(s);
    if d == -1 {
      assert forall i :: 0 <= i < |s| ==> s[i] in s && (ValidChar(s[i]) <==> s[i] == '.' || WordChar(s[i]));
    } else {
      var front, last := s[..d], s[d + 1..];
      ValidByComponents(front);
      assert s == front + "." + last && Split(s) == Split(front) + [last];
      ValidConcat(front, last);
      assert forall p :: p in Split(s) <==> p in Split(front) || p == last;
      assert forall i :: 0 <= i < |last| ==> last[i] in last && last[i] == s[d + 1 + i] != '.';
    }
  }

  lemma ValidConcat(a: string, b: string)
    ensures ValidateSymbolName(a + "." + b) <==> ValidateSymbolName(a) && ValidateSymbolName(b)
  {
    var s := a + "." + b;
    assert forall i :: 0 <= i < |a| ==> a[i] == s[i];
    assert forall i :: 0 <= i < |b| ==> b[i] == s[|a| + 1 + i];
    assert ValidChar(s[|a|]);
  }

  lemma PrefixOfSnoc<T>(p: seq<T>, q: seq<T>, x: T)
    requires p != q + [x]
    ensures p <= q + [x] <==> p <= q
  {
    if p <= q + [x] {
      assert p == (q + [x])[..|p|];
      assert |p| <= |q|;
      assert p == q[..|p|];
    }
    if p <= q {
      assert p == q[..|p|] == (q + [x])[..|p|];
    }
  }

  /** One name encloses another if and only if its components are the first ones of the
      other's. */
  lemma {:induction false} EnclosesByComponents(sub: string, super: string)
    ensures IsSubSymbol(sub, super) <==> Split(sub) <= Split(super)
    decreases |super|
  {
    if sub != super {
      JoinSplit(sub);
      JoinSplit(super);
      if LastDot(super) == -1 {
        NotInside(sub, super);
      } else {
        var front, last := CutAtLast(super);
        SplitDotted(front, last);
        EnclosesByComponents(sub, front);
        PrefixOfSnoc(Split(sub), Split(front), last);
        ScopeOfFront(sub, front, last);
      }
    }
  }

  /** A name without dots is inside no other one. */
  lemma NotInside(sub: string, super: string)
    requires sub != super && LastDot(super) == -1 && Split(sub) != Split(super)
    ensures !IsSubSymbol(sub, super) && !(Split(sub) <= Split(super))
  {
    assert Split(super) == [super];
  }

  lemma NoDotBeyond(front: string, last: string, k: nat)
    requires '.' !in last && |front| < k < |front + "." + last|
    ensures (front + "." + last)[k] != '.'
  {
    assert (front + "." + last)[k] == last[k - |front| - 1];
  }

  /** Behind the last dot no further scope begins. */
  lemma ScopeOfFront(sub: string, front: string, last: string)
    requires '.' !in last && sub != front + "." + last
    ensures IsSubSymbol(sub, front + "." + last) <==> IsSubSymbol(sub, front)
  {
    var super := front + "." + last;
    forall k | |front| < k < |super|
      ensures super[k] != '.'
    {
      NoDotBeyond(front, last, k);
    }
    assert super[..|front|] == front && super[|front|] == '.';
    if |sub| <= |front| {
      assert super[..|sub|] == front[..|sub|];
    }
  }

  // ---------------------------------------------------------------------
  // The files whose symbols are visible.

  datatype File = File(package: string, publicImports: seq<string>)

  /** With every file, the set has the files it imports publicly. */
  ghost predicate ClosedUnderPublic(files: map<string, File>, s: set<string>) {
    forall f :: f in s && f in files ==> PublicIn(files, f, s)
  }

  /** The public imports of `f` that exist are in the set. */
  ghost predicate PublicIn(files: map<string, File>, f: string, s: set<string>)
    requires f in files
  {
    forall i :: 0 <= i < |files[f].publicImports| && files[f].publicImports[i] in files ==>
      files[f].publicImports[i] in s
  }

  lemma PrefixOfPrefix(s: string, n: nat, d: int)
    requires n <= |s|
    ensures 0 <= d <= n ==> s[..n][..d] == s[..d]
  {
  }

  lemma Appended(scope: string, name: string, n: nat)
    requires n <= |name|
    ensures scope + name[..n] + name[n..] == scope + name
  {
    assert name == name[..n] + name[n..];
  }

  class Builder {
    const file: string
    const files: map<string, File>
    const symbols: map<string, Symbol>
    const enforceDependencies: bool
    var dependencies: set<string>
    var undefineResolvedName: string

    constructor (file: string, files: map<string, File>, symbols: map<string, Symbol>, enforce: bool)
      ensures this.file == file && this.files == files && this.symbols == symbols
      ensures enforceDependencies == enforce && dependencies == {} && undefineResolvedName == ""
    {
      this.file, this.files, this.symbols, enforceDependencies := file, files, symbols, enforce;
      dependencies, undefineResolvedName := {}, "";
    }

    /** A name without a file stands for a null file. Every file added has all its public
        imports recorded too, and no more is added than closure demands. */
    method RecordPublicDependencies(f: string)
      requires dependencies <= files.Keys
      modifies this`dependencies
      ensures old(dependencies) <= dependencies <= files.Keys
      ensures f in files ==> f in dependencies
      ensures forall g :: g in dependencies && g !in old(dependencies) ==> PublicIn(files, g, dependencies)
      ensures forall s :: f in s && ClosedUnderPublic(files, s) ==> dependencies - old(dependencies) <= s
      decreases files.Keys - dependencies
    {
      if f !in files || f in dependencies {
        return;
      }
      ghost var before := dependencies;
      dependencies := dependencies + {f};
      assert f in files.Keys - before && f !in files.Keys - dependencies;
      var imports := files[f].publicImports;
      for i := 0 to |imports|
        invariant before + {f} <= dependencies <= files.Keys
        invariant forall k :: 0 <= k < i && imports[k] in files ==> imports[k] in dependencies
        invariant forall g :: g in dependencies && g !in before && g != f ==> PublicIn(files, g, dependencies)
        invariant forall s :: f in s && ClosedUnderPublic(files, s) ==> dependencies - before <= s
      {
        ghost var d := dependencies;
        RecordPublicDependencies(imports[i]);
        forall s | f in s && ClosedUnderPublic(files, s)
          ensures dependencies - before <= s
        {
          assert PublicIn(files, f, s);
          if imports[i] in files {
            assert imports[i] in s;
            assert dependencies - d <= s;
          } else {
            assert dependencies - d <= s + {imports[i]};
          }
        }
      }
    }

    /** The dependency set of a file: the least set that holds its imports and is closed
        under public imports. */
    method BuildDependencySet(imports: seq<string>)
      modifies this`dependencies
      ensures ClosedUnderPublic(files, dependencies) && dependencies <= files.Keys
      ensures forall i :: 0 <= i < |imports| && imports[i] in files ==> imports[i] in dependencies
      ensures forall s :: ClosedUnderPublic(files, s) && (forall i :: 0 <= i < |imports| ==> imports[i] in s) ==>
        dependencies <= s
    {
      dependencies := {};
      for i := 0 to |imports|
        invariant ClosedUnderPublic(files, dependencies) && dependencies <= files.Keys
        invariant forall k :: 0 <= k < i && imports[k] in files ==> imports[k] in dependencies
        invariant forall s :: ClosedUnderPublic(files, s) && (forall k :: 0 <= k < |imports| ==> imports[k] in s) ==>
          dependencies <= s
      {
        ghost var before := dependencies;
        RecordPublicDependencies(imports[i]);
        forall g | g in dependencies && g in files
          ensures PublicIn(files, g, dependencies)
        {
          if g in before {
            assert PublicIn(files, g, before);
          }
        }
        forall s | ClosedUnderPublic(files, s) && (forall k :: 0 <= k < |imports| ==> imports[k] in s)
          ensures dependencies <= s
        {
          assert imports[i] in s;
          assert dependencies - before <= s;
        }
      }
    }

    /** Some file that is visible is in the package, or in one inside it. */
    ghost predicate PackageVisible(name: string)
      reads this`dependencies
    {
      exists f :: (f == file || f in dependencies) && f in files && IsSubSymbol(name, files[f].package)
    }

    /** What may be seen: all symbols if dependencies are not enforced; else those of this
        file and of what it imports, and packages that one of these files is in. */
    ghost function Seen(name: string): Option<Symbol>
      reads this`dependencies
    {
      if name in symbols &&
        (!enforceDependencies || symbols[name].file == file || symbols[name].file in dependencies ||
         (symbols[name].kind == Package && PackageVisible(name)))
      then Some(symbols[name]) else None
    }

    method FindSymbol(name: string) returns (result: Option<Symbol>)
      ensures result == Seen(name)
      ensures result.Some? <==>
        && name in symbols
        && (|| !enforceDependencies || symbols[name].file == file || symbols[name].file in dependencies
            || (symbols[name].kind == Package &&
                exists f :: (f == file || f in dependencies) && f in files && IsSubSymbol(name, files[f].package)))
      ensures result.Some? ==> result.value == symbols[name]
    {
      if name !in symbols {
        return None;
      }
      var symbol := symbols[name];
      if !enforceDependencies || symbol.file == file || symbol.file in dependencies {
        return Some(symbol);
      }
      if symbol.kind == Package {
        if file in files && IsSubSymbol(name, files[file].package) {
          return Some(symbol);
        }
        var rest := dependencies;
        while rest != {}
          invariant rest <= dependencies
          invariant forall f :: f in dependencies && f !in rest && f in files ==>
            !IsSubSymbol(name, files[f].package)
          decreases rest
        {
          var f :| f in rest;
          if f in files && IsSubSymbol(name, files[f].package) {
            return Some(symbol);
          }
          rest := rest - {f};
        }
      }
      return None;
    }

    /** A scope decides the lookup of a name: the first part of the name means something
        in it, and that can contain the rest, or, if there is no rest, is of a kind that
        is wanted. */
    ghost predicate DecidesIn(scope: string, name: string, mode: ResolveMode)
      reads this`dependencies
    {
      var found := Seen(scope + "." + name[..FirstDot(name)]);
      found.Some? &&
      (if FirstDot(name) < |name| then IsAggregate(found.value)
       else mode == LookupTypes ==> IsType(found.value))
    }

    /** Where the innermost scope that decides ends: the last of the dots before position
        `n` such that what precedes the dot decides; -1 if there is none. */
    ghost function Innermost(within: string, n: nat, name: string, mode: ResolveMode): (d: int)
      requires n <= |within|
      reads this`dependencies
      ensures -1 <= d < n
    {
      if n == 0 then -1
      else if within[n - 1] == '.' && DecidesIn(within[..n - 1], name, mode) then n - 1
      else Innermost(within, n - 1, name, mode)
    }

    /** The scopes between the dots `d` and `n` are skipped when there is no dot there. */
    lemma {:induction false} InnermostSkips(within: string, d: int, n: nat, name: string, mode: ResolveMode)
      requires -1 <= d < n <= |within| && forall i :: d < i < n ==> within[i] != '.'
      ensures Innermost(within, n, name, mode) == Innermost(within, d + 1, name, mode)
      decreases n - d
    {
      if d + 1 < n {
        InnermostSkips(within, d, n - 1, name, mode);
      }
    }

    /** One round of the search. */
    method TryScope(scope: string, name: string, mode: ResolveMode)
      returns (decided: bool, result: Option<Symbol>)
      modifies this`undefineResolvedName
      ensures decided == DecidesIn(scope, name, mode)
      ensures
        && var first := Seen(scope + "." + name[..FirstDot(name)]);
        && decided == (first.Some? && (
             if '.' in name then first.value.kind in {Package, Message, Enum, Service}
             else mode == LookupAll || first.value.kind in {Message, Enum}))
      ensures decided ==> result == Seen(scope + "." + name)
      ensures undefineResolvedName ==
        if decided && result == None then scope + "." + name else old(undefineResolvedName)
    {
      var firstPart := name[..FirstDot(name)];
      var tried := scope + "." + firstPart;
      result := FindSymbol(tried);
      if result == None {
        return false, result;
      }
      if |firstPart| < |name| {
        if !IsAggregate(result.value) {
          return false, result;
        }
        Appended(scope + ".", name, |firstPart|);
        tried := tried + name[|firstPart|..];
        result := FindSymbol(tried);
        if result == None {
          undefineResolvedName := tried;
        }
        return true, result;
      }
      assert firstPart == name;
      decided := mode != LookupTypes || IsType(result.value);
    }

    /** The name is looked up in the innermost enclosing scope that decides, even if it is
        not there; without such a scope it is looked up as it stands. */
    method LookupSymbolNoPlaceholder(name: string, relativeTo: string, mode: ResolveMode)
      returns (result: Option<Symbol>)
      modifies this`undefineResolvedName
      ensures name != "" && name[0] == '.' ==> result == Seen(name[1..]) && undefineResolvedName == ""
      ensures !(name != "" && name[0] == '.') ==>
        var d := Innermost(relativeTo, |relativeTo|, name, mode);
        var full := if d == -1 then name else relativeTo[..d] + "." + name;
        && result == Seen(full)
        && undefineResolvedName == (if d >= 0 && result == None then full else "")
        && (d >= 0 ==>
             && var first := relativeTo[..d] + "." + name[..FirstDot(name)];
             && first in symbols
             && if '.' in name then symbols[first].kind in {Package, Message, Enum, Service}
                else mode == LookupAll || symbols[first].kind in {Message, Enum})
      ensures result.Some? ==>
        || !enforceDependencies || result.value.file == file || result.value.file in dependencies
        || result.value.kind == Package
    {
      undefineResolvedName := "";
      if name != "" && name[0] == '.' {
        result := FindSymbol(name[1..]);
        return;
      }
      var scope := relativeTo;
      while true
        invariant scope <= relativeTo && undefineResolvedName == ""
        invariant Innermost(relativeTo, |relativeTo|, name, mode) == Innermost(relativeTo, |scope|, name, mode)
        decreases |scope|
      {
        var dot := LastDot(scope);
        assert forall i :: 0 <= i < |scope| ==> relativeTo[i] == scope[i];
        InnermostSkips(relativeTo, dot, |scope|, name, mode);
        if dot == -1 {
          result := FindSymbol(name);
          return;
        }
        assert relativeTo[..dot] == scope[..dot];
        scope := scope[..dot];
        var decided;
        decided, result := TryScope(scope, name, mode);
        if decided {
          return;
        }
      }
    }

    ghost predicate Decides(parts: seq<string>, k: nat, name: string, mode: ResolveMode)
      requires 1 <= k <= |parts|
      reads this`dependencies
    {
      DecidesIn(Join(parts[..k]), name, mode)
    }

    lemma {:induction false} InnermostOfPrefix(within: string, n: nat, m: nat, name: string, mode: ResolveMode)
      requires m <= n <= |within|
      ensures Innermost(within[..n], m, name, mode) == Innermost(within, m, name, mode)
    {
      if m > 0 {
        assert within[..n][..m - 1] == within[..m - 1];
        InnermostOfPrefix(within, n, m - 1, name, mode);
      }
    }

    /** The search goes on within what precedes the last dot. */
    lemma InnermostStep(within: string, name: string, mode: ResolveMode)
      ensures
        && var dot := LastDot(within);
        && Innermost(within, |within|, name, mode) ==
          if dot == -1 then -1
          else if DecidesIn(within[..dot], name, mode) then dot
          else Innermost(within[..dot], dot, name, mode)
    {
      var dot := LastDot(within);
      InnermostSkips(within, dot, |within|, name, mode);
      if dot >= 0 {
        InnermostOfPrefix(within, dot, dot, name, mode);
      }
    }

    /** In terms of components, the scopes tried are the first `k` components for each
        `k` below their number, from the longest on. */
    lemma {:induction false} InnermostInComponents(parts: seq<string>, n: nat, name: string, mode: ResolveMode)
      returns (k: nat)
      requires NoDots(parts) && 1 <= n <= |parts|
      ensures k < n
      ensures
        && var within := Join(parts[..n]);
        && var d := Innermost(within, |within|, name, mode);
        && (d == -1 <==> k == 0)
        && (k > 0 ==> within[..d] == Join(parts[..k]) && Decides(parts, k, name, mode))
      ensures forall j :: k < j < n ==> !Decides(parts, j, name, mode)
      decreases n
    {
      var within := Join(parts[..n]);
      ChopIsLastComponent(parts, n);
      InnermostStep(within, name, mode);
      if n == 1 {
        return 0;
      }
      var outer := Join(parts[..n - 1]);
      if DecidesIn(outer, name, mode) {
        return n - 1;
      }
      k := InnermostInComponents(parts, n - 1, name, mode);
      PrefixOfPrefix(within, |outer|, Innermost(outer, |outer|, name, mode));
    }
  }
}
