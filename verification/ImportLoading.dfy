/** Eager loading of a file and its imports from a database whose import graph may have
    cycles, missing files and files that fail to build. */
module ImportLoading {

  datatype Proto = Proto(name: string, deps: seq<string>, contents: nat)

  type Database = map<string, Proto>

  /** The database returns the file that was asked for. */
  ghost predicate ReturnsAsked(db: Database) {
    forall n {:trigger db[n]} :: n in db ==> db[n].name == n
  }

  ghost predicate NoneTwice(deps: seq<string>) {
    forall i, j :: 0 <= i < j < |deps| ==> deps[i] != deps[j]
  }

  // ---------------------------------------------------------------------
  // Which files can be built: those from which every chain of imports ends
  // within the database.

  /** All chains of imports from `n` have at most `d` steps and stay in the database,
      and no file on them has a null character in its name or lists an import twice. */
  ghost predicate GoodIn(db: Database, n: string, d: nat)
    decreases d
  {
    && n in db && '\0' !in n && NoneTwice(db[n].deps)
    && (forall i :: 0 <= i < |db[n].deps| ==> d > 0 && GoodIn(db, db[n].deps[i], d - 1))
  }

  ghost predicate Good(db: Database, n: string) {
    exists d: nat :: GoodIn(db, n, d)
  }

  lemma {:induction false} GoodInMore(db: Database, n: string, d: nat, e: nat)
    requires GoodIn(db, n, d) && d <= e
    ensures GoodIn(db, n, e)
    decreases e
  {
    forall i | 0 <= i < |db[n].deps|
      ensures e > 0 && GoodIn(db, db[n].deps[i], e - 1)
    {
      GoodInMore(db, db[n].deps[i], d - 1, e - 1);
    }
  }

  lemma DepsAreGood(db: Database, n: string)
    requires Good(db, n)
    ensures n in db && forall i :: 0 <= i < |db[n].deps| ==> Good(db, db[n].deps[i])
  {
    var d: nat :| GoodIn(db, n, d);
    forall i | 0 <= i < |db[n].deps|
      ensures Good(db, db[n].deps[i])
    {
      assert GoodIn(db, db[n].deps[i], d - 1);
    }
  }

  /** Each name imports the next one. */
  ghost predicate Chain(db: Database, names: seq<string>) {
    forall i {:trigger names[i]} :: 0 <= i < |names| - 1 ==> names[i] in db && names[i + 1] in db[names[i]].deps
  }

  lemma {:induction false} GoodAlong(db: Database, names: seq<string>, i: nat, j: nat, d: nat)
    requires Chain(db, names) && i <= j < |names| && GoodIn(db, names[i], d)
    ensures j - i <= d && GoodIn(db, names[j], d - (j - i))
    decreases j - i
  {
    if i < j {
      assert names[i + 1] in db[names[i]].deps;
      GoodAlong(db, names, i + 1, j, d - 1);
    }
  }

  lemma {:induction false} CycleIsNotGoodIn(db: Database, names: seq<string>, i: nat, j: nat, d: nat)
    requires Chain(db, names) && i < j < |names| && names[i] == names[j]
    ensures !GoodIn(db, names[i], d)
    decreases d
  {
    if GoodIn(db, names[i], d) {
      GoodAlong(db, names, i, j, d);
      CycleIsNotGoodIn(db, names, i, j, d - (j - i));
    }
  }

  lemma CycleIsNotGood(db: Database, names: seq<string>, i: nat, j: nat)
    requires Chain(db, names) && i < j < |names| && names[i] == names[j]
    ensures !Good(db, names[i])
  {
    forall d: nat
      ensures !GoodIn(db, names[i], d)
    {
      CycleIsNotGoodIn(db, names, i, j, d);
    }
  }

  // ---------------------------------------------------------------------
  // The files of a pool, in the order of their insertion.

  predicate HasFile(files: seq<Proto>, name: string) {
    exists i :: 0 <= i < |files| && files[i].name == name
  }

  ghost predicate NamesDiffer(files: seq<Proto>) {
    forall i, j {:trigger files[i], files[j]} :: 0 <= i < j < |files| ==> files[i].name != files[j].name
  }

  /** A file built at position `i`: it is the database's, and all it imports was built
      before it. */
  ghost predicate BuiltOk(db: Database, files: seq<Proto>, i: nat)
    requires i < |files|
  {
    && files[i].name in db && db[files[i].name] == files[i]
    && '\0' !in files[i].name && NoneTwice(files[i].deps)
    && AllBuilt(files[..i], files[i].deps, |files[i].deps|)
  }

  ghost predicate Topological(db: Database, files: seq<Proto>) {
    NamesDiffer(files) && forall i {:trigger BuiltOk(db, files, i)} :: 0 <= i < |files| ==> BuiltOk(db, files, i)
  }

  lemma TopologicalAppend(db: Database, files: seq<Proto>, proto: Proto)
    requires Topological(db, files) && !HasFile(files, proto.name)
    requires proto.name in db && db[proto.name] == proto && '\0' !in proto.name && NoneTwice(proto.deps)
    requires AllBuilt(files, proto.deps, |proto.deps|)
    ensures Topological(db, files + [proto])
  {
    var r := files + [proto];
    forall i | 0 <= i < |r|
      ensures BuiltOk(db, r, i)
    {
      if i < |files| {
        assert BuiltOk(db, files, i);
        assert r[..i] == files[..i];
      } else {
        assert r[..i] == files;
      }
    }
  }

  /** Every file of the pool can be built; its position bounds its chains of imports. */
  lemma {:induction false} BuiltIsGood(db: Database, files: seq<Proto>, i: nat)
    requires Topological(db, files) && i < |files|
    ensures GoodIn(db, files[i].name, i)
    decreases i
  {
    assert BuiltOk(db, files, i);
    var deps := files[i].deps;
    forall k | 0 <= k < |deps|
      ensures i > 0 && GoodIn(db, deps[k], i - 1)
    {
      assert HasFile(files[..i], deps[k]);
      var j :| 0 <= j < |files[..i]| && files[..i][j].name == deps[k];
      BuiltIsGood(db, files, j);
      GoodInMore(db, deps[k], j, i - 1);
    }
  }

  /** No file of the pool is on a cycle of imports. */
  lemma NoBuiltFileOnCycle(db: Database, files: seq<Proto>, cycle: seq<string>, i: nat)
    requires Topological(db, files) && i < |files|
    requires Chain(db, cycle) && |cycle| > 1 && cycle[0] == cycle[|cycle| - 1]
    ensures files[i].name !in cycle
  {
    BuiltIsGood(db, files, i);
    CycleIsNotGood(db, cycle, 0, |cycle| - 1);
    forall k | 0 <= k < |cycle|
      ensures cycle[k] != files[i].name
    {
      if GoodIn(db, cycle[k], i) {
        GoodAlong(db, cycle, k, |cycle| - 1, i);
      }
    }
  }

  /** The names on the way from the first file asked for to the one being loaded. */
  ghost predicate PendingOk(db: Database, pending: seq<string>) {
    && Chain(db, pending)
    && (forall i :: 0 <= i < |pending| ==> pending[i] in db)
  }

  ghost function Set(names: seq<string>): set<string> {
    set n | n in names
  }

  /** Whatever is asked for again while it is pending is on a cycle. */
  lemma PendingAgainIsBad(db: Database, pending: seq<string>, name: string)
    requires Chain(db, pending + [name]) && name in pending
    ensures !Good(db, name)
  {
    var i :| 0 <= i < |pending| && pending[i] == name;
    CycleIsNotGood(db, pending + [name], i, |pending|);
  }

  lemma ChainExtends(db: Database, pending: seq<string>, name: string, dep: string)
    requires Chain(db, pending + [name]) && name in db && dep in db[name].deps
    ensures Chain(db, pending + [name] + [dep])
  {
    var a, b := pending + [name], pending + [name] + [dep];
    forall i | 0 <= i < |b| - 1
      ensures b[i] in db && b[i + 1] in db[b[i]].deps
    {
      if i < |a| - 1 {
        assert a[i] in db && a[i + 1] in db[a[i]].deps;
      }
    }
  }

  /** What every loading step does to the pool: it only adds files, none of them pending. */
  ghost predicate Grows(before: seq<Proto>, after: seq<Proto>, pending: seq<string>) {
    before <= after && forall n :: n in pending && HasFile(after, n) ==> HasFile(before, n)
  }

  lemma HasFileLater(before: seq<Proto>, after: seq<Proto>, name: string)
    requires before <= after && HasFile(before, name)
    ensures HasFile(after, name)
  {
    var i :| 0 <= i < |before| && before[i].name == name;
    assert after[i] == before[i];
  }

  lemma GrowsMore(a: seq<Proto>, b: seq<Proto>, c: seq<Proto>, pending: seq<string>)
    requires Grows(a, b, pending) && Grows(b, c, pending)
    ensures Grows(a, c, pending)
  {
  }

  lemma GrowsByOne(a: seq<Proto>, b: seq<Proto>, proto: Proto, pending: seq<string>)
    requires Grows(a, b, pending + [proto.name]) && proto.name !in pending
    ensures Grows(a, b + [proto], pending)
  {
    forall n | n in pending && HasFile(b + [proto], n)
      ensures HasFile(a, n)
    {
      HasFileAppended(b, proto, n);
    }
  }

  lemma NoneTwiceSoFar(deps: seq<string>, i: nat)
    requires i < |deps|
    ensures NoneTwice(deps[..i + 1]) <==> NoneTwice(deps[..i]) && deps[i] !in deps[..i]
  {
    var a, b := deps[..i], deps[..i + 1];
    assert b == a + [deps[i]];
    if NoneTwice(b) {
      forall j | 0 <= j < i
        ensures a[j] != deps[i]
      {
        assert b[j] != b[i];
      }
      assert forall j, k :: 0 <= j < k < i ==> b[j] != b[k];
    }
  }

  /** The first `n` imports are in the pool. */
  ghost predicate AllBuilt(files: seq<Proto>, deps: seq<string>, n: nat)
    requires n <= |deps|
  {
    forall k :: 0 <= k < n ==> HasFile(files, deps[k])
  }

  lemma AllBuiltMore(before: seq<Proto>, after: seq<Proto>, deps: seq<string>, n: nat)
    requires before <= after && n <= |deps|
    ensures AllBuilt(before, deps, n) ==> AllBuilt(after, deps, n)
  {
    if AllBuilt(before, deps, n) {
      forall k | 0 <= k < n
        ensures HasFile(after, deps[k])
      {
        HasFileLater(before, after, deps[k]);
      }
    }
  }

  lemma HasFileAppended(files: seq<Proto>, proto: Proto, name: string)
    ensures HasFile(files + [proto], name) <==> HasFile(files, name) || name == proto.name
  {
    var r := files + [proto];
    if HasFile(files, name) {
      HasFileLater(files, r, name);
    }
    assert r[|files|] == proto;
  }

  class Pool {
    const db: Database
    /** All checks of a file besides its imports, and its cross-linking. */
    const links: (Proto, seq<Proto>) -> bool
    /** Whether a file in the pool is identical with one to be built. */
    const matches: (Proto, Proto) -> bool
    var built: seq<Proto>
    var pending: seq<string>
    var knownBad: set<string>

    constructor (db: Database, links: (Proto, seq<Proto>) -> bool, matches: (Proto, Proto) -> bool)
      requires ReturnsAsked(db)
      ensures Valid() && built == [] && pending == [] && knownBad == {}
      ensures this.db == db && this.links == links && this.matches == matches
    {
      this.db, this.links, this.matches := db, links, matches;
      built, pending, knownBad := [], [], {};
    }

    ghost predicate Valid()
      reads this`built, this`pending
    {
      ReturnsAsked(db) && Topological(db, built) && PendingOk(db, pending)
    }

    /** No file fails for another reason than its imports. */
    ghost predicate AllLink() {
      forall proto, files :: links(proto, files)
    }

    /** Files recorded as bad could not be built anyway. */
    ghost predicate OnlyBadIsKnownBad()
      reads this`knownBad
    {
      forall n :: n in knownBad ==> !Good(db, n)
    }

    /** No file recorded as bad is in the pool. */
    ghost predicate BadIsNotBuilt()
      reads this`knownBad, this`built
    {
      forall n :: n in knownBad ==> !HasFile(built, n)
    }

    /** Of the pending files, only those on a cycle are newly recorded as bad. */
    ghost predicate OnlyCycles(before: set<string>, names: seq<string>)
      reads this`knownBad
    {
      forall n :: n in knownBad && n !in before && n in names ==> !Good(db, n)
    }

    ghost function Rest(): set<string>
      reads this`pending
    {
      db.Keys - Set(pending)
    }

    predicate FindFile(name: string)
      reads this`built
    {
      HasFile(built, name)
    }

    function FileNamed(name: string): (file: Proto)
      requires Valid() && FindFile(name)
      reads this`built, this`pending
      ensures name in db && file == db[name]
    {
      var i :| 0 <= i < |built| && built[i].name == name;
      assert BuiltOk(db, built, i);
      built[i]
    }

    method TryFindFileInFallbackDatabase(name: string) returns (found: bool)
      requires Valid() && !FindFile(name) && Chain(db, pending + [name])
      modifies this
      ensures Valid() && pending == old(pending) && old(knownBad) <= knownBad
      ensures Grows(old(built), built, pending)
      ensures found == FindFile(name) && (!found ==> name in knownBad)
      ensures OnlyCycles(old(knownBad), pending) && (old(BadIsNotBuilt()) ==> BadIsNotBuilt())
      ensures AllLink() && old(OnlyBadIsKnownBad()) ==> OnlyBadIsKnownBad() && (Good(db, name) ==> found)
      decreases Rest(), 3
    {
      if name in pending {
        PendingAgainIsBad(db, pending, name);
      }
      if name in knownBad {
        return false;
      }
      if name !in db {
        knownBad := knownBad + {name};
        return false;
      }
      found := BuildFileFromDatabase(db[name]);
      if !found {
        knownBad := knownBad + {name};
      }
    }

    method BuildFileFromDatabase(proto: Proto) returns (ok: bool)
      requires Valid() && proto.name in db && db[proto.name] == proto
      requires !FindFile(proto.name) && Chain(db, pending + [proto.name])
      modifies this
      ensures Valid() && pending == old(pending) && old(knownBad) <= knownBad
      ensures Grows(old(built), built, pending)
      ensures ok == FindFile(proto.name) && (!ok ==> proto.name in knownBad)
      ensures OnlyCycles(old(knownBad), pending) && (old(BadIsNotBuilt()) ==> BadIsNotBuilt())
      ensures AllLink() && old(OnlyBadIsKnownBad()) ==> OnlyBadIsKnownBad() && (Good(db, proto.name) ==> ok)
      decreases Rest(), 2
    {
      if proto.name in pending {
        PendingAgainIsBad(db, pending, proto.name);
      }
      if proto.name in knownBad {
        return false;
      }
      ok := BuildFile(proto);
      if !ok {
        knownBad := knownBad + {proto.name};
      }
    }

    method BuildFile(proto: Proto) returns (ok: bool)
      requires Valid() && proto.name in db && db[proto.name] == proto && Chain(db, pending + [proto.name])
      modifies this
      ensures Valid() && pending == old(pending) && old(knownBad) <= knownBad
      ensures Grows(old(built), built, pending)
      ensures old(FindFile(proto.name)) ==> ok == matches(proto, proto)
      ensures !old(FindFile(proto.name)) ==> ok == FindFile(proto.name)
      ensures OnlyCycles(old(knownBad), pending)
      ensures old(BadIsNotBuilt()) && proto.name !in old(knownBad) ==> BadIsNotBuilt()
      ensures AllLink() && old(OnlyBadIsKnownBad()) ==>
        OnlyBadIsKnownBad() && (Good(db, proto.name) && !old(FindFile(proto.name)) ==> ok)
      decreases Rest(), 1
    {
      if FindFile(proto.name) {
        var existing := FileNamed(proto.name);
        if matches(existing, proto) {
          return true;
        }
      }
      for i := 0 to |pending|
        invariant proto.name !in pending[..i]
      {
        if pending[i] == proto.name {
          PendingAgainIsBad(db, pending, proto.name);
          return false;
        }
      }
      LoadDependencies(proto);
      var checkpoint := |built|;
      ghost var files := built;
      ok := BuildFileImpl(proto);
      HasFileAppended(files, proto, proto.name);
      if ok {
        TopologicalAppend(db, files, proto);
        GrowsByOne(old(built), files, proto, pending);
        BuiltIsGood(db, built, |files|);
        forall n
          ensures HasFile(built, n) <==> HasFile(files, n) || n == proto.name
        {
          HasFileAppended(files, proto, n);
        }
      } else {
        built := built[..checkpoint];
        assert built == files;
      }
    }

    /** The files that are imported are loaded while the importing one is pending. */
    method LoadDependencies(proto: Proto)
      requires Valid() && proto.name in db && db[proto.name] == proto
      requires proto.name !in pending && Chain(db, pending + [proto.name])
      modifies this
      ensures Valid() && pending == old(pending) && old(knownBad) <= knownBad
      ensures Grows(old(built), built, pending + [proto.name])
      ensures OnlyCycles(old(knownBad), pending + [proto.name]) && (old(BadIsNotBuilt()) ==> BadIsNotBuilt())
      ensures AllLink() && old(OnlyBadIsKnownBad()) ==>
        OnlyBadIsKnownBad() && (Good(db, proto.name) ==> AllBuilt(built, proto.deps, |proto.deps|))
      decreases Rest(), 0
    {
      if Good(db, proto.name) {
        DepsAreGood(db, proto.name);
      }
      ghost var before := Rest();
      pending := pending + [proto.name];
      assert proto.name in before && proto.name !in Rest();
      for i := 0 to |proto.deps|
        invariant Valid() && pending == old(pending) + [proto.name] && old(knownBad) <= knownBad
        invariant Grows(old(built), built, pending)
        invariant OnlyCycles(old(knownBad), pending) && (old(BadIsNotBuilt()) ==> BadIsNotBuilt())
        invariant AllLink() && old(OnlyBadIsKnownBad()) ==>
          OnlyBadIsKnownBad() && (Good(db, proto.name) ==> AllBuilt(built, proto.deps, i))
      {
        if !FindFile(proto.deps[i]) {
          ChainExtends(db, old(pending), proto.name, proto.deps[i]);
          ghost var files := built;
          var _ := TryFindFileInFallbackDatabase(proto.deps[i]);
          GrowsMore(old(built), files, built, pending);
          AllBuiltMore(files, built, proto.deps, i);
        }
      }
      pending := pending[..|pending| - 1];
    }

    /** The checks of one file against what was built before it; what it adds is rolled
        back by the caller if they fail. */
    method BuildFileImpl(proto: Proto) returns (ok: bool)
      modifies this`built
      ensures built == old(built) || built == old(built) + [proto]
      ensures ok ==> built == old(built) + [proto]
      ensures ok <==>
        && '\0' !in proto.name && !HasFile(old(built), proto.name)
        && NoneTwice(proto.deps) && AllBuilt(old(built), proto.deps, |proto.deps|)
        && links(proto, old(built) + [proto])
      ensures ok ==> forall i, j :: 0 <= i < j < |proto.deps| ==> proto.deps[i] != proto.deps[j]
    {
      if '\0' in proto.name {
        return false;
      }
      if FindFile(proto.name) {
        return false;
      }
      built := built + [proto];
      var seen: set<string> := {};
      var hadErrors := false;
      for i := 0 to |proto.deps|
        invariant built == old(built) + [proto]
        invariant forall n :: n in seen <==> n in proto.deps[..i]
        invariant !hadErrors <==> NoneTwice(proto.deps[..i]) && AllBuilt(old(built), proto.deps, i)
        invariant proto.name !in proto.deps[..i]
      {
        if proto.deps[i] in seen {
          hadErrors := true;
        }
        seen := seen + {proto.deps[i]};
        if proto.deps[i] == proto.name {
          return false;
        }
        if !FindFile(proto.deps[i]) {
          hadErrors := true;
        }
        HasFileAppended(old(built), proto, proto.deps[i]);
        NoneTwiceSoFar(proto.deps, i);
      }
      assert proto.deps[..|proto.deps|] == proto.deps;
      return !hadErrors && links(proto, built);
    }

    /** A file is found if and only if it can be built, unless some file has other errors;
        in no case is a file found that cannot be built. */
    method FindFileByName(name: string) returns (found: bool)
      requires Valid() && pending == []
      modifies this
      ensures Valid() && pending == [] && old(built) <= built
      ensures found == FindFile(name) && BadIsNotBuilt()
      ensures found ==> Good(db, name)
      ensures AllLink() ==> (found <==> Good(db, name))
    {
      knownBad := {};
      found := true;
      if !FindFile(name) {
        found := TryFindFileInFallbackDatabase(name);
      }
      if found {
        var i :| 0 <= i < |built| && built[i].name == name;
        BuiltIsGood(db, built, i);
      }
    }
  }
}
