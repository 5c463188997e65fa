/** The symbol, file and extension tables of a descriptor pool, with the stack of
    checkpoints that lets a failed build be undone together with its memory. */
module PoolTables {
  import opened Common
  import opened TableArenas

  /** The position of each undo log when a checkpoint was taken. */
  datatype CheckPoint = CheckPoint(arena: nat, symbols: nat, files: nat, extensions: nat)

  type ExtensionKey = (nat, int)

  /** What the tables and the arena held at some moment. */
  datatype Snapshot<Symbol, File, Field> =
    Snapshot(symbols: map<string, Symbol>, files: map<string, File>,
             extensions: map<ExtensionKey, Field>, live: seq<Allocation>)

  /** The table without the entries logged from position n on. */
  ghost function Undo<K, V>(table: map<K, V>, log: seq<K>, n: nat): map<K, V>
    requires n <= |log|
  {
    table - set i | n <= i < |log| :: log[i]
  }

  /** A key logged on its first insertion leaves no trace once undone. */
  lemma InsertIsUndone<K, V>(table: map<K, V>, log: seq<K>, k: K, v: V, n: nat)
    requires n <= |log| && k !in table
    ensures Undo(table[k := v], log + [k], n) == Undo(table, log, n)
  {
    assert (log + [k])[|log|] == k;
    var before := set i | n <= i < |log| :: log[i];
    var after := set i | n <= i < |log + [k]| :: (log + [k])[i];
    forall x
      ensures x in after <==> x in before || x == k
    {
      if x in before {
        var i :| n <= i < |log| && log[i] == x;
        assert (log + [k])[i] == x;
      }
    }
  }

  /** Undoing down to n and then to an older position m is undoing to m. */
  lemma UndoTwice<K, V>(table: map<K, V>, log: seq<K>, n: nat, m: nat)
    requires m <= n <= |log|
    ensures Undo(Undo(table, log, n), log[..n], m) == Undo(table, log, m)
  {
    var late := set i | n <= i < |log| :: log[i];
    var early := set i | m <= i < n :: log[..n][i];
    var both := set i | m <= i < |log| :: log[i];
    forall x
      ensures x in both <==> x in late || x in early
    {
      if x in both {
        var i :| m <= i < |log| && log[i] == x;
        if i < n {
          assert log[..n][i] == x;
        }
      }
      if x in early {
        var i :| m <= i < n && log[..n][i] == x;
        assert log[i] == x;
      }
    }
  }

  /** The erase loops of RollbackToLastCheckpoint. */
  method EraseFrom<K(==), V>(table: map<K, V>, log: seq<K>, n: nat) returns (r: map<K, V>)
    requires n <= |log|
    ensures r == Undo(table, log, n)
  {
    r := table;
    var i := n;
    while i < |log|
      invariant n <= i <= |log|
      invariant r == table - set j | n <= j < i :: log[j]
    {
      r := r - {log[i]};
      i := i + 1;
    }
  }

  class Tables<Symbol, File, Field> {
    const arena: TableArena

    var symbolsByName: map<string, Symbol>
    var filesByName: map<string, File>
    var extensions: map<ExtensionKey, Field>

    var checkpoints: seq<CheckPoint>
    var symbolsAfter: seq<string>
    var filesAfter: seq<string>
    var extensionsAfter: seq<ExtensionKey>

    /** What the tables held when each checkpoint of the stack was taken. */
    ghost var saved: seq<Snapshot<Symbol, File, Field>>

    ghost function Now(): Snapshot<Symbol, File, Field>
      reads this, arena
    {
      Snapshot(symbolsByName, filesByName, extensions, arena.live)
    }

    /** Undoing everything logged after a checkpoint gives back its snapshot. */
    ghost predicate Restorable(c: CheckPoint, s: Snapshot<Symbol, File, Field>)
      reads this, arena
    {
      && c.symbols <= |symbolsAfter| && Undo(symbolsByName, symbolsAfter, c.symbols) == s.symbols
      && c.files <= |filesAfter| && Undo(filesByName, filesAfter, c.files) == s.files
      && c.extensions <= |extensionsAfter| && Undo(extensions, extensionsAfter, c.extensions) == s.extensions
      && arena.base <= c.arena <= |arena.live| && arena.live[..c.arena] == s.live
    }

    ghost predicate Below(c: CheckPoint, d: CheckPoint) {
      c.symbols <= d.symbols && c.files <= d.files && c.extensions <= d.extensions && c.arena <= d.arena
    }

    ghost predicate Valid()
      reads this, arena
    {
      && arena.Valid()
      && |saved| == |checkpoints|
      && (forall i :: 0 <= i < |checkpoints| ==> Restorable(checkpoints[i], saved[i]))
      && (forall i, j :: 0 <= i <= j < |checkpoints| ==> Below(checkpoints[i], checkpoints[j]))
    }

    constructor (sizes: seq<nat>)
      requires KnownSizes(sizes)
      ensures Valid() && checkpoints == [] && fresh(arena)
      ensures Now() == Snapshot(map[], map[], map[], [])
    {
      arena := new TableArena(sizes);
      symbolsByName, filesByName, extensions := map[], map[], map[];
      checkpoints, symbolsAfter, filesAfter, extensionsAfter := [], [], [], [];
      saved := [];
    }

    method AddCheckpoint()
      requires Valid()
      modifies this`checkpoints, this`saved
      ensures Valid() && saved == old(saved) + [Now()]
    {
      var c := CheckPoint(arena.numAllocations, |symbolsAfter|, |filesAfter|, |extensionsAfter|);
      assert arena.live[..|arena.live|] == arena.live;
      checkpoints := checkpoints + [c];
      saved := saved + [Now()];
    }

    /** Drops the checkpoint; the undo data goes only with the last one. */
    method ClearLastCheckpoint()
      requires Valid() && checkpoints != []
      modifies this, arena`rollbackInfo, arena`base
      ensures Valid() && Now() == old(Now()) && saved == old(saved)[..old(|saved|) - 1]
      ensures checkpoints == old(checkpoints)[..old(|checkpoints|) - 1]
      ensures if checkpoints == []
              then symbolsAfter == [] && filesAfter == [] && extensionsAfter == [] && arena.rollbackInfo == []
              else && symbolsAfter == old(symbolsAfter) && filesAfter == old(filesAfter)
                   && extensionsAfter == old(extensionsAfter) && arena.rollbackInfo == old(arena.rollbackInfo)
    {
      checkpoints := checkpoints[..|checkpoints| - 1];
      saved := saved[..|saved| - 1];
      if checkpoints == [] {
        symbolsAfter, filesAfter, extensionsAfter := [], [], [];
        arena.ClearRollbackData();
      }
    }

    /** Everything is as it was when the matching AddCheckpoint ran, whatever was
        added since, under inner checkpoints cleared in the meantime or not. */
    method RollbackToLastCheckpoint() returns (undone: seq<Allocation>)
      requires Valid() && checkpoints != []
      modifies this, arena
      ensures Valid()
      ensures Now() == old(saved)[old(|saved|) - 1]
      ensures saved == old(saved)[..old(|saved|) - 1]
      ensures undone == Reversed(old(arena.live)[|arena.live|..])
    {
      var n := |checkpoints| - 1;
      var c := checkpoints[n];
      ghost var outer := checkpoints[..n];
      ghost var targets := saved[..n];
      assert Restorable(c, saved[n]);
      OuterStayRestorable(outer, targets, c);
      EraseAfter(c);
      undone := arena.RollbackTo(c.arena);
      checkpoints := checkpoints[..n];
      saved := saved[..n];
      forall i | 0 <= i < |checkpoints|
        ensures Restorable(checkpoints[i], saved[i])
      {
        assert OuterRestorable(outer[i], targets[i], c, old(Now()), old(symbolsAfter), old(filesAfter),
                               old(extensionsAfter), old(arena.base));
      }
    }

    method EraseAfter(c: CheckPoint)
      requires c.symbols <= |symbolsAfter| && c.files <= |filesAfter| && c.extensions <= |extensionsAfter|
      modifies this`symbolsByName, this`filesByName, this`extensions
      modifies this`symbolsAfter, this`filesAfter, this`extensionsAfter
      ensures symbolsByName == Undo(old(symbolsByName), old(symbolsAfter), c.symbols)
      ensures filesByName == Undo(old(filesByName), old(filesAfter), c.files)
      ensures extensions == Undo(old(extensions), old(extensionsAfter), c.extensions)
      ensures symbolsAfter == old(symbolsAfter)[..c.symbols]
      ensures filesAfter == old(filesAfter)[..c.files]
      ensures extensionsAfter == old(extensionsAfter)[..c.extensions]
    {
      symbolsByName := EraseFrom(symbolsByName, symbolsAfter, c.symbols);
      filesByName := EraseFrom(filesByName, filesAfter, c.files);
      extensions := EraseFrom(extensions, extensionsAfter, c.extensions);
      symbolsAfter := symbolsAfter[..c.symbols];
      filesAfter := filesAfter[..c.files];
      extensionsAfter := extensionsAfter[..c.extensions];
    }

    /** An older checkpoint is still restorable once everything after c is undone. */
    static ghost predicate OuterRestorable(o: CheckPoint, s: Snapshot<Symbol, File, Field>, c: CheckPoint,
                                           now: Snapshot<Symbol, File, Field>, symbolLog: seq<string>,
                                           fileLog: seq<string>, extensionLog: seq<ExtensionKey>, base: nat)
    {
      && o.symbols <= c.symbols <= |symbolLog|
      && Undo(Undo(now.symbols, symbolLog, c.symbols), symbolLog[..c.symbols], o.symbols) == s.symbols
      && o.files <= c.files <= |fileLog|
      && Undo(Undo(now.files, fileLog, c.files), fileLog[..c.files], o.files) == s.files
      && o.extensions <= c.extensions <= |extensionLog|
      && Undo(Undo(now.extensions, extensionLog, c.extensions), extensionLog[..c.extensions], o.extensions)
         == s.extensions
      && base <= o.arena <= c.arena <= |now.live|
      && now.live[..c.arena][..o.arena] == s.live
    }

    lemma OuterStayRestorable(outer: seq<CheckPoint>, targets: seq<Snapshot<Symbol, File, Field>>, c: CheckPoint)
      requires c.symbols <= |symbolsAfter| && c.files <= |filesAfter| && c.extensions <= |extensionsAfter|
      requires c.arena <= |arena.live|
      requires |outer| == |targets|
      requires forall i :: 0 <= i < |outer| ==> Restorable(outer[i], targets[i]) && Below(outer[i], c)
      ensures forall i :: 0 <= i < |outer| ==>
                OuterRestorable(outer[i], targets[i], c, Now(), symbolsAfter, filesAfter, extensionsAfter, arena.base)
    {
      forall i | 0 <= i < |outer|
        ensures OuterRestorable(outer[i], targets[i], c, Now(), symbolsAfter, filesAfter, extensionsAfter, arena.base)
      {
        var o := outer[i];
        assert Restorable(o, targets[i]) && Below(o, c);
        UndoTwice(symbolsByName, symbolsAfter, c.symbols, o.symbols);
        UndoTwice(filesByName, filesAfter, c.files, o.files);
        UndoTwice(extensions, extensionsAfter, c.extensions, o.extensions);
        assert arena.live[..c.arena][..o.arena] == arena.live[..o.arena];
      }
    }

    method AddSymbol(name: string, symbol: Symbol) returns (added: bool)
      requires Valid()
      modifies this`symbolsByName, this`symbolsAfter
      ensures Valid()
      ensures added <==> name !in old(symbolsByName)
      ensures symbolsByName == if added then old(symbolsByName)[name := symbol] else old(symbolsByName)
    {
      added := name !in symbolsByName;
      if added {
        symbolsByName := symbolsByName[name := symbol];
        symbolsAfter := symbolsAfter + [name];
        forall i | 0 <= i < |checkpoints|
          ensures Restorable(checkpoints[i], saved[i])
        {
          assert old(Restorable(checkpoints[i], saved[i]));
          InsertIsUndone(old(symbolsByName), old(symbolsAfter), name, symbol, checkpoints[i].symbols);
        }
      }
    }

    method AddFile(name: string, file: File) returns (added: bool)
      requires Valid()
      modifies this`filesByName, this`filesAfter
      ensures Valid()
      ensures added <==> name !in old(filesByName)
      ensures filesByName == if added then old(filesByName)[name := file] else old(filesByName)
    {
      added := name !in filesByName;
      if added {
        filesByName := filesByName[name := file];
        filesAfter := filesAfter + [name];
        forall i | 0 <= i < |checkpoints|
          ensures Restorable(checkpoints[i], saved[i])
        {
          assert old(Restorable(checkpoints[i], saved[i]));
          InsertIsUndone(old(filesByName), old(filesAfter), name, file, checkpoints[i].files);
        }
      }
    }

    method AddExtension(key: ExtensionKey, field: Field) returns (added: bool)
      requires Valid()
      modifies this`extensions, this`extensionsAfter
      ensures Valid()
      ensures added <==> key !in old(extensions)
      ensures extensions == if added then old(extensions)[key := field] else old(extensions)
    {
      added := key !in extensions;
      if added {
        extensions := extensions[key := field];
        extensionsAfter := extensionsAfter + [key];
        forall i | 0 <= i < |checkpoints|
          ensures Restorable(checkpoints[i], saved[i])
        {
          assert old(Restorable(checkpoints[i], saved[i]));
          InsertIsUndone(old(extensions), old(extensionsAfter), key, field, checkpoints[i].extensions);
        }
      }
    }

    /** AllocateBytes: no memory for size 0, otherwise memory from the arena. */
    method AllocateBytes(size: nat, page: Addr, mem: seq<Tag>) returns (p: seq<Allocation>)
      requires Valid()
      requires page != NULL && page !in arena.heap && |mem| == BLOCK_CAPACITY
      modifies arena
      ensures Valid() && |p| == (if size == 0 then 0 else 1)
      ensures Now() == old(Now()).(live := old(arena.live) + p)
      ensures 0 < size <= 239 * 8 ==>
                p[0].tag >= FIRST_RAW_TAG && size <= TagSize(arena.sizes, p[0].tag) < size + 8
      ensures size > 239 * 8 ==> p[0].tag == 0
    {
      p := [];
      if size > 0 {
        var a, outOfLine := arena.AllocateMemory(size, page, mem);
        p := [a];
        forall i | 0 <= i < |checkpoints|
          ensures Restorable(checkpoints[i], saved[i])
        {
          assert old(Restorable(checkpoints[i], saved[i]));
          assert arena.live[..checkpoints[i].arena] == old(arena.live)[..checkpoints[i].arena];
        }
      }
    }
  }
}
