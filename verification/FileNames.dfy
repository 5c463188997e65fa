/** The file names of the encoded index: an ordered set for new names and a sorted vector
    it is merged into. */
module FileNames {
  import opened Common
  import opened SymbolNames

  datatype FileEntry = FileEntry(offset: nat, name: string)

  ghost predicate InOrder(entries: seq<FileEntry>) {
    forall i, j {:trigger entries[i], entries[j]} :: 0 <= i < j < |entries| ==>
      !Less(entries[j].name, entries[i].name)
  }

  predicate Has(entries: seq<FileEntry>, name: string) {
    exists i :: 0 <= i < |entries| && entries[i].name == name
  }

  /** The first entry with the name. */
  function Find(entries: seq<FileEntry>, name: string): (r: Option<nat>)
    ensures r.None? <==> !Has(entries, name)
  {
    if entries == [] then None
    else if entries[0].name == name then Some(entries[0].offset)
    else
      assert forall i :: 1 <= i < |entries| ==> entries[i] == entries[1..][i - 1];
      Find(entries[1..], name)
  }

  /** std::lower_bound: the first entry that is not before the name. */
  function LowerBound(entries: seq<FileEntry>, name: string): (i: nat)
    ensures i <= |entries|
    ensures forall j :: 0 <= j < i ==> Less(entries[j].name, name)
    ensures i < |entries| ==> !Less(entries[i].name, name)
  {
    if entries == [] || !Less(entries[0].name, name) then 0 else 1 + LowerBound(entries[1..], name)
  }

  lemma {:induction false} FindSkips(entries: seq<FileEntry>, name: string, i: nat)
    requires i <= |entries| && forall j :: 0 <= j < i ==> entries[j].name != name
    ensures Find(entries, name) == Find(entries[i..], name)
  {
    if i == 0 {
      assert entries[0..] == entries;
    } else {
      FindSkips(entries[1..], name, i - 1);
      assert entries[1..][i - 1..] == entries[i..];
    }
  }

  /** In an ordered vector the search finds the first entry with the name. */
  lemma LowerBoundFinds(entries: seq<FileEntry>, name: string)
    requires InOrder(entries)
    ensures
      && var i := LowerBound(entries, name);
      && Find(entries, name) ==
        if i < |entries| && entries[i].name == name then Some(entries[i].offset) else None
  {
    var i := LowerBound(entries, name);
    LessIrreflexive(name);
    FindSkips(entries, name, i);
    if i < |entries| && entries[i].name != name {
      LessTotal(entries[i].name, name);
      forall j | i <= j < |entries|
        ensures entries[j].name != name
      {
        if j > i {
          assert !Less(entries[j].name, entries[i].name);
        }
      }
    }
  }

  /** Where a new name goes: in front of the first name after it. */
  function Position(entries: seq<FileEntry>, name: string): (u: nat)
    ensures u <= |entries|
    ensures forall i :: 0 <= i < u ==> !Less(name, entries[i].name)
    ensures u < |entries| ==> Less(name, entries[u].name)
  {
    if entries == [] || Less(name, entries[0].name) then 0 else 1 + Position(entries[1..], name)
  }

  /** InsertIfNotPresent into the ordered set. */
  function WithName(entries: seq<FileEntry>, entry: FileEntry): seq<FileEntry> {
    if Has(entries, entry.name) then entries
    else
      var u := Position(entries, entry.name);
      entries[..u] + [entry] + entries[u..]
  }

  lemma WithNameInOrder(entries: seq<FileEntry>, entry: FileEntry)
    requires InOrder(entries)
    ensures InOrder(WithName(entries, entry))
  {
    if !Has(entries, entry.name) {
      var u, r := Position(entries, entry.name), WithName(entries, entry);
      forall i, j | 0 <= i < j < |r|
        ensures !Less(r[j].name, r[i].name)
      {
        if i == u {
          NotBeforePosition(entries, entry.name, j - 1);
        }
      }
    }
  }

  lemma NotBeforePosition(entries: seq<FileEntry>, name: string, j: nat)
    requires InOrder(entries) && Position(entries, name) <= j < |entries|
    ensures !Less(entries[j].name, name)
  {
    var u := Position(entries, name);
    if Less(entries[j].name, name) {
      LessTransitive(entries[j].name, name, entries[u].name);
      LessIrreflexive(entries[j].name);
    }
  }

  lemma {:induction false} FindInserted(entries: seq<FileEntry>, u: nat, entry: FileEntry, name: string)
    requires u <= |entries| && !Has(entries, entry.name)
    ensures Find(entries[..u] + [entry] + entries[u..], name) ==
      if name == entry.name then Some(entry.offset) else Find(entries, name)
  {
    var r := entries[..u] + [entry] + entries[u..];
    if u == 0 {
      assert r[1..] == entries;
    } else {
      assert r[1..] == entries[1..][..u - 1] + [entry] + entries[1..][u - 1..];
      assert forall i :: 0 <= i < |entries| - 1 ==> entries[1..][i] == entries[i + 1];
      FindInserted(entries[1..], u - 1, entry, name);
    }
  }

  /** A new name is found where it was put; all other names are found as before. */
  lemma FindWithName(entries: seq<FileEntry>, entry: FileEntry, name: string)
    ensures Find(WithName(entries, entry), name) ==
      if name == entry.name && !Has(entries, name) then Some(entry.offset) else Find(entries, name)
  {
    if !Has(entries, entry.name) {
      FindInserted(entries, Position(entries, entry.name), entry, name);
    }
  }

  /** std::merge: of equal names the one of the first range comes first. */
  function MergeFiles(a: seq<FileEntry>, b: seq<FileEntry>): (r: seq<FileEntry>)
    ensures |r| == |a| + |b|
    decreases |a| + |b|
  {
    if a == [] then b
    else if b == [] then a
    else if Less(b[0].name, a[0].name) then [b[0]] + MergeFiles(a, b[1..])
    else [a[0]] + MergeFiles(a[1..], b)
  }

  /** No name of the entries is before this one. */
  ghost predicate NoneBefore(name: string, entries: seq<FileEntry>) {
    forall i {:trigger entries[i]} :: 0 <= i < |entries| ==> !Less(entries[i].name, name)
  }

  lemma {:induction false} MergeNoneBefore(name: string, a: seq<FileEntry>, b: seq<FileEntry>)
    requires NoneBefore(name, a) && NoneBefore(name, b)
    ensures NoneBefore(name, MergeFiles(a, b))
    decreases |a| + |b|
  {
    if a != [] && b != [] {
      if Less(b[0].name, a[0].name) {
        MergeNoneBefore(name, a, b[1..]);
      } else {
        MergeNoneBefore(name, a[1..], b);
      }
    }
  }

  lemma HeadIsFirst(entries: seq<FileEntry>, name: string)
    requires entries != [] && InOrder(entries) && !Less(entries[0].name, name)
    ensures NoneBefore(name, entries) && InOrder(entries[1..])
  {
    forall i | 0 <= i < |entries|
      ensures !Less(entries[i].name, name)
    {
      if Less(entries[i].name, name) {
        LessTotal(entries[i].name, entries[0].name);
        if i > 0 && Less(entries[0].name, entries[i].name) {
          LessTransitive(entries[0].name, entries[i].name, name);
        }
      }
    }
  }

  lemma ConsInOrder(entry: FileEntry, entries: seq<FileEntry>)
    requires NoneBefore(entry.name, entries) && InOrder(entries)
    ensures InOrder([entry] + entries)
  {
  }

  lemma {:induction false} MergeInOrder(a: seq<FileEntry>, b: seq<FileEntry>)
    requires InOrder(a) && InOrder(b)
    ensures InOrder(MergeFiles(a, b))
    decreases |a| + |b|
  {
    if a != [] && b != [] {
      LessIrreflexive(a[0].name);
      LessIrreflexive(b[0].name);
      if Less(b[0].name, a[0].name) {
        LessAsymmetric(b[0].name, a[0].name);
        HeadIsFirst(a, b[0].name);
        HeadIsFirst(b, b[0].name);
        MergeNoneBefore(b[0].name, a, b[1..]);
        MergeInOrder(a, b[1..]);
        ConsInOrder(b[0], MergeFiles(a, b[1..]));
      } else {
        HeadIsFirst(b, a[0].name);
        HeadIsFirst(a, a[0].name);
        MergeNoneBefore(a[0].name, a[1..], b);
        MergeInOrder(a[1..], b);
        ConsInOrder(a[0], MergeFiles(a[1..], b));
      }
    }
  }

  /** Merging prefers the set: a name in both is found as the set has it. */
  lemma {:induction false} FindMerged(a: seq<FileEntry>, b: seq<FileEntry>, name: string)
    requires InOrder(a) && InOrder(b)
    ensures Find(MergeFiles(a, b), name) == if Has(a, name) then Find(a, name) else Find(b, name)
    decreases |a| + |b|
  {
    if a != [] && b != [] {
      LessIrreflexive(name);
      LessIrreflexive(a[0].name);
      LessIrreflexive(b[0].name);
      if Less(b[0].name, a[0].name) {
        HeadIsFirst(b, b[0].name);
        FindMerged(a, b[1..], name);
        if b[0].name == name {
          LessAsymmetric(b[0].name, a[0].name);
          HeadIsFirst(a, a[0].name);
          forall i | 0 <= i < |a|
            ensures a[i].name != name
          {
          }
        }
      } else {
        HeadIsFirst(a, a[0].name);
        FindMerged(a[1..], b, name);
      }
    }
  }

  // ---------------------------------------------------------------------
  // The set and the vector together.

  /** In order, and of the first `n` values. */
  ghost predicate EntriesOk(n: nat, entries: seq<FileEntry>) {
    InOrder(entries) && forall e :: e in entries ==> e.offset < n
  }

  lemma {:induction false} FindInRange(n: nat, entries: seq<FileEntry>, name: string)
    requires EntriesOk(n, entries)
    ensures Find(entries, name).Some? ==> Find(entries, name).value < n
  {
    if entries != [] {
      FindInRange(n, entries[1..], name);
    }
  }

  lemma WithNameOk(n: nat, entries: seq<FileEntry>, entry: FileEntry)
    requires EntriesOk(n, entries) && entry.offset < n
    ensures EntriesOk(n, WithName(entries, entry))
  {
    WithNameInOrder(entries, entry);
  }

  lemma {:induction false} MergeMembers(a: seq<FileEntry>, b: seq<FileEntry>, e: FileEntry)
    ensures e in MergeFiles(a, b) ==> e in a || e in b
    decreases |a| + |b|
  {
    if a != [] && b != [] {
      if Less(b[0].name, a[0].name) {
        MergeMembers(a, b[1..], e);
      } else {
        MergeMembers(a[1..], b, e);
      }
    }
  }

  lemma MergeOk(n: nat, a: seq<FileEntry>, b: seq<FileEntry>)
    requires EntriesOk(n, a) && EntriesOk(n, b)
    ensures EntriesOk(n, MergeFiles(a, b))
  {
    MergeInOrder(a, b);
    forall e | e in MergeFiles(a, b)
      ensures e.offset < n
    {
      MergeMembers(a, b, e);
    }
  }

  /** What a lookup after the next merge finds. */
  function FindInBoth(recent: seq<FileEntry>, flat: seq<FileEntry>, name: string): Option<nat> {
    if Has(recent, name) then Find(recent, name) else Find(flat, name)
  }

  lemma FindInBothInRange(n: nat, recent: seq<FileEntry>, flat: seq<FileEntry>, name: string)
    requires EntriesOk(n, recent) && EntriesOk(n, flat)
    ensures FindInBoth(recent, flat, name).Some? ==> FindInBoth(recent, flat, name).value < n
  {
    FindInRange(n, recent, name);
    FindInRange(n, flat, name);
  }

  /** Putting a name into the set changes what is found under that name unless the set
      had it, and nothing else. */
  lemma FindInBothWithName(recent: seq<FileEntry>, flat: seq<FileEntry>, entry: FileEntry, name: string)
    ensures FindInBoth(WithName(recent, entry), flat, name) ==
      if name == entry.name && !Has(recent, name) then Some(entry.offset) else FindInBoth(recent, flat, name)
  {
    FindWithName(recent, entry, name);
  }
}
