/** The map from names to byte strings that a disk holds, and how much room is left on the disk and in
    the directory, computed from the map alone. */
module FileMaps {
  import opened Words
  import opened Memory
  import opened BitMaps
  import opened Storage
  import opened OpenFiles
  import opened FileHeaders
  import opened Directories
  import opened FileSystems
  import opened FileSystemSteps

  type FileMap = map<seq<Byte>, seq<Byte>>

  /** The disk holds exactly the files of the map, whose names are cut off at nine characters. */
  ghost predicate Holds(d: Disk, m: FileMap) {
    && Consistent(d)
    && (forall k :: k in m ==> Key(k) == k)
    && forall name :: Contents(d, name) == if Key(name) in m then Bytes(m[Key(name)]) else Absent
  }

  lemma LookupAndMap(d: Disk, m: FileMap, name: seq<Byte>)
    requires Holds(d, m)
    ensures Lookup(Root(d), name) >= 2 <==> Key(name) in m
    ensures Key(name) in m ==> Contents(d, name) == Bytes(m[Key(name)])
  {
    assert Contents(d, name) == if Key(name) in m then Bytes(m[Key(name)]) else Absent;
  }

  lemma KeyOfKey(name: seq<Byte>)
    ensures Key(Key(name)) == Key(name)
  {
    PaddedTwice([], name, 0, NAME_MAX, []);
    assert [] + Key(name) + [] == Key(name);
  }

  // ---- The sectors that a map needs ----

  /** The header sector and the data sectors of a file. */
  function FileCost(size: nat): nat { 1 + DivRoundUp(size, SECTOR_SIZE) }

  ghost function Used(m: FileMap): nat {
    if m == map[] then 0
    else
      var k :| k in m;
      FileCost(|m[k]|) + Used(m - {k})
  }

  lemma {:induction false} UsedWithout(m: FileMap, k: seq<Byte>)
    requires k in m
    ensures Used(m) == FileCost(|m[k]|) + Used(m - {k})
  {
    hide FileCost;
    var j :| j in m && Used(m) == FileCost(|m[j]|) + Used(m - {j});
    if j != k {
      UsedWithout(m - {j}, k);
      UsedWithout(m - {k}, j);
      assert m - {j} - {k} == m - {k} - {j};
    }
  }

  lemma UsedWith(m: FileMap, k: seq<Byte>, bytes: seq<Byte>)
    requires k !in m
    ensures Used(m[k := bytes]) == FileCost(|bytes|) + Used(m) && |m[k := bytes]| == |m| + 1
  {
    UsedWithout(m[k := bytes], k);
    assert m[k := bytes] - {k} == m;
  }

  // ---- The sectors that are owned ----

  function Total(files: seq<seq<nat>>): nat {
    if files == [] then 0 else Total(files[..|files| - 1]) + |files[|files| - 1]|
  }

  lemma {:induction false} ClearAllCounts(bits: seq<bool>, sectors: seq<nat>)
    requires Distinct(sectors) && AllMarked(bits, sectors) && Below(sectors, |bits|)
    ensures CountClear(ClearAll(bits, sectors)) == CountClear(bits) + |sectors|
  {
    if sectors != [] {
      var n := |sectors| - 1;
      ClearAllCounts(bits, sectors[..n]);
      ClearAllAt(bits, sectors[..n], sectors[n]);
      CountClearUpdate(ClearAll(bits, sectors[..n]), sectors[n], false);
    }
  }

  lemma OwnsDropEmpty(bits: seq<bool>, lay: Layout, n: nat)
    requires Owns(bits, lay) && |lay.files| == n + 1 && lay.files[n] == []
    ensures Owns(bits, Layout(lay.system, lay.files[..n]))
  {
    var files := lay.files[..n];
    forall s: nat ensures InSome(files, s) <==> InSome(lay.files, s) {
      if i :| 0 <= i < |lay.files| && s in lay.files[i] { assert s in files[i]; }
      if i :| 0 <= i < |files| && s in files[i] { assert s in lay.files[i]; }
    }
    hide InSome;
  }

  lemma OwnsWithoutLast(bits: seq<bool>, lay: Layout, n: nat)
    requires Owns(bits, lay) && |lay.files| == n + 1
    ensures Below(lay.files[n], |bits|) && AllMarked(bits, lay.files[n]) && Distinct(lay.files[n])
    ensures Owns(ClearAll(bits, lay.files[n]), Layout(lay.system, lay.files[..n]))
  {
    forall k | 0 <= k < |lay.files[n]| ensures lay.files[n][k] < |bits| && bits[lay.files[n][k]] {
      OwnedSector(bits, lay, n, lay.files[n][k]);
    }
    var after := ClearAll(bits, lay.files[n]);
    forall s: nat | s < |bits| ensures after[s] <==> bits[s] && s !in lay.files[n] {
      ClearAllAt(bits, lay.files[n], s);
    }
    OwnsRemove(bits, lay, n, after);
    var without := lay.(files := lay.files[n := []]);
    OwnsDropEmpty(after, without, n);
    assert without.files[..n] == lay.files[..n];
    hide Owns, ClearAll;
  }

  /** Every sector is clear, or the system's, or a file's. */
  lemma {:induction false} OwnedSectorsCount(bits: seq<bool>, lay: Layout)
    requires Owns(bits, lay)
    ensures CountClear(bits) + |lay.system| + Total(lay.files) == |bits|
    decreases |lay.files|
  {
    if lay.files == [] {
      assert AllMarked(bits, lay.system);
      ClearAllCounts(bits, lay.system);
      var none := ClearAll(bits, lay.system);
      forall s: nat | s < |bits| ensures !none[s] { ClearAllAt(bits, lay.system, s); }
      AllClear(none);
    } else {
      var n := |lay.files| - 1;
      OwnsWithoutLast(bits, lay, n);
      OwnedSectorsCount(ClearAll(bits, lay.files[n]), Layout(lay.system, lay.files[..n]));
      ClearAllCounts(bits, lay.files[n]);
    }
  }

  // ---- The map of a disk ----

  /** The files of the first n directory entries. */
  ghost function EntriesMap(d: Disk, n: nat): FileMap
    requires Consistent(d) && n <= NUM_DIR_ENTRIES
  {
    if n == 0 then map[]
    else if IsFile(Root(d), n - 1) then EntriesMap(d, n - 1)[KeyOf(Root(d)[n - 1]) := EntryBytes(d, n - 1)]
    else EntriesMap(d, n - 1)
  }

  ghost function EntryBytes(d: Disk, i: nat): seq<Byte>
    requires Consistent(d) && IsFile(Root(d), i)
  {
    assert SoundEntry(d, Root(d), i);
    FileBytes(d, MetaAt(d, Root(d)[i].sector))
  }

  lemma {:induction false} EntriesMapAt(d: Disk, n: nat, k: seq<Byte>)
    requires Consistent(d) && n <= NUM_DIR_ENTRIES
    ensures k in EntriesMap(d, n) <==> exists i :: 0 <= i < n && IsFile(Root(d), i) && KeyOf(Root(d)[i]) == k
    ensures forall i :: 0 <= i < n && IsFile(Root(d), i) && KeyOf(Root(d)[i]) == k ==>
      k in EntriesMap(d, n) && EntriesMap(d, n)[k] == EntryBytes(d, i)
  {
    hide Consistent, Mountable, Root, EntryBytes, KeyOf, InUse;
    ConsistentFacts(d);
    if n > 0 {
      EntriesMapAt(d, n - 1, k);
      if k in EntriesMap(d, n) && !(IsFile(Root(d), n - 1) && KeyOf(Root(d)[n - 1]) == k) {
        assert k in EntriesMap(d, n - 1);
      }
    }
  }

  /** How many of the first n entries are files. */
  function FilesIn(t: Table, n: nat): nat
    requires n <= |t|
  {
    if n == 0 then 0 else FilesIn(t, n - 1) + if IsFile(t, n - 1) then 1 else 0
  }

  lemma {:induction false} FilesInBound(t: Table, n: nat)
    requires 2 <= n <= |t|
    ensures FilesIn(t, n) <= n - 2
    ensures FilesIn(t, n) == n - 2 <==> forall i :: 2 <= i < n ==> InUse(t[i])
  {
    if n == 2 {
      assert FilesIn(t, 1) == 0;
    } else {
      FilesInBound(t, n - 1);
    }
  }

  lemma EntrySize(d: Disk, i: nat)
    requires Consistent(d) && IsFile(Root(d), i)
    ensures FileCost(|EntryBytes(d, i)|) == |FileSectors(d, Root(d)[i].sector)|
  {
    assert SoundEntry(d, Root(d), i);
  }

  lemma {:induction false} EntriesMapSize(d: Disk, n: nat)
    requires Consistent(d) && n <= NUM_DIR_ENTRIES
    ensures |EntriesMap(d, n)| == FilesIn(Root(d), n)
    ensures |LayoutOf(d).files| == NUM_DIR_ENTRIES && Used(EntriesMap(d, n)) == Total(LayoutOf(d).files[..n])
  {
    if n > 0 {
      hide FileCost, FileSectors, EntryBytes;
      EntriesMapSize(d, n - 1);
      LayoutAt(d, n - 1);
      assert LayoutOf(d).files[..n][..n - 1] == LayoutOf(d).files[..n - 1];
      if IsFile(Root(d), n - 1) {
        var k := KeyOf(Root(d)[n - 1]);
        EntriesMapAt(d, n - 1, k);
        assert DistinctKeys(Root(d));
        assert k !in EntriesMap(d, n - 1);
        UsedWith(EntriesMap(d, n - 1), k, EntryBytes(d, n - 1));
        EntrySize(d, n - 1);
      }
    }
    hide Consistent, Root, EntryBytes, KeyOf, FileSectors;
  }

  lemma HeldEntry(d: Disk, m: FileMap, i: nat)
    requires Holds(d, m) && IsFile(Root(d), i)
    ensures KeyOf(Root(d)[i]) in m && m[KeyOf(Root(d)[i])] == EntryBytes(d, i)
  {
    LookupUnique(Root(d), Root(d)[i].name, i);
    LookupAndMap(d, m, Root(d)[i].name);
    hide DistinctKeys, Lookup, Owns, FileBytes;
  }

  lemma HeldKey(d: Disk, m: FileMap, k: seq<Byte>)
    requires Holds(d, m) && k in m
    ensures exists i :: 0 <= i < NUM_DIR_ENTRIES && IsFile(Root(d), i) && KeyOf(Root(d)[i]) == k
  {
    LookupAndMap(d, m, k);
    var i := Lookup(Root(d), k);
    assert IsFile(Root(d), i) && KeyOf(Root(d)[i]) == k;
  }

  /** The map that a disk holds is that of its directory. */
  lemma HeldMap(d: Disk, m: FileMap)
    requires Holds(d, m)
    ensures Consistent(d) && m == EntriesMap(d, NUM_DIR_ENTRIES)
  {
    hide Consistent, EntriesMap, Mountable, Root, Owns, EntryBytes, KeyOf, Contents;
    ConsistentFacts(d);
    var all := EntriesMap(d, NUM_DIR_ENTRIES);
    forall k ensures k in m <==> k in all
      ensures k in m ==> m[k] == all[k] {
      EntriesMapAt(d, NUM_DIR_ENTRIES, k);
      if k in m { HeldKey(d, m, k); }
      forall i | 0 <= i < NUM_DIR_ENTRIES && IsFile(Root(d), i) && KeyOf(Root(d)[i]) == k
        ensures k in m && m[k] == EntryBytes(d, i) {
        HeldEntry(d, m, i);
      }
    }
  }

  lemma SystemSectorCount(d: Disk)
    requires Mountable(d)
    ensures |SystemSectors(d)| == 5
  {}

  /** What is free on the disk follows from the map: everything but the five sectors of the system and
      one header and the data sectors of each file. */
  lemma FreeSpace(d: Disk, m: FileMap)
    requires Holds(d, m)
    ensures Consistent(d) && CountClear(FreeBits(d)) == NUM_SECTORS - 5 - Used(m)
  {
    hide *;
    HeldMap(d, m);
    ConsistentFacts(d);
    EntriesMapSize(d, NUM_DIR_ENTRIES);
    SystemSectorCount(d);
    OwnedSectorsCount(FreeBits(d), LayoutOf(d));
    assert LayoutOf(d).files[..NUM_DIR_ENTRIES] == LayoutOf(d).files;
  }

  /** So do the free directory entries. */
  lemma FreeEntries(d: Disk, m: FileMap)
    requires Holds(d, m)
    ensures Consistent(d) && (FreeSlot(Root(d)) != -1 <==> |m| < NUM_DIR_ENTRIES - 2)
  {
    hide Holds, Consistent, Mountable, Root, EntriesMap, FilesIn, LayoutOf, FreeSlot;
    HeldMap(d, m);
    ConsistentFacts(d);
    EntriesMapSize(d, NUM_DIR_ENTRIES);
    FilesInBound(Root(d), NUM_DIR_ENTRIES);
  }

  /** There is room for a new file with this name and size. */
  ghost predicate CanAdd(m: FileMap, name: seq<Byte>, size: nat) {
    && OrdinaryName(name) && Key(name) !in m
    && |m| < NUM_DIR_ENTRIES - 2
    && Used(m) + FileCost(size) <= NUM_SECTORS - 5
  }

  /** The map alone decides whether a file can be created. */
  lemma CanCreateOnMap(d: Disk, m: FileMap, name: seq<Byte>, size: nat)
    requires Holds(d, m)
    ensures CanCreate(FreeBits(d), Root(d), name, size) <==> CanAdd(m, name, size)
  {
    FreeSpace(d, m);
    FreeEntries(d, m);
    OrdinaryLookup(d, name);
    LookupAndMap(d, m, name);
    hide Mountable, Holds, Consistent, Lookup, FreeSlot, CountClear, FreeBits, Root, Used, DivRoundUp, Key;
  }

  // ---- What the operations do to the map ----

  lemma CreateOnMap(d: Disk, e: Disk, m: FileMap, name: seq<Byte>, size: nat) returns (n: FileMap)
    requires Holds(d, m) && CanCreate(FreeBits(d), Root(d), name, size) && Created(d, e, name, size)
    ensures Holds(e, n) && Key(name) in n && |n[Key(name)]| == size && n == m[Key(name) := n[Key(name)]]
  {
    hide Consistent, Created, Contents, Lookup, CountClear, DivRoundUp, FreeBits, Root, Key;
    LookupAndMap(d, m, name);
    CreateRefinesMap(d, e, name, size, name);
    n := m[Key(name) := Contents(e, name).bytes];
    KeyOfKey(name);
    forall other ensures Contents(e, other) == if Key(other) in n then Bytes(n[Key(other)]) else Absent {
      CreateRefinesMap(d, e, name, size, other);
      LookupAndMap(d, m, other);
      if Key(other) == Key(name) { SameKey(e, other, name); }
    }
  }

  lemma RemoveOnMap(d: Disk, e: Disk, m: FileMap, name: seq<Byte>) returns (n: FileMap)
    requires Holds(d, m) && Lookup(Root(d), name) >= 2 && Removed(d, e, name)
    ensures Holds(e, n) && n == m - {Key(name)}
  {
    hide Consistent, Removed, Contents, Lookup, Root;
    n := m - {Key(name)};
    RemoveRefinesMap(d, e, name, name);
    forall other ensures Contents(e, other) == if Key(other) in n then Bytes(n[Key(other)]) else Absent {
      RemoveRefinesMap(d, e, name, other);
      LookupAndMap(d, m, other);
    }
  }

  lemma WriteOnMap(d: Disk, e: Disk, m: FileMap, name: seq<Byte>, position: nat, data: seq<Byte>) returns (n: FileMap)
    requires Holds(d, m) && Lookup(Root(d), name) >= 2 && Written(d, e, Lookup(Root(d), name), position, data)
    ensures Holds(e, n) && Key(name) in m && n == m[Key(name) := Splice(m[Key(name)], position, data)]
  {
    hide Consistent, Written, Contents, Lookup, Root, Splice;
    LookupAndMap(d, m, name);
    n := m[Key(name) := Splice(m[Key(name)], position, data)];
    WriteRefinesMap(d, e, name, position, data, name);
    forall other ensures Contents(e, other) == if Key(other) in n then Bytes(n[Key(other)]) else Absent {
      WriteRefinesMap(d, e, name, position, data, other);
      LookupAndMap(d, m, other);
    }
  }

  lemma HeldIsMountable(d: Disk, m: FileMap)
    requires Holds(d, m)
    ensures Consistent(d) && Mountable(d)
  {}

  /** A freshly formatted disk: consistent, and without files. */
  ghost predicate Formatted(d: Disk) {
    Consistent(d) && forall i :: IsFile(Root(d), i) ==> false
  }

  lemma FormattedHoldsNothing(d: Disk)
    requires Formatted(d)
    ensures Holds(d, map[])
  {
    forall name ensures Contents(d, name) == Absent {
      var i := Lookup(Root(d), name);
      if i >= 2 { assert IsFile(Root(d), i); }
    }
  }
}
