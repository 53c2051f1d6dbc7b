/** What creating, removing and writing a file does to the disk: each keeps it consistent and changes
    what the names stand for as on a map from names to byte strings. */
module FileSystemSteps {
  import opened Words
  import opened Memory
  import opened BitMaps
  import opened Storage
  import opened OpenFiles
  import opened FileHeaders
  import opened Directories
  import opened FileSystems

  // ---- What one operation does to the disk ----

  /** The new free map and directory are on the disk; apart from their sectors and those of own
      nothing has changed. */
  ghost predicate Updated(d: Disk, e: Disk, own: seq<nat>, bits: seq<bool>, table: Table)
    requires Mountable(d)
  {
    && Mountable(e)
    && e[FREE_MAP_SECTOR] == d[FREE_MAP_SECTOR] && e[DIRECTORY_SECTOR] == d[DIRECTORY_SECTOR]
    && FreeBits(e) == bits && Root(e) == table
    && (forall s :: 0 <= s < NUM_SECTORS && s !in own && s !in MapMeta(d).data && s !in RootMeta(d).data ==>
      e[s] == d[s])
  }

  /** CreateFileInCurrentDirectory succeeds: the name is new, an entry is free, and there are clear
      sectors for the header and the data. */
  predicate CanCreate(bits: seq<bool>, t: Table, name: seq<Byte>, size: nat) {
    Lookup(t, name) == -1 && FreeSlot(t) != -1 && 1 + DivRoundUp(size, SECTOR_SIZE) <= CountClear(bits)
  }

  /** A header has room for the file's sectors; when it has not, Allocate would write past its end. */
  predicate SafeSize(bits: seq<bool>, t: Table, name: seq<Byte>, size: nat) {
    size < 0x8000_0000 && (size <= MAX_FILE_SIZE || !CanCreate(bits, t, name, size))
  }

  /** The data sectors, once the header sector is taken. */
  function NewData(bits: seq<bool>, size: nat): (a: Allocation)
    requires FirstClear(bits) != -1
    ensures |a.bits| == |bits|
  {
    TakeSectors(bits[FirstClear(bits) := true], DivRoundUp(size, SECTOR_SIZE))
  }

  lemma NewSectorsFacts(bits: seq<bool>, size: nat)
    requires 1 + DivRoundUp(size, SECTOR_SIZE) <= CountClear(bits)
    ensures FirstClear(bits) != -1
    ensures var a := NewData(bits, size); var all := [FirstClear(bits) as nat] + a.sectors;
      && |a.sectors| == DivRoundUp(size, SECTOR_SIZE)
      && Distinct(all) && Below(all, |bits|) && (forall k :: 0 <= k < |all| ==> !bits[all[k]])
      && (forall s: nat :: s < |bits| ==> (a.bits[s] <==> bits[s] || s in all))
  {
    CountClearZero(bits);
    var h := FirstClear(bits);
    CountClearUpdate(bits, h, true);
    TakeSectorsTakes(bits[h := true], DivRoundUp(size, SECTOR_SIZE));
    hide TakeSectors, CountClear, FirstClear, DivRoundUp;
    HeaderFirst(bits, h, NewData(bits, size));
  }

  /** Sectors taken after one more sector was. */
  lemma HeaderFirst(bits: seq<bool>, h: nat, a: Allocation)
    requires h < |bits| == |a.bits| && !bits[h] && Took(bits[h := true], a)
    ensures var all := [h] + a.sectors;
      && Distinct(all) && Below(all, |bits|) && (forall k :: 0 <= k < |all| ==> !bits[all[k]])
      && (forall s: nat :: s < |bits| ==> (a.bits[s] <==> bits[s] || s in all))
  {
    var all, taken := [h] + a.sectors, bits[h := true];
    forall j | 1 <= j < |all| ensures all[j] != h && all[j] < |bits| && !bits[all[j]] {
      assert all[j] == a.sectors[j - 1] && !taken[a.sectors[j - 1]];
    }
    forall i, j | 0 <= i < j < |all| ensures all[i] != all[j] {
      if i > 0 { assert a.sectors[i - 1] != a.sectors[j - 1]; }
    }
    forall s: nat | s < |bits| ensures a.bits[s] <==> bits[s] || s in all {
      assert s in all <==> s == h || s in a.sectors;
    }
  }

  ghost predicate Created(d: Disk, e: Disk, name: seq<Byte>, size: nat)
    requires Mountable(d) && CanCreate(FreeBits(d), Root(d), name, size)
  {
    NewSectorsFacts(FreeBits(d), size);
    var h := FirstClear(FreeBits(d));
    var a, slot, t := NewData(FreeBits(d), size), FreeSlot(Root(d)), Root(d);
    && Updated(d, e, [h], a.bits, t[slot := NewEntry(t[slot], name, false, h)])
    && ValidHeader(HeaderAt(e, h)) && MetaAt(e, h) == Meta(size, a.sectors)
  }

  /** The entry that is removed may be any, "." and ".." included. */
  ghost predicate Removed(d: Disk, e: Disk, name: seq<Byte>)
    requires Mountable(d) && Lookup(Root(d), name) != -1
  {
    var t, i := Root(d), Lookup(Root(d), name);
    && t[i].sector < NUM_SECTORS && Below(MetaAt(d, t[i].sector).data, NUM_SECTORS)
    && Updated(d, e, [], ClearAll(FreeBits(d), MetaAt(d, t[i].sector).data)[t[i].sector := false],
      t[i := t[i].(inUse := 0)])
  }

  /** WriteAt through the header that the disk holds for entry i. */
  ghost predicate Written(d: Disk, e: Disk, i: nat, position: nat, data: seq<Byte>)
    requires Mountable(d) && i < NUM_DIR_ENTRIES
  {
    var s := Root(d)[i].sector;
    s < NUM_SECTORS && ValidHeader(HeaderAt(d, s)) && Spliced(d, e, MetaAt(d, s), position, data)
  }

  // ---- Consistency is kept ----

  lemma ConsistentFacts(d: Disk)
    requires Consistent(d)
    ensures Mountable(d) && WellFormed(d) && DistinctKeys(Root(d)) && InUse(Root(d)[0]) && InUse(Root(d)[1])
    ensures Owns(FreeBits(d), LayoutOf(d)) && LayoutOf(d).system == SystemSectors(d)
  {
    assert SoundEntry(d, Root(d), 0) && SoundEntry(d, Root(d), 1);
  }

  lemma SoundFile(d: Disk, i: nat)
    requires Consistent(d) && IsFile(Root(d), i)
    ensures WellFormed(d) && Root(d)[i].sector < NUM_SECTORS && ValidHeader(HeaderAt(d, Root(d)[i].sector))
  {
    assert SoundEntry(d, Root(d), i);
  }

  lemma LayoutAt(d: Disk, i: nat)
    requires Mountable(d) && i < NUM_DIR_ENTRIES
    ensures |LayoutOf(d).files| == NUM_DIR_ENTRIES
    ensures LayoutOf(d).files[i] == if IsFile(Root(d), i) then FileSectors(d, Root(d)[i].sector) else []
  {}

  /** The sectors of a file are marked and are not the system's. */
  lemma FileSectorsOwned(d: Disk, i: nat, s: nat)
    requires Consistent(d) && IsFile(Root(d), i) && s in FileSectors(d, Root(d)[i].sector)
    ensures s < NUM_SECTORS && FreeBits(d)[s] && s !in SystemSectors(d)
  {
    LayoutAt(d, i);
    OwnedSector(FreeBits(d), LayoutOf(d), i, s);
  }

  lemma FilesDisjoint(d: Disk, i: nat, j: nat, s: nat)
    requires Consistent(d) && IsFile(Root(d), i) && IsFile(Root(d), j) && i != j
      && s in FileSectors(d, Root(d)[i].sector)
    ensures s !in FileSectors(d, Root(d)[j].sector)
  {
    LayoutAt(d, i);
    LayoutAt(d, j);
    OwnedSector(FreeBits(d), LayoutOf(d), i, s);
  }

  /** A file that the operation does not own keeps its header and its bytes. */
  lemma OtherFileKept(d: Disk, e: Disk, own: seq<nat>, bits: seq<bool>, table: Table, i: nat)
    requires Consistent(d) && Updated(d, e, own, bits, table) && IsFile(Root(d), i)
    requires forall s :: s in FileSectors(d, Root(d)[i].sector) ==> s !in own
    ensures forall s :: s in FileSectors(d, Root(d)[i].sector) ==> s < NUM_SECTORS && e[s] == d[s]
    ensures Root(d)[i].sector < NUM_SECTORS && HeaderAt(e, Root(d)[i].sector) == HeaderAt(d, Root(d)[i].sector)
  {
    assert SoundEntry(d, Root(d), i);
    var h := Root(d)[i].sector;
    forall s | s in FileSectors(d, h) ensures s < NUM_SECTORS && e[s] == d[s] {
      FileSectorsOwned(d, i, s);
      assert s !in MapMeta(d).data && s !in RootMeta(d).data;
    }
    assert h in FileSectors(d, h);
  }

  lemma SameSystem(d: Disk, e: Disk)
    requires Mountable(d) && Mountable(e)
    requires e[FREE_MAP_SECTOR] == d[FREE_MAP_SECTOR] && e[DIRECTORY_SECTOR] == d[DIRECTORY_SECTOR]
    ensures SystemSectors(e) == SystemSectors(d) && MapMeta(e) == MapMeta(d) && RootMeta(e) == RootMeta(d)
  {}

  /** A clear sector belongs to no file. */
  lemma ClearSectorUnowned(d: Disk, h: nat, i: nat)
    requires Consistent(d) && h < NUM_SECTORS && !FreeBits(d)[h] && IsFile(Root(d), i)
    ensures h !in FileSectors(d, Root(d)[i].sector)
  {
    if h in FileSectors(d, Root(d)[i].sector) { FileSectorsOwned(d, i, h); }
  }

  /** An entry that stays as it is keeps its file. */
  lemma EntryKept(d: Disk, e: Disk, own: seq<nat>, bits: seq<bool>, table: Table, i: nat)
    requires Consistent(d) && Updated(d, e, own, bits, table) && i < NUM_DIR_ENTRIES && table[i] == Root(d)[i]
    requires IsFile(Root(d), i) ==> forall s :: s in FileSectors(d, Root(d)[i].sector) ==> s !in own
    ensures SoundEntry(e, Root(e), i)
    ensures i < |LayoutOf(e).files| && i < |LayoutOf(d).files| && LayoutOf(e).files[i] == LayoutOf(d).files[i]
  {
    assert SoundEntry(d, Root(d), i);
    LayoutAt(d, i);
    LayoutAt(e, i);
    if IsFile(Root(d), i) { OtherFileKept(d, e, own, bits, table, i); }
  }

  /** The new file: its entry, its header and its sectors. */
  lemma CreatedFile(d: Disk, e: Disk, name: seq<Byte>, size: nat)
    requires Mountable(d) && CanCreate(FreeBits(d), Root(d), name, size) && Created(d, e, name, size)
    requires InUse(Root(d)[0]) && InUse(Root(d)[1])
    ensures FirstClear(FreeBits(d)) != -1
    ensures var h := FirstClear(FreeBits(d)); var a, slot := NewData(FreeBits(d), size), FreeSlot(Root(d));
      && IsFile(Root(e), slot) && Root(e)[slot].sector == h && SoundEntry(e, Root(e), slot)
      && FileSectors(e, h) == [h as nat] + a.sectors
  {
    hide FreeBits, Root, NewData, Key, HeaderAt;
    NewSectorsFacts(FreeBits(d), size);
    var slot := FreeSlot(Root(d));
    assert slot >= 2;
    assert Root(e)[slot] == NewEntry(Root(d)[slot], name, false, FirstClear(FreeBits(d)));
  }

  /** The other entries: unchanged, and so are their files. */
  lemma CreateKeepsEntry(d: Disk, e: Disk, name: seq<Byte>, size: nat, i: nat)
    requires Consistent(d) && CanCreate(FreeBits(d), Root(d), name, size) && Created(d, e, name, size)
    requires i < NUM_DIR_ENTRIES && i != FreeSlot(Root(d))
    ensures SoundEntry(e, Root(e), i) && Root(e)[i] == Root(d)[i]
    ensures i < |LayoutOf(e).files| && i < |LayoutOf(d).files| && LayoutOf(e).files[i] == LayoutOf(d).files[i]
    ensures IsFile(Root(d), i) ==> forall s :: s in FileSectors(d, Root(d)[i].sector) ==>
      s < NUM_SECTORS && e[s] == d[s]
  {
    NewSectorsFacts(FreeBits(d), size);
    var h: nat := FirstClear(FreeBits(d));
    if IsFile(Root(d), i) {
      ClearSectorUnowned(d, h, i);
      OtherFileKept(d, e, [h], FreeBits(e), Root(e), i);
    }
    EntryKept(d, e, [h], FreeBits(e), Root(e), i);
  }

  lemma CreatedOnDisk(d: Disk, e: Disk, name: seq<Byte>, size: nat)
    requires Mountable(d) && CanCreate(FreeBits(d), Root(d), name, size) && Created(d, e, name, size)
    ensures FirstClear(FreeBits(d)) != -1 && FreeSlot(Root(d)) != -1
    ensures Mountable(e) && WellFormed(e)
    ensures e[FREE_MAP_SECTOR] == d[FREE_MAP_SECTOR] && e[DIRECTORY_SECTOR] == d[DIRECTORY_SECTOR]
    ensures var a, slot, t := NewData(FreeBits(d), size), FreeSlot(Root(d)), Root(d);
      && FreeBits(e) == a.bits
      && Root(e) == t[slot := NewEntry(t[slot], name, false, FirstClear(FreeBits(d)))]
  {
    NewSectorsFacts(FreeBits(d), size);
    hide FreeBits, Root, NewData, NewEntry, Lookup, HeaderAt;
  }

  lemma CreateLayout(d: Disk, e: Disk, name: seq<Byte>, size: nat)
    requires Consistent(d) && CanCreate(FreeBits(d), Root(d), name, size) && Created(d, e, name, size)
    ensures FirstClear(FreeBits(d)) != -1
    ensures var h := FirstClear(FreeBits(d)); var a, slot := NewData(FreeBits(d), size), FreeSlot(Root(d));
      LayoutOf(e) == LayoutOf(d).(files := LayoutOf(d).files[slot := [h as nat] + a.sectors])
    ensures forall i :: 0 <= i < NUM_DIR_ENTRIES ==> SoundEntry(e, Root(e), i)
  {
    hide Consistent, Mountable, CanCreate, FreeBits, Root, NewData, SoundEntry, FileSectors, SystemSectors, Owns;
    ConsistentFacts(d);
    CreatedOnDisk(d, e, name, size);
    hide Created;
    CreatedFile(d, e, name, size);
    SameSystem(d, e);
    var slot := FreeSlot(Root(d));
    LayoutAt(d, slot);
    LayoutAt(e, slot);
    forall i | 0 <= i < NUM_DIR_ENTRIES && i != slot
      ensures SoundEntry(e, Root(e), i) && LayoutOf(e).files[i] == LayoutOf(d).files[i] {
      CreateKeepsEntry(d, e, name, size, i);
    }
  }

  lemma CreateKeepsConsistent(d: Disk, e: Disk, name: seq<Byte>, size: nat)
    requires Consistent(d) && CanCreate(FreeBits(d), Root(d), name, size) && Created(d, e, name, size)
    ensures Consistent(e)
  {
    CreateLayout(d, e, name, size);
    NewSectorsFacts(FreeBits(d), size);
    var h := FirstClear(FreeBits(d));
    var a, slot, t := NewData(FreeBits(d), size), FreeSlot(Root(d)), Root(d);
    OwnsAdd(FreeBits(d), LayoutOf(d), slot, [h as nat] + a.sectors, FreeBits(e));
    AddKeepsLookup(t, slot, NewEntry(t[slot], name, false, h), name, name);
  }

  lemma RemovedOnDisk(d: Disk, e: Disk, name: seq<Byte>)
    requires Mountable(d) && Lookup(Root(d), name) != -1 && Removed(d, e, name)
    ensures Mountable(e) && WellFormed(e)
    ensures e[FREE_MAP_SECTOR] == d[FREE_MAP_SECTOR] && e[DIRECTORY_SECTOR] == d[DIRECTORY_SECTOR]
    ensures var t, i := Root(d), Lookup(Root(d), name); Root(e) == t[i := t[i].(inUse := 0)]
  {
    hide FreeBits, Root, Lookup, HeaderAt, ClearAll;
  }

  lemma RemoveLayout(d: Disk, e: Disk, name: seq<Byte>)
    requires Consistent(d) && Lookup(Root(d), name) >= 2 && Removed(d, e, name)
    ensures LayoutOf(e) == LayoutOf(d).(files := LayoutOf(d).files[Lookup(Root(d), name) := []])
    ensures forall i :: 0 <= i < NUM_DIR_ENTRIES ==> SoundEntry(e, Root(e), i)
  {
    var slot := Lookup(Root(d), name);
    SameSystem(d, e);
    forall i | 0 <= i < NUM_DIR_ENTRIES && i != slot
      ensures SoundEntry(e, Root(e), i) && LayoutOf(e).files[i] == LayoutOf(d).files[i] {
      EntryKept(d, e, [], FreeBits(e), Root(e), i);
    }
    LayoutAt(d, slot);
    LayoutAt(e, slot);
  }

  lemma RemovedBits(d: Disk, e: Disk, name: seq<Byte>, s: nat)
    requires Mountable(d) && Lookup(Root(d), name) != -1 && Removed(d, e, name) && s < NUM_SECTORS
    ensures FreeBits(e)[s] <==> FreeBits(d)[s] && s !in FileSectors(d, Root(d)[Lookup(Root(d), name)].sector)
  {
    ClearAllAt(FreeBits(d), MetaAt(d, Root(d)[Lookup(Root(d), name)].sector).data, s);
  }

  lemma RemoveKeepsConsistent(d: Disk, e: Disk, name: seq<Byte>)
    requires Consistent(d) && Lookup(Root(d), name) >= 2 && Removed(d, e, name)
    ensures Consistent(e)
  {
    var slot := Lookup(Root(d), name);
    RemoveLayout(d, e, name);
    forall s: nat | s < NUM_SECTORS ensures FreeBits(e)[s] <==> FreeBits(d)[s] && s !in LayoutOf(d).files[slot] {
      RemovedBits(d, e, name, s);
    }
    OwnsRemove(FreeBits(d), LayoutOf(d), slot, FreeBits(e));
    RemoveKeepsLookup(Root(d), slot, name, name);
  }

  /** When the sectors of the system are as before, so are the free map and the directory. */
  lemma SystemKept(d: Disk, e: Disk)
    requires Mountable(d) && WellFormed(e) && forall s :: s in SystemSectors(d) ==> s < NUM_SECTORS && e[s] == d[s]
    ensures Mountable(e) && FreeBits(e) == FreeBits(d) && Root(e) == Root(d) && SystemSectors(e) == SystemSectors(d)
  {
    var sys := SystemSectors(d);
    assert sys[0] == FREE_MAP_SECTOR && sys[1] == DIRECTORY_SECTOR;
    assert forall s :: s in MapMeta(d).data ==> s in sys;
    assert forall s :: s in RootMeta(d).data ==> s in sys;
    FileBytesFrame(d, e, MapMeta(d));
    FileBytesFrame(d, e, RootMeta(d));
  }

  /** The data sectors of a file are not the system's, and none of them is a header sector. */
  lemma DataSectorApart(d: Disk, i: nat, j: nat, s: nat)
    requires Consistent(d) && IsFile(Root(d), i) && IsFile(Root(d), j)
    requires Root(d)[i].sector < NUM_SECTORS && s in MetaAt(d, Root(d)[i].sector).data
    ensures s !in SystemSectors(d) && s != Root(d)[j].sector
  {
    var h := Root(d)[i].sector;
    assert s in FileSectors(d, h);
    FileSectorsOwned(d, i, s);
    if j != i {
      FilesDisjoint(d, i, j, s);
      assert SoundEntry(d, Root(d), j) && FileSectors(d, Root(d)[j].sector)[0] == Root(d)[j].sector;
    } else {
      LayoutAt(d, i);
      HeaderApart(d, h, s);
    }
  }

  lemma HeaderApart(d: Disk, h: nat, s: nat)
    requires WellFormed(d) && h < NUM_SECTORS && Distinct(FileSectors(d, h)) && s in MetaAt(d, h).data
    ensures s != h
  {
    var k :| 0 <= k < |MetaAt(d, h).data| && MetaAt(d, h).data[k] == s;
    assert FileSectors(d, h)[0] == h && FileSectors(d, h)[k + 1] == s;
  }

  /** The sector holds the header of a file. */
  predicate HeadsFile(t: Table, s: nat) { exists j: nat :: j < |t| && IsFile(t, j) && t[j].sector == s }

  /** The sectors are neither the system's nor the header of a file. */
  ghost predicate Unclaimed(d: Disk, m: Meta)
    requires Mountable(d)
  {
    forall s :: s in m.data ==> s !in SystemSectors(d) && !HeadsFile(Root(d), s)
  }

  lemma FileUnclaimed(d: Disk, i: nat)
    requires Consistent(d) && IsFile(Root(d), i)
    ensures Mountable(d) && Root(d)[i].sector < NUM_SECTORS && ValidHeader(HeaderAt(d, Root(d)[i].sector))
    ensures Unclaimed(d, MetaAt(d, Root(d)[i].sector))
  {
    hide Consistent, Mountable, Root, FreeBits, SystemSectors, HeaderAt;
    ConsistentFacts(d);
    SoundFile(d, i);
    forall s | s in MetaAt(d, Root(d)[i].sector).data
      ensures s !in SystemSectors(d) && !HeadsFile(Root(d), s) {
      DataSectorApart(d, i, i, s);
      if j: nat :| j < |Root(d)| && IsFile(Root(d), j) && Root(d)[j].sector == s { DataSectorApart(d, i, j, s); }
    }
  }

  lemma SplicedKeepsSystem(d: Disk, e: Disk, m: Meta, position: nat, data: seq<Byte>)
    requires Consistent(d) && ValidMeta(m) && Unclaimed(d, m) && Spliced(d, e, m, position, data)
    ensures Mountable(e) && FreeBits(e) == FreeBits(d) && Root(e) == Root(d) && SystemSectors(e) == SystemSectors(d)
  {
    assert Below(LayoutOf(d).system, NUM_SECTORS);
    forall s | s in SystemSectors(d) ensures s < NUM_SECTORS && e[s] == d[s] {
      var k :| 0 <= k < |SystemSectors(d)| && SystemSectors(d)[k] == s;
    }
    SystemKept(d, e);
  }

  lemma SplicedKeepsEntry(d: Disk, e: Disk, m: Meta, position: nat, data: seq<Byte>, j: nat)
    requires Consistent(d) && ValidMeta(m) && Unclaimed(d, m) && Spliced(d, e, m, position, data) && j < NUM_DIR_ENTRIES
    requires Mountable(e) && Root(e) == Root(d)
    ensures SoundEntry(e, Root(e), j)
    ensures j < |LayoutOf(e).files| && j < |LayoutOf(d).files| && LayoutOf(e).files[j] == LayoutOf(d).files[j]
    ensures IsFile(Root(d), j) ==> Root(d)[j].sector < NUM_SECTORS && e[Root(d)[j].sector] == d[Root(d)[j].sector]
  {
    assert SoundEntry(d, Root(d), j);
    LayoutAt(d, j);
    LayoutAt(e, j);
    hide Splice, FileBytes, SystemSectors;
  }

  /** A write through a header keeps the disk consistent when its sectors are unclaimed. */
  lemma SplicedKeepsConsistent(d: Disk, e: Disk, m: Meta, position: nat, data: seq<Byte>)
    requires Consistent(d) && ValidMeta(m) && Unclaimed(d, m) && Spliced(d, e, m, position, data)
    ensures Consistent(e)
  {
    SplicedKeepsSystem(d, e, m, position, data);
    LayoutAt(d, 0);
    LayoutAt(e, 0);
    forall j | 0 <= j < NUM_DIR_ENTRIES
      ensures SoundEntry(e, Root(e), j) && LayoutOf(e).files[j] == LayoutOf(d).files[j] {
      SplicedKeepsEntry(d, e, m, position, data, j);
    }
    assert LayoutOf(e) == LayoutOf(d);
  }

  lemma WriteKeepsSystem(d: Disk, e: Disk, i: nat, position: nat, data: seq<Byte>)
    requires Consistent(d) && IsFile(Root(d), i) && Written(d, e, i, position, data)
    ensures Mountable(e) && FreeBits(e) == FreeBits(d) && Root(e) == Root(d) && SystemSectors(e) == SystemSectors(d)
  {
    hide Consistent, Mountable, Root, FreeBits, SystemSectors, HeaderAt, Unclaimed, Spliced;
    ConsistentFacts(d);
    FileUnclaimed(d, i);
    SplicedKeepsSystem(d, e, MetaAt(d, Root(d)[i].sector), position, data);
  }

  lemma WriteKeepsHeader(d: Disk, e: Disk, i: nat, position: nat, data: seq<Byte>, j: nat)
    requires Consistent(d) && IsFile(Root(d), i) && IsFile(Root(d), j) && Written(d, e, i, position, data)
    ensures Root(d)[j].sector < NUM_SECTORS && e[Root(d)[j].sector] == d[Root(d)[j].sector]
  {
    hide Consistent, Mountable, Root, FreeBits, SystemSectors, HeaderAt, Unclaimed, Spliced, LayoutOf;
    ConsistentFacts(d);
    FileUnclaimed(d, i);
    WriteKeepsSystem(d, e, i, position, data);
    SplicedKeepsEntry(d, e, MetaAt(d, Root(d)[i].sector), position, data, j);
  }

  lemma WriteKeepsConsistent(d: Disk, e: Disk, i: nat, position: nat, data: seq<Byte>)
    requires Consistent(d) && IsFile(Root(d), i) && Written(d, e, i, position, data)
    ensures Consistent(e)
  {
    hide Consistent, Mountable, Root, FreeBits, SystemSectors, HeaderAt, Unclaimed, Spliced;
    ConsistentFacts(d);
    FileUnclaimed(d, i);
    SplicedKeepsConsistent(d, e, MetaAt(d, Root(d)[i].sector), position, data);
  }

  // ---- The map from names to byte strings ----

  datatype Content = Absent | Bytes(bytes: seq<Byte>)

  /** What a name stands for; "." and ".." stand for no file. */
  function Contents(d: Disk, name: seq<Byte>): Content
    requires Consistent(d)
  {
    var i := Lookup(Root(d), name);
    if i < 2 then Absent
    else
      assert SoundEntry(d, Root(d), i);
      Bytes(FileBytes(d, MetaAt(d, Root(d)[i].sector)))
  }

  lemma SameKey(d: Disk, a: seq<Byte>, b: seq<Byte>)
    requires Consistent(d) && Key(a) == Key(b)
    ensures Contents(d, a) == Contents(d, b)
  {}

  /** A file whose sectors did not change has the same bytes. */
  lemma SameFile(d: Disk, e: Disk, i: nat)
    requires Consistent(d) && WellFormed(e) && IsFile(Root(d), i)
    requires forall s :: s in FileSectors(d, Root(d)[i].sector) ==> s < NUM_SECTORS && e[s] == d[s]
    ensures var h := Root(d)[i].sector;
      h < NUM_SECTORS && ValidHeader(HeaderAt(d, h)) && MetaAt(e, h) == MetaAt(d, h)
        && FileBytes(e, MetaAt(e, h)) == FileBytes(d, MetaAt(d, h))
  {
    assert SoundEntry(d, Root(d), i);
    var h := Root(d)[i].sector;
    assert FileSectors(d, h)[0] == h;
    assert forall s :: s in MetaAt(d, h).data ==> s in FileSectors(d, h);
    FileBytesFrame(d, e, MetaAt(d, h));
  }

  /** A name stands for the same file when its entry and its sectors are the same. */
  lemma SameContents(d: Disk, e: Disk, name: seq<Byte>)
    requires Consistent(d) && Consistent(e) && Lookup(Root(e), name) == Lookup(Root(d), name)
    requires var i := Lookup(Root(d), name); i >= 2 ==>
      Root(e)[i] == Root(d)[i] && forall s :: s in FileSectors(d, Root(d)[i].sector) ==> s < NUM_SECTORS && e[s] == d[s]
    ensures Contents(e, name) == Contents(d, name)
  {
    ConsistentFacts(d);
    ConsistentFacts(e);
    hide FreeBits, Root, LayoutOf, Owns, Mountable, FileSectors, Key, Lookup, DistinctKeys;
    var i := Lookup(Root(d), name);
    if i >= 2 { SameFile(d, e, i); }
  }

  lemma CreateKeepsOthers(d: Disk, e: Disk, name: seq<Byte>, size: nat, other: seq<Byte>)
    requires Consistent(d) && CanCreate(FreeBits(d), Root(d), name, size) && Created(d, e, name, size) && Consistent(e)
    requires Lookup(Root(e), other) == Lookup(Root(d), other)
    ensures Contents(e, other) == Contents(d, other)
  {
    hide FreeBits, Root, FileSectors, Key, Lookup, Consistent, Mountable, Contents, Created, CanCreate, LayoutOf;
    ConsistentFacts(d);
    ConsistentFacts(e);
    var i := Lookup(Root(d), other);
    if i >= 2 { CreateKeepsEntry(d, e, name, size, i); }
    SameContents(d, e, other);
  }

  lemma CreatedSize(d: Disk, e: Disk, name: seq<Byte>, size: nat)
    requires Mountable(d) && CanCreate(FreeBits(d), Root(d), name, size) && Created(d, e, name, size)
    ensures FirstClear(FreeBits(d)) != -1 && WellFormed(e)
    ensures var h := FirstClear(FreeBits(d)); ValidHeader(HeaderAt(e, h)) && MetaAt(e, h).numBytes == size
  {
    NewSectorsFacts(FreeBits(d), size);
    hide FreeBits, Root, NewData, NewEntry, Lookup, HeaderAt;
  }

  lemma CreatedContents(d: Disk, e: Disk, name: seq<Byte>, size: nat)
    requires Consistent(d) && CanCreate(FreeBits(d), Root(d), name, size) && Created(d, e, name, size)
    ensures Consistent(e) && Contents(e, name).Bytes? && |Contents(e, name).bytes| == size
  {
    hide FreeBits, Root, Created, CanCreate, Lookup, LayoutOf, NewData, FreeSlot, FirstClear, Owns, DistinctKeys;
    CreatedIsFound(d, e, name, size);
    ConsistentFacts(d);
    ConsistentFacts(e);
    CreatedFile(d, e, name, size);
    CreatedSize(d, e, name, size);
  }

  /** Creating a file adds its name with a byte string of the given length; every other name stands
      for what it stood for. */
  lemma CreateRefinesMap(d: Disk, e: Disk, name: seq<Byte>, size: nat, other: seq<Byte>)
    requires Consistent(d) && CanCreate(FreeBits(d), Root(d), name, size) && Created(d, e, name, size)
    ensures Consistent(e)
    ensures if Key(other) == Key(name) then Contents(e, other).Bytes? && |Contents(e, other).bytes| == size
            else Contents(e, other) == Contents(d, other)
  {
    hide FreeBits, Root, Consistent, Created, Lookup, FreeSlot, LayoutOf, Mountable, Key, Contents, NewEntry,
      CountClear;
    CreateKeepsConsistent(d, e, name, size);
    ConsistentFacts(d);
    CreatedIsFound(d, e, name, size);
    CreatedOnDisk(d, e, name, size);
    if Key(other) == Key(name) {
      CreatedContents(d, e, name, size);
      SameKey(e, other, name);
    } else {
      AddKeepsLookup(Root(d), FreeSlot(Root(d)), Root(e)[FreeSlot(Root(d))], name, other);
      CreateKeepsOthers(d, e, name, size, other);
    }
  }

  /** Removing a file takes its name away and leaves every other name alone. */
  lemma RemoveRefinesMap(d: Disk, e: Disk, name: seq<Byte>, other: seq<Byte>)
    requires Consistent(d) && Lookup(Root(d), name) >= 2 && Removed(d, e, name)
    ensures Consistent(e)
    ensures Contents(e, other) == if Key(other) == Key(name) then Absent else Contents(d, other)
  {
    RemoveKeepsConsistent(d, e, name);
    ConsistentFacts(d);
    hide FreeBits, Root, FileSectors, Key, Lookup, Consistent, Mountable, Owns, LayoutOf, DistinctKeys;
    RemovedOnDisk(d, e, name);
    var i, slot := Lookup(Root(d), other), Lookup(Root(d), name);
    RemoveKeepsLookup(Root(d), slot, name, other);
    if Key(other) != Key(name) {
      if i >= 2 { OtherFileKept(d, e, [], FreeBits(e), Root(e), i); }
      SameContents(d, e, other);
    }
  }

  lemma WriteLeavesSector(d: Disk, e: Disk, i: nat, position: nat, data: seq<Byte>, j: nat, s: nat)
    requires Consistent(d) && IsFile(Root(d), i) && IsFile(Root(d), j) && i != j && Written(d, e, i, position, data)
    requires s in FileSectors(d, Root(d)[j].sector)
    ensures s < NUM_SECTORS && e[s] == d[s]
  {
    FileSectorsOwned(d, j, s);
    FilesDisjoint(d, j, i, s);
    hide FreeBits, Root, LayoutOf, Consistent, Splice;
  }

  lemma WriteKeepsOthers(d: Disk, e: Disk, name: seq<Byte>, position: nat, data: seq<Byte>, other: seq<Byte>)
    requires Consistent(d) && Lookup(Root(d), name) >= 2 && Written(d, e, Lookup(Root(d), name), position, data)
    requires Consistent(e) && Root(e) == Root(d) && Key(other) != Key(name)
    ensures Contents(e, other) == Contents(d, other)
  {
    hide FreeBits, Root, FileSectors, Key, Lookup, Consistent, Mountable, Contents, LayoutOf, Splice;
    ConsistentFacts(d);
    ConsistentFacts(e);
    var i, j := Lookup(Root(d), name), Lookup(Root(d), other);
    if j >= 2 {
      forall s | s in FileSectors(d, Root(d)[j].sector) ensures s < NUM_SECTORS && e[s] == d[s] {
        WriteLeavesSector(d, e, i, position, data, j, s);
      }
    }
    SameContents(d, e, other);
  }

  lemma WriteChangesOwn(d: Disk, e: Disk, name: seq<Byte>, position: nat, data: seq<Byte>)
    requires Consistent(d) && Lookup(Root(d), name) >= 2 && Written(d, e, Lookup(Root(d), name), position, data)
    requires Consistent(e) && Root(e) == Root(d)
    ensures Contents(d, name).Bytes? && Contents(e, name) == Bytes(Splice(Contents(d, name).bytes, position, data))
  {
    var i := Lookup(Root(d), name);
    WriteKeepsHeader(d, e, i, position, data, i);
    hide FreeBits, Root, LayoutOf, Lookup, Splice, Owns, SystemSectors, DistinctKeys, FileBytes;
  }

  /** Writing splices the data into that file and changes no byte of any other. */
  lemma WriteRefinesMap(d: Disk, e: Disk, name: seq<Byte>, position: nat, data: seq<Byte>, other: seq<Byte>)
    requires Consistent(d) && Lookup(Root(d), name) >= 2 && Written(d, e, Lookup(Root(d), name), position, data)
    ensures Consistent(e) && Contents(d, name).Bytes?
    ensures Contents(e, other) ==
      if Key(other) == Key(name) then Bytes(Splice(Contents(d, name).bytes, position, data)) else Contents(d, other)
  {
    var i := Lookup(Root(d), name);
    WriteKeepsConsistent(d, e, i, position, data);
    WriteKeepsSystem(d, e, i, position, data);
    hide FreeBits, Root, Consistent, Lookup, Key, LayoutOf, Splice, Written, Mountable, Contents;
    WriteChangesOwn(d, e, name, position, data);
    if Key(other) == Key(name) {
      SameKey(d, other, name);
      SameKey(e, other, name);
    } else {
      WriteKeepsOthers(d, e, name, position, data, other);
    }
  }

  // ---- Create and remove ----

  /** The removed file is the one that was created. */
  lemma CreatedIsFound(d: Disk, e: Disk, name: seq<Byte>, size: nat)
    requires Consistent(d) && CanCreate(FreeBits(d), Root(d), name, size) && Created(d, e, name, size)
    ensures Consistent(e) && Lookup(Root(e), name) == FreeSlot(Root(d)) >= 2
    ensures forall s: nat :: s < NUM_SECTORS ==>
      (FreeBits(d)[s] <==> FreeBits(e)[s] && s !in FileSectors(e, Root(e)[FreeSlot(Root(d))].sector))
  {
    CreateKeepsConsistent(d, e, name, size);
    assert SoundEntry(d, Root(d), 0) && SoundEntry(d, Root(d), 1);
    CreatedFile(d, e, name, size);
    LookupUnique(Root(e), name, FreeSlot(Root(d)));
    NewSectorsFacts(FreeBits(d), size);
    assert FreeBits(e) == NewData(FreeBits(d), size).bits;
  }

  lemma CreateThenRemoveBits(d: Disk, e: Disk, f: Disk, name: seq<Byte>, size: nat)
    requires Consistent(d) && CanCreate(FreeBits(d), Root(d), name, size) && Created(d, e, name, size)
    requires Lookup(Root(e), name) != -1 && Removed(e, f, name)
    ensures Consistent(f) && FreeBits(f) == FreeBits(d)
  {
    hide FreeBits, Root, Lookup, FreeSlot, CanCreate, Created, Removed, Mountable, Consistent, FileSectors;
    ConsistentFacts(d);
    CreatedIsFound(d, e, name, size);
    ConsistentFacts(e);
    RemoveKeepsConsistent(e, f, name);
    ConsistentFacts(f);
    forall s: nat | s < NUM_SECTORS ensures FreeBits(f)[s] == FreeBits(d)[s] {
      RemovedBits(e, f, name, s);
    }
    assert FreeBits(f) == FreeBits(d);
  }

  /** Creating a file and removing it restores the free map and the listing. */
  lemma CreateThenRemove(d: Disk, e: Disk, f: Disk, name: seq<Byte>, size: nat)
    requires Consistent(d) && CanCreate(FreeBits(d), Root(d), name, size) && Created(d, e, name, size)
    requires Lookup(Root(e), name) != -1 && Removed(e, f, name)
    ensures Consistent(f) && FreeBits(f) == FreeBits(d)
    ensures forall i :: 0 <= i < NUM_DIR_ENTRIES ==>
      (InUse(Root(f)[i]) <==> InUse(Root(d)[i])) && (InUse(Root(d)[i]) ==> Root(f)[i] == Root(d)[i])
  {
    hide Mountable, FreeBits, Root, Consistent, CanCreate, Created, Removed, Lookup, FreeSlot, Key, NewEntry;
    CreateThenRemoveBits(d, e, f, name, size);
    CreatedIsFound(d, e, name, size);
    ConsistentFacts(d);
    CreatedOnDisk(d, e, name, size);
    RemovedOnDisk(e, f, name);
  }

  lemma CreateThenRemoveContents(d: Disk, e: Disk, f: Disk, name: seq<Byte>, size: nat, other: seq<Byte>)
    requires Consistent(d) && CanCreate(FreeBits(d), Root(d), name, size) && Created(d, e, name, size)
    requires Lookup(Root(e), name) != -1 && Removed(e, f, name)
    ensures Consistent(f) && Contents(f, other) == Contents(d, other)
  {
    CreatedIsFound(d, e, name, size);
    CreateRefinesMap(d, e, name, size, other);
    RemoveRefinesMap(e, f, name, other);
    if Key(other) == Key(name) {
      SameKey(d, other, name);
      assert Contents(d, name) == Absent;
    }
    hide Consistent, Contents, Created, Removed;
  }

  // ---- "." and ".." ----

  /** A name that neither "." nor ".." matches. */
  predicate OrdinaryName(name: seq<Byte>) { Key(name) != Key(DOT) && Key(name) != Key(DOT_DOT) }

  lemma OrdinaryLookup(d: Disk, name: seq<Byte>)
    requires Consistent(d)
    ensures Lookup(Root(d), name) == 0 <==> Key(name) == Key(DOT)
    ensures Lookup(Root(d), name) == 1 <==> Key(name) == Key(DOT_DOT)
  {
    assert SoundEntry(d, Root(d), 0) && SoundEntry(d, Root(d), 1);
    if Key(name) == Key(DOT) { LookupUnique(Root(d), name, 0); }
    if Key(name) == Key(DOT_DOT) { LookupUnique(Root(d), name, 1); }
  }

  /** Removing any entry keeps the ownership of sectors exactly when its name is not "." or "..":
      those two free the sectors of the directory itself. */
  lemma RemoveKeepsOwnershipIff(d: Disk, e: Disk, name: seq<Byte>)
    requires Consistent(d) && Lookup(Root(d), name) != -1 && Removed(d, e, name)
    ensures Owns(FreeBits(e), LayoutOf(e)) <==> OrdinaryName(name)
  {
    OrdinaryLookup(d, name);
    var i := Lookup(Root(d), name);
    if i >= 2 {
      RemoveKeepsConsistent(d, e, name);
    } else {
      assert SoundEntry(d, Root(d), i);
      RemovedBits(d, e, name, DIRECTORY_SECTOR);
      assert FileSectors(d, DIRECTORY_SECTOR)[0] == DIRECTORY_SECTOR;
      assert LayoutOf(e).system[1] == DIRECTORY_SECTOR;
      hide FreeBits, Root, LayoutOf, Key;
    }
  }

  function WithFirst(b: seq<Byte>, x: Byte): (r: seq<Byte>)
    requires |b| > 0
    ensures |r| == |b|
  {
    b[0 := x]
  }

  /** A write of one byte at the beginning of a data sector. */
  lemma ByteReplaced(d: Disk, m: Meta, k: nat, x: Byte) returns (e: Disk)
    requires WellFormed(d) && ValidMeta(m) && k < |m.data|
    ensures m.data[k] < NUM_SECTORS && |d[m.data[k]]| > 0 && e == d[m.data[k] := WithFirst(d[m.data[k]], x)]
    ensures Spliced(d, e, m, k * SECTOR_SIZE, [x])
  {
    ByteIsStored(m, k * SECTOR_SIZE);
    var s := m.data[k];
    assert s in m.data;
    e := d[s := WithFirst(d[s], x)];
    var before, after := FileBytes(d, m), FileBytes(e, m);
    forall p | 0 <= p < m.numBytes ensures after[p] == if p == k * SECTOR_SIZE then x else before[p] {
      ByteIsStored(m, p);
      assert p / SECTOR_SIZE != k ==> m.data[p / SECTOR_SIZE] != s;
    }
    assert after == Splice(before, k * SECTOR_SIZE, [x]);
  }

  lemma FirstEntryGone(e: Disk)
    requires Mountable(e) && FileBytes(e, RootMeta(e))[0] == 0
    ensures !Consistent(e)
  {
    assert Root(e)[0].inUse == 0;
    assert !SoundEntry(e, Root(e), 0);
  }

  /** A disk that a write of one zero byte into the directory may leave: "." is not in use any more. */
  lemma DirectorySpoiled(d: Disk, i: nat) returns (e: Disk)
    requires Consistent(d) && i < 2
    ensures Written(d, e, i, 0, [0]) && !Consistent(e)
  {
    assert SoundEntry(d, Root(d), i);
    assert Distinct(SystemSectors(d)) by { assert LayoutOf(d).system == SystemSectors(d); }
    SystemApart(d);
    var m := RootMeta(d);
    e := ByteReplaced(d, m, 0, 0);
    assert FileBytes(e, m)[0] == 0;
    assert e[DIRECTORY_SECTOR] == d[DIRECTORY_SECTOR] && RootMeta(e) == m;
    hide Consistent, FileBytes, Owns, LayoutOf;
    if Mountable(e) { FirstEntryGone(e); }
    assert Consistent(e) ==> Mountable(e) by { if Consistent(e) { ConsistentFacts(e); } }
  }

  /** Writes through a name keep the disk consistent, whatever is written and wherever, exactly when
      the name is not "." or "..": those two open the directory itself. */
  lemma WriteKeepsConsistentIff(d: Disk, name: seq<Byte>)
    requires Consistent(d) && Lookup(Root(d), name) != -1
    ensures (forall position, data, e :: Written(d, e, Lookup(Root(d), name), position, data) ==> Consistent(e))
       <==> OrdinaryName(name)
  {
    OrdinaryLookup(d, name);
    var i := Lookup(Root(d), name);
    if i >= 2 {
      forall position, data, e | Written(d, e, i, position, data) ensures Consistent(e) {
        WriteKeepsConsistent(d, e, i, position, data);
      }
    } else {
      var e := DirectorySpoiled(d, i);
    }
    hide Consistent, Written, Lookup, Root;
  }

  // ---- Headers that stay in memory ----

  /** The sectors are not the system's. */
  ghost predicate Apart(d: Disk, m: Meta)
    requires WellFormed(d)
  {
    forall s :: s in m.data ==> s !in SystemSectors(d)
  }

  /** A byte that gives a header another number of sectors to list. */
  function OtherLowByte(n: Word): Byte { if n % 256 == 0 then 1 else 0 }

  lemma OtherCount(n: Word)
    ensures var x: int := OtherLowByte(n); DivRoundUp(n - n % 256 + x, SECTOR_SIZE) != DivRoundUp(n, SECTOR_SIZE)
  {
    var q, r := n / 256, n % 256;
    assert n == 256 * q + r;
    assert n / 128 == 2 * q + r / 128 && n % 128 == r % 128;
    assert (256 * q + 1) / 128 == 2 * q && (256 * q + 1) % 128 == 1;
    assert (256 * q) / 128 == 2 * q && (256 * q) % 128 == 0;
  }

  /** Changing the low byte of a header's length makes it list the wrong number of sectors. */
  lemma LowByteSpoilsHeader(b: seq<Byte>, x: Byte)
    requires |b| == SECTOR_SIZE && ValidHeader(DecodeHeader(b)) && x == OtherLowByte(DecodeHeader(b).numBytes)
    ensures !ValidHeader(DecodeHeader(WithFirst(b, x)))
  {
    var h, c := DecodeHeader(b), WithFirst(b, x);
    LowByteChanges(b, x);
    OtherCount(h.numBytes);
    hide DecodeHeader, DivRoundUp, OtherLowByte, Distinct, Below, WithFirst;
  }

  lemma LowByteChanges(b: seq<Byte>, x: Byte)
    requires |b| == SECTOR_SIZE
    ensures var h, g := DecodeHeader(b), DecodeHeader(WithFirst(b, x));
      g.numSectors == h.numSectors && g.numBytes == h.numBytes - h.numBytes % 256 + x
  {
    var c := WithFirst(b, x);
    assert c[4..8] == b[4..8];
    assert b[0..4] == [b[0], b[1], b[2], b[3]] && c[0..4] == [x, b[1], b[2], b[3]];
    hide ValidHeader;
  }

  /** A disk that a write through a header may leave when sector k of the header holds the header of
      a file. */
  lemma ClaimedSpoiled(d: Disk, m: Meta, k: nat) returns (e: Disk, x: Byte)
    requires Consistent(d) && ValidMeta(m) && Apart(d, m) && k < |m.data| && HeadsFile(Root(d), m.data[k])
    ensures Spliced(d, e, m, k * SECTOR_SIZE, [x]) && !Consistent(e)
  {
    var s := m.data[k];
    assert s in m.data;
    var j: nat :| j < |Root(d)| && IsFile(Root(d), j) && Root(d)[j].sector == s;
    SoundFile(d, j);
    x := OtherLowByte(HeaderAt(d, s).numBytes);
    e := ByteReplaced(d, m, k, x);
    LowByteSpoilsHeader(d[s], x);
    SystemUntouched(d, e, s);
    if Consistent(e) { SoundFile(e, j); }
    hide Consistent, ValidHeader, Splice, FileBytes;
  }

  lemma SystemUntouched(d: Disk, e: Disk, s: nat)
    requires Consistent(d) && WellFormed(e) && s < NUM_SECTORS && s !in SystemSectors(d) && e == d[s := e[s]]
    ensures Mountable(e) && Root(e) == Root(d) && SystemSectors(e) == SystemSectors(d)
  {
    assert Below(LayoutOf(d).system, NUM_SECTORS);
    forall x | x in SystemSectors(d) ensures x < NUM_SECTORS && e[x] == d[x] {
      var k :| 0 <= k < |SystemSectors(d)| && SystemSectors(d)[k] == x;
    }
    SystemKept(d, e);
  }

  /** The header of the directory lists sectors of the system, and a write there may spoil the disk. */
  lemma RootSpoiled(d: Disk) returns (e: Disk)
    requires Consistent(d)
    ensures WellFormed(d) && ValidMeta(RootMeta(d)) && Spliced(d, e, RootMeta(d), 0, [0]) && !Consistent(e)
    ensures Mountable(d) && !Unclaimed(d, RootMeta(d))
  {
    e := DirectorySpoiled(d, 0);
    assert SoundEntry(d, Root(d), 0);
    var s := RootMeta(d).data[0];
    assert s in RootMeta(d).data && s in SystemSectors(d);
    hide Spliced, Owns, LayoutOf, FreeBits;
  }

  lemma ClaimedIndex(d: Disk, m: Meta) returns (k: nat)
    requires Mountable(d) && Apart(d, m) && !Unclaimed(d, m)
    ensures k < |m.data| && HeadsFile(Root(d), m.data[k])
  {
    hide HeadsFile, SystemSectors, Root;
    var s :| s in m.data && HeadsFile(Root(d), s);
    k :| 0 <= k < |m.data| && m.data[k] == s;
  }

  /** Writes through a header that was fetched at some time from a file, or from the directory, keep
      the disk consistent, whatever is written and wherever, exactly when none of its data sectors
      is by now the header of a file, or the system's. */
  lemma ThroughHeaderIff(d: Disk, h: Header)
    requires Consistent(d) && ValidHeader(h) && (h == HeaderAt(d, DIRECTORY_SECTOR) || Apart(d, MetaOf(h)))
    ensures (forall position, data, e :: Spliced(d, e, MetaOf(h), position, data) ==> Consistent(e))
       <==> Unclaimed(d, MetaOf(h))
  {
    var m := MetaOf(h);
    assert ValidMeta(m);
    hide Consistent, Mountable, Spliced, ValidHeader, ValidMeta, Root, SystemSectors, FreeBits, Unclaimed, Apart,
      MetaOf;
    ConsistentFacts(d);
    if Unclaimed(d, m) {
      forall position, data, e | Spliced(d, e, m, position, data) ensures Consistent(e) {
        SplicedKeepsConsistent(d, e, m, position, data);
      }
    } else if h == HeaderAt(d, DIRECTORY_SECTOR) {
      var e := RootSpoiled(d);
    } else {
      var k := ClaimedIndex(d, m);
      var e, x := ClaimedSpoiled(d, m, k);
    }
  }
}
