/** The methods of filesys/filesys.cc on the disk, proved against the relations of FileSystemSteps. */
module FileSystemCode {
  import opened Words
  import opened Memory
  import opened BitMaps
  import opened Storage
  import opened OpenFiles
  import opened FileHeaders
  import opened Directories
  import opened FileSystems
  import opened FileSystemSteps
  import opened FileMaps
  import opened OpenTables
  import opened FileSystemRuns

  // ---- Writing back one of the system files ----

  /** Writing the free map leaves the headers and the directory alone. */
  lemma MapWriteKeeps(d: Disk, e: Disk)
    requires Mountable(d) && Distinct(SystemSectors(d)) && WellFormed(e)
    requires forall s :: 0 <= s < NUM_SECTORS && s !in MapMeta(d).data ==> e[s] == d[s]
    ensures e[FREE_MAP_SECTOR] == d[FREE_MAP_SECTOR] && e[DIRECTORY_SECTOR] == d[DIRECTORY_SECTOR]
    ensures Mountable(e) && Root(e) == Root(d) && MapMeta(e) == MapMeta(d) && RootMeta(e) == RootMeta(d)
  {
    SystemApart(d);
    FileBytesFrame(d, e, RootMeta(d));
  }

  /** Writing the directory leaves the headers and the free map alone. */
  lemma RootWriteKeeps(d: Disk, e: Disk)
    requires Mountable(d) && Distinct(SystemSectors(d)) && WellFormed(e)
    requires forall s :: 0 <= s < NUM_SECTORS && s !in RootMeta(d).data ==> e[s] == d[s]
    ensures e[FREE_MAP_SECTOR] == d[FREE_MAP_SECTOR] && e[DIRECTORY_SECTOR] == d[DIRECTORY_SECTOR]
    ensures Mountable(e) && FreeBits(e) == FreeBits(d) && MapMeta(e) == MapMeta(d) && RootMeta(e) == RootMeta(d)
  {
    SystemApart(d);
    FileBytesFrame(d, e, MapMeta(d));
  }

  /** Filling in the free map and the directory in either order. */
  lemma BothWritten(d: Disk, e: Disk, f: Disk, own: seq<nat>, bits: seq<bool>, table: Table)
    requires Mountable(d) && Mountable(e) && Mountable(f)
    requires e[FREE_MAP_SECTOR] == d[FREE_MAP_SECTOR] && e[DIRECTORY_SECTOR] == d[DIRECTORY_SECTOR]
    requires f[FREE_MAP_SECTOR] == e[FREE_MAP_SECTOR] && f[DIRECTORY_SECTOR] == e[DIRECTORY_SECTOR]
    requires forall s :: 0 <= s < NUM_SECTORS && s !in own ==> e[s] == d[s]
    requires forall s :: 0 <= s < NUM_SECTORS && s !in MapMeta(d).data && s !in RootMeta(d).data ==> f[s] == e[s]
    requires FreeBits(f) == bits && Root(f) == table
    ensures Updated(d, f, own, bits, table)
  {}

  /** Writing a sector that is not the system's leaves the system files alone. */
  lemma OtherSectorKeeps(d: Disk, e: Disk, sector: nat)
    requires Mountable(d) && WellFormed(e) && sector < NUM_SECTORS && sector !in SystemSectors(d)
      && e == d[sector := e[sector]]
    ensures Mountable(e) && FreeBits(e) == FreeBits(d) && Root(e) == Root(d) && SystemSectors(e) == SystemSectors(d)
    ensures e[FREE_MAP_SECTOR] == d[FREE_MAP_SECTOR] && e[DIRECTORY_SECTOR] == d[DIRECTORY_SECTOR]
    ensures MapMeta(e) == MapMeta(d) && RootMeta(e) == RootMeta(d)
  {
    var sys := SystemSectors(d);
    assert sys[0] == FREE_MAP_SECTOR && sys[1] == DIRECTORY_SECTOR;
    forall s | s in sys ensures s < NUM_SECTORS && e[s] == d[s] {}
    SystemKept(d, e);
  }

  lemma HeaderSectorSafe(d: Disk, sector: nat)
    requires WellFormed(d) && sector !in SystemSectors(d)
    ensures sector !in MapMeta(d).data && sector !in RootMeta(d).data
  {
    assert forall s :: s in MapMeta(d).data ==> s in SystemSectors(d);
    assert forall s :: s in RootMeta(d).data ==> s in SystemSectors(d);
  }

  lemma ClearSectorNotSystem(d: Disk, s: nat)
    requires Consistent(d) && s < NUM_SECTORS && !FreeBits(d)[s]
    ensures s !in SystemSectors(d) && Distinct(SystemSectors(d))
  {
    assert LayoutOf(d).system == SystemSectors(d);
  }

  lemma NewHeaderValid(bits: seq<bool>, size: nat, h: Header)
    requires |bits| == NUM_SECTORS && 1 + DivRoundUp(size, SECTOR_SIZE) <= CountClear(bits) && size <= MAX_FILE_SIZE
    requires WellSized(h) && h.numSectors <= NUM_DIRECT && FirstClear(bits) != -1
    requires MetaOf(h) == Meta(size, NewData(bits, size).sectors)
    ensures ValidHeader(h)
  {
    CountClearUpdate(bits, FirstClear(bits), true);
    TakeSectorsTakes(bits[FirstClear(bits) := true], DivRoundUp(size, SECTOR_SIZE));
  }

  /** Every sector of an entry in use is marked, so the ASSERT in Deallocate holds. */
  lemma EntrySectorsMarked(d: Disk, i: nat)
    requires Consistent(d) && i < NUM_DIR_ENTRIES && InUse(Root(d)[i])
    ensures Distinct(SystemSectors(d))
    ensures var h := Root(d)[i].sector;
      h < NUM_SECTORS && ValidHeader(HeaderAt(d, h)) && AllMarked(FreeBits(d), MetaAt(d, h).data)
  {
    assert SoundEntry(d, Root(d), i);
    var h := Root(d)[i].sector;
    assert LayoutOf(d).system == SystemSectors(d);
    forall k | 0 <= k < |MetaAt(d, h).data|
      ensures MetaAt(d, h).data[k] < NUM_SECTORS && FreeBits(d)[MetaAt(d, h).data[k]] {
      var s := MetaAt(d, h).data[k];
      if i >= 2 {
        assert FileSectors(d, h)[k + 1] == s;
        FileSectorsOwned(d, i, s);
      } else {
        assert s in RootMeta(d).data && s in SystemSectors(d);
      }
    }
  }

  /** Whatever open file is written through, the headers of the system stay. */
  lemma StillMounted(s: State, id: nat, position: nat, data: seq<Byte>, e: Disk)
    requires Sound(s) && id < |s.open| && s.open[id].Opened?
    requires WellFormed(s.disk) && ValidHeader(s.open[id].hdr)
    requires Spliced(s.disk, e, MetaOf(s.open[id].hdr), position, data)
    ensures e[FREE_MAP_SECTOR] == s.disk[FREE_MAP_SECTOR] && e[DIRECTORY_SECTOR] == s.disk[DIRECTORY_SECTOR]
  {
    var d, x := s.disk, s.open[id];
    SoundFacts(s);
    assert Fetched(d, x);
    var sys := SystemSectors(d);
    assert sys[0] == FREE_MAP_SECTOR && sys[1] == DIRECTORY_SECTOR;
    if x.sector == DIRECTORY_SECTOR {
      assert LayoutOf(d).system == sys;
      SystemApart(d);
    }
    hide Splice, FileBytes, FreeBits, Root;
  }

  function BlankHeader(): (h: Header)
    ensures WellSized(h)
  {
    Header(0, 0, seq(NUM_DIRECT, _ => 0))
  }

  class FileSystem {
    const disk: SynchDisk
    const freeMapFile: OpenFile
    const directoryFile: OpenFile
    const fileTable: OpenFileTable

    /** The headers of the two open files are those on the disk. */
    ghost predicate Mounted()
      reads disk
    {
      && freeMapFile.disk == disk && directoryFile.disk == disk
      && Mountable(disk.sectors)
      && freeMapFile.hdr == HeaderAt(disk.sectors, FREE_MAP_SECTOR)
      && directoryFile.hdr == HeaderAt(disk.sectors, DIRECTORY_SECTOR)
    }

    /** And the table holds files of this disk. */
    ghost predicate Ready()
      reads disk, fileTable, fileTable.table
    {
      Mounted() && fileTable.Valid() && forall f :: f in OpenFilesOf(fileTable.table[..]) ==> f.disk == disk
    }

    ghost function Now(): State
      reads disk, fileTable.table, OpenFilesOf(fileTable.table[..])
    {
      State(disk.sectors, fileTable.View())
    }

    /** Opens the two system files, which stay open, and starts with an empty table. */
    constructor (disk: SynchDisk)
      requires Mountable(disk.sectors)
      ensures this.disk == disk && Ready() && fileTable.View() == seq(NB_FILE_TABLE_ENTRIES, _ => Closed)
      ensures fresh(freeMapFile) && fresh(directoryFile) && freeMapFile.seekPosition == 0 == directoryFile.seekPosition
      ensures fresh(fileTable) && fresh(fileTable.table) && OpenFilesOf(fileTable.table[..]) == {}
    {
      var mapFile := new OpenFile(disk, FREE_MAP_SECTOR);
      var rootFile := new OpenFile(disk, DIRECTORY_SECTOR);
      var slots := new OpenFileTable();
      this.disk, freeMapFile, directoryFile, fileTable := disk, mapFile, rootFile, slots;
      new;
      assert forall k :: 0 <= k < slots.table.Length ==> slots.View()[k] == Closed;
    }

    method StoreMap(freeMap: BitMap)
      requires Mounted() && Distinct(SystemSectors(disk.sectors)) && freeMap.Valid() && freeMap.numBits == NUM_SECTORS
      modifies disk
      ensures Mounted() && FreeBits(disk.sectors) == freeMap.Bits() && Root(disk.sectors) == Root(old(disk.sectors))
      ensures MapMeta(disk.sectors) == MapMeta(old(disk.sectors))
        && RootMeta(disk.sectors) == RootMeta(old(disk.sectors))
      ensures disk.sectors[0] == old(disk.sectors[0]) && disk.sectors[1] == old(disk.sectors[1])
      ensures forall s :: 0 <= s < NUM_SECTORS && s !in MapMeta(old(disk.sectors)).data ==>
        disk.sectors[s] == old(disk.sectors[s])
    {
      ghost var d := disk.sectors;
      WriteMap(freeMap, freeMapFile);
      MapWriteKeeps(d, disk.sectors);
    }

    method StoreDirectory(directory: Directory)
      requires Mounted() && Distinct(SystemSectors(disk.sectors)) && directory.Valid()
      modifies disk
      ensures Mounted() && Root(disk.sectors) == directory.table
        && FreeBits(disk.sectors) == FreeBits(old(disk.sectors))
      ensures MapMeta(disk.sectors) == MapMeta(old(disk.sectors))
        && RootMeta(disk.sectors) == RootMeta(old(disk.sectors))
      ensures disk.sectors[0] == old(disk.sectors[0]) && disk.sectors[1] == old(disk.sectors[1])
      ensures forall s :: 0 <= s < NUM_SECTORS && s !in RootMeta(old(disk.sectors)).data ==>
        disk.sectors[s] == old(disk.sectors[s])
    {
      ghost var d := disk.sectors;
      directory.WriteBack(directoryFile);
      RootWriteKeeps(d, disk.sectors);
    }

    /** Flushes a new header, the directory and the free map, in this order. */
    method FlushAll(hdr: FileHeader, sector: nat, directory: Directory, freeMap: BitMap)
      requires Mounted() && Distinct(SystemSectors(disk.sectors)) && sector < NUM_SECTORS
        && sector !in SystemSectors(disk.sectors)
      requires hdr.Valid() && directory.Valid() && freeMap.Valid() && freeMap.numBits == NUM_SECTORS
      modifies disk
      ensures Mounted() && Updated(old(disk.sectors), disk.sectors, [sector], freeMap.Bits(), directory.table)
      ensures HeaderAt(disk.sectors, sector) == hdr.View()
    {
      ghost var d := disk.sectors;
      hdr.WriteBack(disk, sector);
      ghost var e := disk.sectors;
      OtherSectorKeeps(d, e, sector);
      StoreDirectory(directory);
      ghost var g := disk.sectors;
      StoreMap(freeMap);
      BothWritten(d, e, disk.sectors, [sector], freeMap.Bits(), directory.table);
      HeaderSectorSafe(d, sector);
    }

    /** Takes the header sector, the directory entry and the data sectors, in memory. */
    method Reserve(name: seq<Byte>, initialSize: nat, directory: Directory, freeMap: BitMap, hdr: FileHeader)
      returns (ok: bool, sector: int)
      requires directory.Valid() && Lookup(directory.table, name) == -1 && freeMap.Valid()
        && freeMap.numBits == NUM_SECTORS
      requires hdr.Valid() && SafeSize(freeMap.Bits(), directory.table, name, initialSize)
      modifies directory, freeMap.words, hdr
      ensures ok <==> CanCreate(old(freeMap.Bits()), old(directory.table), name, initialSize)
      ensures ok ==>
        var bits, t := old(freeMap.Bits()), old(directory.table); var slot := FreeSlot(t);
        && sector == FirstClear(bits) != -1 && slot != -1
        && directory.Valid() && directory.table == t[slot := NewEntry(t[slot], name, false, sector)]
        && freeMap.Bits() == NewData(bits, initialSize).bits
        && hdr.Valid() && ValidHeader(hdr.View())
          && MetaOf(hdr.View()) == Meta(initialSize, NewData(bits, initialSize).sectors)
    {
      ghost var bits := freeMap.Bits();
      hide BitsOf, TakeSectors, CountClear, NewEntry, FirstClear, Lookup, FreeSlot;
      CountClearZero(bits);
      sector := freeMap.Find();
      if sector == -1 { return false, sector; }
      CountClearUpdate(bits, sector, true);
      var added := directory.AddFile(name, sector);
      if !added { return false, sector; }
      ok := hdr.Allocate(freeMap, initialSize);
      if ok { NewHeaderValid(bits, initialSize, hdr.View()); }
    }

    /** The part of CreateFileInCurrentDirectory that works in memory. */
    method PrepareFile(name: seq<Byte>, initialSize: nat)
      returns (ok: bool, sector: int, directory: Directory, freeMap: BitMap, hdr: FileHeader)
      requires Mounted() && SafeSize(FreeBits(disk.sectors), Root(disk.sectors), name, initialSize)
      ensures fresh(directory) && fresh(freeMap) && fresh(freeMap.words) && fresh(hdr)
      ensures ok <==> CanCreate(FreeBits(disk.sectors), Root(disk.sectors), name, initialSize)
      ensures ok ==>
        var bits, t := FreeBits(disk.sectors), Root(disk.sectors); var slot := FreeSlot(t);
        && sector == FirstClear(bits) != -1 && slot != -1
        && directory.Valid() && directory.table == t[slot := NewEntry(t[slot], name, false, sector)]
        && freeMap.Valid() && freeMap.numBits == NUM_SECTORS && freeMap.Bits() == NewData(bits, initialSize).bits
        && hdr.Valid() && ValidHeader(hdr.View())
          && MetaOf(hdr.View()) == Meta(initialSize, NewData(bits, initialSize).sectors)
    {
      directory := new Directory(BlankTable());
      freeMap := new BitMap(NUM_SECTORS);
      hdr := new FileHeader(BlankHeader());
      directory.FetchFrom(directoryFile);
      assert directory.table == Root(disk.sectors);
      var known := directory.FindIndex(name);
      if known != -1 { return false, -1, directory, freeMap, hdr; }
      FetchMap(freeMap, freeMapFile);
      assert freeMap.Bits() == FreeBits(disk.sectors);
      hide FreeBits, Root, Mountable, BitsOf, NewData, NewEntry, ValidHeader, MetaOf, Lookup, FreeSlot, FirstClear;
      ok, sector := Reserve(name, initialSize, directory, freeMap, hdr);
    }

    method CreateFile(name: seq<Byte>, initialSize: nat) returns (success: bool)
      requires Mounted() && Consistent(disk.sectors)
      requires SafeSize(FreeBits(disk.sectors), Root(disk.sectors), name, initialSize)
      modifies disk
      ensures Mounted() && Consistent(disk.sectors)
      ensures success <==> CanCreate(FreeBits(old(disk.sectors)), Root(old(disk.sectors)), name, initialSize)
      ensures !success ==> disk.sectors == old(disk.sectors)
      ensures success ==> Created(old(disk.sectors), disk.sectors, name, initialSize)
    {
      ghost var d := disk.sectors;
      var ok, sector, directory, freeMap, hdr := PrepareFile(name, initialSize);
      if !ok { return false; }
      ClearSectorNotSystem(d, sector);
      FlushAll(hdr, sector, directory, freeMap);
      CreateKeepsConsistent(d, disk.sectors, name, initialSize);
      return true;
    }

    /** The header in a sector and the free map, brought into memory. */
    method FetchFor(sector: nat) returns (hdr: FileHeader, freeMap: BitMap)
      requires Mounted() && sector < NUM_SECTORS
      ensures fresh(hdr) && fresh(freeMap) && fresh(freeMap.words)
      ensures hdr.Valid() && hdr.View() == HeaderAt(disk.sectors, sector)
      ensures freeMap.Valid() && freeMap.numBits == NUM_SECTORS && freeMap.Bits() == FreeBits(disk.sectors)
    {
      hdr := new FileHeader(BlankHeader());
      hdr.FetchFrom(disk, sector);
      freeMap := new BitMap(NUM_SECTORS);
      FetchMap(freeMap, freeMapFile);
    }

    /** RemoveFileInCurrentDirectory, for whatever name; see RemoveKeepsOwnershipIff for "." and "..". */
    method RemoveFile(name: seq<Byte>) returns (success: bool)
      requires Mounted() && Consistent(disk.sectors)
      modifies disk
      ensures Mounted() && (success <==> Lookup(Root(old(disk.sectors)), name) != -1)
      ensures !success ==> disk.sectors == old(disk.sectors)
      ensures success ==> Removed(old(disk.sectors), disk.sectors, name)
      ensures OrdinaryName(name) ==> Consistent(disk.sectors)
    {
      ghost var d := disk.sectors;
      var directory := new Directory(BlankTable());
      directory.FetchFrom(directoryFile);
      assert directory.table == Root(d);
      var i := directory.FindIndex(name);
      if i == -1 { return false; }
      var sector := directory.table[i].sector;
      EntrySectorsMarked(d, i);
      hide Removed, Owns, LayoutOf, Root, FreeBits, Lookup, Key, BitsOf;
      var hdr, freeMap := FetchFor(sector);
      FreeAndFlush(name, directory, freeMap, hdr, sector);
      OrdinaryLookup(d, name);
      if OrdinaryName(name) { RemoveKeepsConsistent(d, disk.sectors, name); }
      return true;
    }

    /** Deallocate the data, clear the header's bit, take the entry out, and flush. */
    method FreeAndFlush(name: seq<Byte>, directory: Directory, freeMap: BitMap, hdr: FileHeader, sector: nat)
      requires Mounted() && Distinct(SystemSectors(disk.sectors))
      requires directory.Valid() && directory.table == Root(disk.sectors) && Lookup(Root(disk.sectors), name) != -1
      requires sector < NUM_SECTORS && sector == Root(disk.sectors)[Lookup(Root(disk.sectors), name)].sector
      requires freeMap.Valid() && freeMap.numBits == NUM_SECTORS && freeMap.Bits() == FreeBits(disk.sectors)
      requires hdr.Valid() && hdr.View() == HeaderAt(disk.sectors, sector) && ValidHeader(hdr.View())
      requires AllMarked(freeMap.Bits(), MetaOf(hdr.View()).data)
      modifies disk, directory, freeMap.words
      ensures Mounted() && Removed(old(disk.sectors), disk.sectors, name)
    {
      ghost var d, t := disk.sectors, directory.table;
      hide FreeBits, Root, BitsOf, ClearAll, Lookup;
      hdr.Deallocate(freeMap);
      freeMap.Clear(sector);
      ghost var bits := freeMap.Bits();
      var gone := directory.Remove(name);
      ghost var u := directory.table;
      StoreMap(freeMap);
      assert SystemSectors(disk.sectors) == SystemSectors(d);
      StoreDirectory(directory);
      BothWritten(d, d, disk.sectors, [], bits, u);
    }

    /** OpenInCurrentDirectory: whatever name the directory holds, "." and ".." included. */
    method Open(name: seq<Byte>, mode: char) returns (id: int)
      requires Ready() && Sound(Now())
      modifies fileTable, fileTable.table
      ensures Ready() && Sound(Now()) && Next(old(Now()), Op.Open(name, mode), Now())
      ensures var i := Lookup(Root(old(disk.sectors)), name);
        id == if i == -1 then -1 else OpenedAt(old(fileTable.View()), Root(old(disk.sectors))[i].sector)
      ensures forall f :: f in OpenFilesOf(fileTable.table[..]) ==>
        f in old(OpenFilesOf(fileTable.table[..])) || fresh(f)
    {
      ghost var s := Now();
      RootEntries(disk.sectors, name);
      assert DecodeTable(directoryFile.Content()) == Root(disk.sectors);
      hide Sound, Consistent, Root, DecodeTable, FileBytes, Lookup, FindSlot, FreeSlotIn, Taken, CountClear;
      SoundFacts(s);
      id := fileTable.Open(name, mode, directoryFile);
      OpenKeepsSound(s, name, mode);
    }

    method Close(i: nat) returns (result: int)
      requires Ready() && Sound(Now()) && i < NB_FILE_TABLE_ENTRIES
      modifies fileTable, fileTable.table
      ensures Ready() && Sound(Now()) && Next(old(Now()), Op.Close(i), Now())
      ensures result == if old(fileTable.View())[i].Opened? then 0 else -1
    {
      ghost var s := Now();
      result := fileTable.Close(i);
      CloseKeepsSound(s, i);
    }

    /** Read through the table: what the header in the slot lists, cut off at its length. */
    method Read(i: int, numBytes: int) returns (result: int, into: seq<Byte>)
      requires Ready() && Sound(Now())
      modifies OpenFilesOf(fileTable.table[..])
      ensures Ready() && Sound(Now()) && Next(old(Now()), Op.Read(i, numBytes), Now())
      ensures result == Transferred(old(fileTable.View()), i, 'r', numBytes)
      ensures result != -1 ==> Delivers(disk.sectors, old(fileTable.View())[i], numBytes, into)
    {
      ghost var s := Now();
      var entry := fileTable.Get(i);
      if entry == null || entry.mode != 'r' { return -1, []; }
      SoundFacts(s);
      assert Fetched(s.disk, s.open[i]);
      hide Sound, Consistent, Mountable, Apart, SystemSectors, ReadSpec, FileBytes, Taken, CountClear;
      into := fileTable.ReadEntry(i, numBytes);
      result := |into|;
      MovedKeepsSound(s, i, result);
    }

    /** Write through the table; the header in the slot may be older than the disk. */
    method Write(i: int, from: seq<Byte>) returns (result: int)
      requires Ready() && Sound(Now())
      modifies disk, OpenFilesOf(fileTable.table[..])
      ensures Ready() && Next(old(Now()), Op.Write(i, from), Now())
      ensures Harmless(old(Now()), Op.Write(i, from)) ==> Sound(Now())
      ensures result == Transferred(old(fileTable.View()), i, 'w', |from|)
    {
      var entry := fileTable.Get(i);
      if entry == null || entry.mode != 'w' { return -1; }
      hide Sound, Consistent, Mountable, Harmless, Next, Transfer, Taken, CountClear, HeaderAt;
      result := WriteOpen(i, from);
    }

    /** The slot is open for writing. */
    method WriteOpen(i: nat, from: seq<Byte>) returns (result: int)
      requires Ready() && Sound(Now()) && OpenFor(fileTable.View(), i, 'w')
      modifies disk, OpenFilesOf(fileTable.table[..])
      ensures Ready() && Next(old(Now()), Op.Write(i, from), Now())
      ensures Harmless(old(Now()), Op.Write(i, from)) ==> Sound(Now())
      ensures result == Transferred(old(fileTable.View()), i, 'w', |from|)
    {
      ghost var s := Now();
      SlotValid(s, i);
      hide Sound, Consistent, Mountable, HeaderAt, Spliced, Taken, CountClear, Harmless, Next, Transfer;
      result := fileTable.WriteEntry(i, from);
      AfterWrite(s, i, from, Now());
    }
  }

  lemma SlotValid(s: State, id: nat)
    requires Sound(s) && id < |s.open| && s.open[id].Opened?
    ensures WellFormed(s.disk) && ValidHeader(s.open[id].hdr)
  {
    SoundFacts(s);
    assert Fetched(s.disk, s.open[id]);
  }

  lemma AfterWrite(s: State, id: nat, data: seq<Byte>, t: State)
    requires Sound(s) && OpenFor(s.open, id, 'w') && WellFormed(s.disk) && ValidHeader(s.open[id].hdr)
    requires Spliced(s.disk, t.disk, MetaOf(s.open[id].hdr), s.open[id].position, data)
    requires t.open == Advanced(s.open, id, |data|)
    ensures Next(s, Op.Write(id, data), t) && (Harmless(s, Op.Write(id, data)) ==> Sound(t))
    ensures Mountable(t.disk) && WellFormed(t.disk)
    ensures HeaderAt(t.disk, FREE_MAP_SECTOR) == HeaderAt(s.disk, FREE_MAP_SECTOR)
    ensures HeaderAt(t.disk, DIRECTORY_SECTOR) == HeaderAt(s.disk, DIRECTORY_SECTOR)
  {
    hide Sound, Harmless, ValidHeader, Splice, FileBytes;
    SoundFacts(s);
    StillMounted(s, id, s.open[id].position, data, t.disk);
    if Harmless(s, Op.Write(id, data)) { NextKeepsSound(s, Op.Write(id, data), t); }
  }

  lemma RootEntries(d: Disk, name: seq<Byte>)
    requires Consistent(d)
    ensures var i := Lookup(Root(d), name); i != -1 ==> Root(d)[i].sector < NUM_SECTORS
  {
    var i := Lookup(Root(d), name);
    if i != -1 { assert SoundEntry(d, Root(d), i); }
  }

  // ---- Formatting ----

  lemma SpecialNamesDiffer()
    ensures Key(DOT) != Key(DOT_DOT)
  {
    assert PaddedFrom(DOT, 1, 8)[0] == 0;
    assert PaddedFrom(DOT_DOT, 1, 8)[0] == DOT_DOT[1];
    assert Key(DOT)[1] == PaddedFrom(DOT, 1, 8)[0];
    assert Key(DOT_DOT)[1] == PaddedFrom(DOT_DOT, 1, 8)[0];
  }

  /** The marked bits are exactly the given sectors, all different. */
  ghost predicate MarksExactly(bits: seq<bool>, sectors: seq<nat>) {
    Distinct(sectors) && Below(sectors, |bits|) && forall s: nat :: s < |bits| ==> (bits[s] <==> s in sectors)
  }

  lemma TakeGrows(bits: seq<bool>, sectors: seq<nat>, n: nat)
    requires MarksExactly(bits, sectors) && n <= CountClear(bits)
    ensures var a := TakeSectors(bits, n);
      |a.sectors| == n && MarksExactly(a.bits, sectors + a.sectors) && CountClear(a.bits) == CountClear(bits) - n
      && Distinct(a.sectors) && Below(a.sectors, |bits|)
  {
    TakeSectorsTakes(bits, n);
    var a := TakeSectors(bits, n);
    hide TakeSectors, CountClear;
    var all := sectors + a.sectors;
    forall i, j | 0 <= i < j < |all| ensures all[i] != all[j] {
      if i < |sectors| <= j { assert bits[sectors[i]] && !bits[a.sectors[j - |sectors|]]; }
    }
    forall s: nat | s < |bits| ensures a.bits[s] <==> s in all {
      assert s in all <==> s in sectors || s in a.sectors;
    }
  }

  lemma FormatCounts(bits: seq<bool>)
    requires |bits| == NUM_SECTORS && MarksExactly(bits, [FREE_MAP_SECTOR, DIRECTORY_SECTOR])
    ensures CountClear(bits) == NUM_SECTORS - 2
  {
    var one := bits[FREE_MAP_SECTOR := false];
    assert [FREE_MAP_SECTOR, DIRECTORY_SECTOR][0] == FREE_MAP_SECTOR
      && [FREE_MAP_SECTOR, DIRECTORY_SECTOR][1] == DIRECTORY_SECTOR;
    AllClear(one[DIRECTORY_SECTOR := false]);
    CountClearUpdate(bits, FREE_MAP_SECTOR, false);
    CountClearUpdate(one, DIRECTORY_SECTOR, false);
  }

  /** A table with "." and ".." and nothing else. */
  ghost predicate SpecialTable(t: Table) {
    && |t| == NUM_DIR_ENTRIES
    && (forall i :: 0 <= i < 2 ==>
      InUse(t[i]) && t[i].isDirectory != 0 && t[i].sector == DIRECTORY_SECTOR && KeyOf(t[i]) == Key(SpecialName(i)))
    && (forall i :: 2 <= i < |t| ==> !InUse(t[i]))
  }

  lemma SpecialTableFormats(d: Disk)
    requires Mountable(d) && SpecialTable(Root(d)) && MarksExactly(FreeBits(d), SystemSectors(d))
    ensures Formatted(d)
  {
    hide Root, FreeBits, SystemSectors;
    SpecialNamesDiffer();
    var t := Root(d);
    hide Key;
    assert DistinctKeys(t) by {
      forall i, j | 0 <= i < j < |t| && InUse(t[i]) && InUse(t[j]) ensures KeyOf(t[i]) != KeyOf(t[j]) {
        assert i == 0 && j == 1;
      }
    }
    assert forall i :: 0 <= i < NUM_DIR_ENTRIES ==> SoundEntry(d, t, i);
    var lay := LayoutOf(d);
    assert forall i :: 0 <= i < |lay.files| ==> lay.files[i] == [];
    assert Owns(FreeBits(d), lay);
  }

  /** The format branch of the constructor, up to the first write to the disk. */
  method PlanFormat(junk: Table) returns (freeMap: BitMap, directory: Directory, mapHdr: FileHeader, dirHdr: FileHeader)
    requires |junk| == NUM_DIR_ENTRIES && WellFormedTable(junk)
    ensures fresh(freeMap) && fresh(freeMap.words) && fresh(directory) && fresh(mapHdr) && fresh(dirHdr)
      && mapHdr != dirHdr
    ensures freeMap.Valid() && freeMap.numBits == NUM_SECTORS && directory.Valid() && SpecialTable(directory.table)
    ensures mapHdr.Valid() && ValidHeader(mapHdr.View()) && mapHdr.numBytes == MAP_FILE_SIZE
    ensures dirHdr.Valid() && ValidHeader(dirHdr.View()) && dirHdr.numBytes == DIRECTORY_FILE_SIZE
    ensures MarksExactly(freeMap.Bits(),
      [FREE_MAP_SECTOR, DIRECTORY_SECTOR] + MetaOf(mapHdr.View()).data + MetaOf(dirHdr.View()).data)
  {
    directory := new Directory(junk);
    var added := directory.AddSpecialDir(DIRECTORY_SECTOR, DIRECTORY_SECTOR);
    assert SpecialTable(directory.table);
    freeMap, mapHdr, dirHdr := PlanSectors();
  }

  method PlanSectors() returns (freeMap: BitMap, mapHdr: FileHeader, dirHdr: FileHeader)
    ensures fresh(freeMap) && fresh(freeMap.words) && fresh(mapHdr) && fresh(dirHdr) && mapHdr != dirHdr
    ensures freeMap.Valid() && freeMap.numBits == NUM_SECTORS
    ensures mapHdr.Valid() && ValidHeader(mapHdr.View()) && mapHdr.numBytes == MAP_FILE_SIZE
    ensures dirHdr.Valid() && ValidHeader(dirHdr.View()) && dirHdr.numBytes == DIRECTORY_FILE_SIZE
    ensures MarksExactly(freeMap.Bits(),
      [FREE_MAP_SECTOR, DIRECTORY_SECTOR] + MetaOf(mapHdr.View()).data + MetaOf(dirHdr.View()).data)
  {
    freeMap := new BitMap(NUM_SECTORS);
    mapHdr := new FileHeader(BlankHeader());
    dirHdr := new FileHeader(BlankHeader());
    freeMap.Mark(FREE_MAP_SECTOR);
    freeMap.Mark(DIRECTORY_SECTOR);
    ghost var bits := freeMap.Bits();
    hide BitsOf, TakeSectors, CountClear;
    assert MarksExactly(bits, [FREE_MAP_SECTOR, DIRECTORY_SECTOR]);
    FormatCounts(bits);
    TakeGrows(bits, [FREE_MAP_SECTOR, DIRECTORY_SECTOR], DivRoundUp(MAP_FILE_SIZE, SECTOR_SIZE));
    var enough := mapHdr.Allocate(freeMap, MAP_FILE_SIZE);
    assert enough;
    ghost var after := freeMap.Bits();
    TakeGrows(after, [FREE_MAP_SECTOR, DIRECTORY_SECTOR] + MetaOf(mapHdr.View()).data,
      DivRoundUp(DIRECTORY_FILE_SIZE, SECTOR_SIZE));
    enough := dirHdr.Allocate(freeMap, DIRECTORY_FILE_SIZE);
    assert enough;
  }

  /** FileSystem(TRUE): whatever was on the disk, it ends up consistent and without files. */
  method Format(disk: SynchDisk, junk: Table) returns (fs: FileSystem)
    requires WellFormed(disk.sectors) && |junk| == NUM_DIR_ENTRIES && WellFormedTable(junk)
    modifies disk
    ensures fresh(fs) && fs.disk == disk && fs.Ready() && Formatted(disk.sectors) && Starts(fs.Now())
    ensures fresh(fs.fileTable) && fresh(fs.fileTable.table) && OpenFilesOf(fs.fileTable.table[..]) == {}
  {
    var freeMap, directory, mapHdr, dirHdr := PlanFormat(junk);
    mapHdr.WriteBack(disk, FREE_MAP_SECTOR);
    dirHdr.WriteBack(disk, DIRECTORY_SECTOR);
    ghost var d := disk.sectors;
    assert HeaderAt(d, FREE_MAP_SECTOR) == mapHdr.View() && HeaderAt(d, DIRECTORY_SECTOR) == dirHdr.View();
    assert Mountable(d);
    ghost var sys := SystemSectors(d);
    fs := new FileSystem(disk);
    hide FreeBits, Root, BitsOf;
    fs.StoreMap(freeMap);
    assert SystemSectors(disk.sectors) == sys;
    fs.StoreDirectory(directory);
    assert SystemSectors(disk.sectors) == sys;
    SpecialTableFormats(disk.sectors);
  }

  // ---- A file that is removed while it is open ----

  const NAME_A: seq<Byte> := ['a' as Byte]
  const NAME_B: seq<Byte> := ['b' as Byte]
  const NAME_C: seq<Byte> := ['c' as Byte]

  lemma OrdinaryNames()
    ensures OrdinaryName(NAME_A) && OrdinaryName(NAME_B) && OrdinaryName(NAME_C) && Key(NAME_B) != Key(NAME_C)
  {
    assert Key(DOT)[0] == DOT[0] && Key(DOT_DOT)[0] == DOT_DOT[0];
    assert Key(NAME_A)[0] == NAME_A[0] && Key(NAME_B)[0] == NAME_B[0] && Key(NAME_C)[0] == NAME_C[0];
  }

  /** One step of a caller: what CreateFile ensures is a step of a run. */
  method CreateStep(fs: FileSystem, name: seq<Byte>, size: nat)
    requires fs.Ready() && Sound(fs.Now()) && size <= MAX_FILE_SIZE
    modifies fs.disk
    ensures fs.Ready() && Sound(fs.Now()) && Next(old(fs.Now()), Op.Create(name, size), fs.Now())
  {
    ghost var s := fs.Now();
    SoundFacts(s);
    hide Sound, Consistent, Mountable, CanCreate, Created, FreeBits, Root;
    var success := fs.CreateFile(name, size);
    assert fs.fileTable.View() == s.open;
    CreateKeepsSound(s, name, size, fs.Now());
  }

  method RemoveStep(fs: FileSystem, name: seq<Byte>)
    requires fs.Ready() && Sound(fs.Now()) && OrdinaryName(name)
    modifies fs.disk
    ensures fs.Ready() && Sound(fs.Now()) && Next(old(fs.Now()), Op.Remove(name), fs.Now())
  {
    ghost var s := fs.Now();
    SoundFacts(s);
    hide Sound, Consistent, Mountable, Removed, Root, Lookup, Key;
    var success := fs.RemoveFile(name);
    assert fs.fileTable.View() == s.open;
    RemoveKeepsSound(s, name, fs.Now());
  }

  /** The first three operations: the file is gone, and open. */
  method OpenThenRemove(fs: FileSystem) returns (ghost run: seq<State>, ghost ops: seq<Op>)
    requires fs.Ready() && Starts(fs.Now()) && OpenFilesOf(fs.fileTable.table[..]) == {}
    modifies fs.disk, fs.fileTable, fs.fileTable.table
    ensures fs.Ready() && Sound(fs.Now()) && IsRun(run, ops) && |run| == |ops| + 1 && run[|ops|] == fs.Now()
    ensures ops == [Op.Create(NAME_A, 4), Op.Open(NAME_A, 'w'), Op.Remove(NAME_A)]
    ensures fresh(OpenFilesOf(fs.fileTable.table[..]))
  {
    hide Sound, Consistent, Mountable, Next, Key, IsRun, Starts, Taken, CountClear;
    OrdinaryNames();
    StartsSound(fs.Now());
    run, ops := RunStarts(fs.Now());
    CreateStep(fs, NAME_A, 4);
    run, ops := RunExtends(run, ops, Op.Create(NAME_A, 4), fs.Now());
    var id := fs.Open(NAME_A, 'w');
    run, ops := RunExtends(run, ops, Op.Open(NAME_A, 'w'), fs.Now());
    RemoveStep(fs, NAME_A);
    run, ops := RunExtends(run, ops, Op.Remove(NAME_A), fs.Now());
  }

  /** The other three: the second new file has its header where the open file has its data. */
  method ReuseThenWrite(fs: FileSystem, ghost before: seq<State>, ghost done: seq<Op>)
    requires fs.Ready() && Sound(fs.Now()) && IsRun(before, done) && |before| == |done| + 1
      && before[|done|] == fs.Now()
    requires done == [Op.Create(NAME_A, 4), Op.Open(NAME_A, 'w'), Op.Remove(NAME_A)]
    modifies fs.disk, OpenFilesOf(fs.fileTable.table[..])
    ensures !Consistent(fs.disk.sectors)
  {
    hide Sound, Consistent, Mountable, Next, Key, IsRun, Starts, Taken, CountClear;
    OrdinaryNames();
    ghost var run, ops := before, done;
    CreateStep(fs, NAME_B, 0);
    run, ops := RunExtends(run, ops, Op.Create(NAME_B, 0), fs.Now());
    CreateStep(fs, NAME_C, 0);
    run, ops := RunExtends(run, ops, Op.Create(NAME_C, 0), fs.Now());
    var result := fs.Write(0, [255, 255, 255, 255]);
    run, ops := RunExtends(run, ops, Op.Write(0, [255, 255, 255, 255]), fs.Now());
    assert ops == RemovedWhileOpen(NAME_A, NAME_B, NAME_C);
    RemovedWhileOpenSpoils(run, NAME_A, NAME_B, NAME_C);
  }

  /** The run of RemovedWhileOpenSpoils on any disk, from formatting to the write that spoils it. */
  method RemoveWhileOpen(disk: SynchDisk, junk: Table) returns (fs: FileSystem)
    requires WellFormed(disk.sectors) && |junk| == NUM_DIR_ENTRIES && WellFormedTable(junk)
    modifies disk
    ensures fs.disk == disk && !Consistent(disk.sectors)
  {
    hide Sound, Consistent, Mountable, IsRun, Starts, Formatted, Taken, CountClear;
    fs := Format(disk, junk);
    ghost var run, ops := OpenThenRemove(fs);
    ReuseThenWrite(fs, run, ops);
  }

  lemma RunStarts(s: State) returns (run: seq<State>, ops: seq<Op>)
    requires Starts(s)
    ensures run == [s] && ops == [] && IsRun(run, ops)
  {
    run, ops := [s], [];
  }

  lemma RunExtends(run: seq<State>, ops: seq<Op>, op: Op, t: State) returns (longer: seq<State>, more: seq<Op>)
    requires IsRun(run, ops) && |run| == |ops| + 1 && Sound(run[|ops|]) && Next(run[|ops|], op, t)
    ensures longer == run + [t] && more == ops + [op] && IsRun(longer, more)
  {
    hide Sound, Next, Starts;
    longer, more := run + [t], ops + [op];
    forall k | 0 <= k < |more| ensures Follows(longer[k], more[k], longer[k + 1]) {
      if k < |ops| { assert Follows(run[k], ops[k], run[k + 1]); }
    }
  }
}
