/** Every run of creating, removing, opening, closing, reading and writing files: who owns which sector,
    and what a file that stays open over its removal may do. */
module FileSystemRuns {
  import opened Memory
  import opened BitMaps
  import opened Storage
  import opened OpenFiles
  import opened FileHeaders
  import opened Directories
  import opened OpenTables
  import opened FileSystems
  import opened FileSystemSteps
  import opened FileMaps

  /** The disk, and the open files with the headers that they were opened with. */
  datatype State = State(disk: Disk, open: Slots)

  datatype Op =
    | Create(name: seq<Byte>, size: nat)
    | Remove(name: seq<Byte>)
    | Open(name: seq<Byte>, mode: char)
    | Close(id: int)
    | Read(id: int, numBytes: int)
    | Write(id: int, data: seq<Byte>)

  // ---- What an operation does ----

  /** The header was fetched from the directory, or from a file whose sectors were not the system's. */
  ghost predicate Fetched(d: Disk, x: Slot)
    requires WellFormed(d)
  {
    x.Opened? ==>
      && x.sector < NUM_SECTORS && ValidHeader(x.hdr)
      && if x.sector == DIRECTORY_SECTOR then x.hdr == HeaderAt(d, DIRECTORY_SECTOR)
         else x.sector !in SystemSectors(d) && Apart(d, MetaOf(x.hdr))
  }

  ghost predicate Sound(s: State) {
    && Consistent(s.disk)
    && |s.open| == NB_FILE_TABLE_ENTRIES
    && forall id :: 0 <= id < |s.open| ==> Fetched(s.disk, s.open[id])
  }

  ghost predicate NextCreate(d: Disk, name: seq<Byte>, size: nat, e: Disk)
    requires Consistent(d)
  {
    SafeSize(FreeBits(d), Root(d), name, size) &&
    if CanCreate(FreeBits(d), Root(d), name, size) then Created(d, e, name, size) else e == d
  }

  /** The table of open files is not looked at. */
  ghost predicate NextRemove(d: Disk, name: seq<Byte>, e: Disk)
    requires Consistent(d)
  {
    if Lookup(Root(d), name) == -1 then e == d else Removed(d, e, name)
  }

  function HeaderOfEntry(d: Disk, i: nat): (h: Header)
    requires Consistent(d) && i < NUM_DIR_ENTRIES && InUse(Root(d)[i])
    ensures ValidHeader(h)
  {
    assert SoundEntry(d, Root(d), i);
    HeaderAt(d, Root(d)[i].sector)
  }

  ghost function AfterOpen(s: State, name: seq<Byte>, mode: char): Slots
    requires Consistent(s.disk)
  {
    var i := Lookup(Root(s.disk), name);
    if i == -1 then s.open else WithOpened(s.open, Root(s.disk)[i].sector, mode, HeaderOfEntry(s.disk, i))
  }

  /** Reads and writes move the position by what they transfer. */
  function Advanced(slots: Slots, id: nat, n: int): Slots
    requires id < |slots| && slots[id].Opened?
  {
    Moved(slots, id, Transfer(slots[id].hdr.numBytes, n, slots[id].position))
  }

  ghost predicate NextWrite(s: State, id: int, data: seq<Byte>, t: State)
    requires Sound(s)
  {
    if !OpenFor(s.open, id, 'w') then t == s
    else
      var x := s.open[id];
      assert Fetched(s.disk, x);
      Spliced(s.disk, t.disk, MetaOf(x.hdr), x.position, data) && t.open == Advanced(s.open, id, |data|)
  }

  ghost predicate Next(s: State, op: Op, t: State)
    requires Sound(s)
  {
    match op
    case Create(name, size) => NextCreate(s.disk, name, size, t.disk) && t.open == s.open
    case Remove(name) => NextRemove(s.disk, name, t.disk) && t.open == s.open
    case Open(name, mode) => t == s.(open := AfterOpen(s, name, mode))
    case Close(id) => 0 <= id < |s.open| && t == s.(open := s.open[id := Closed])
    case Read(id, n) => t == if OpenFor(s.open, id, 'r') then s.(open := Advanced(s.open, id, n)) else s
    case Write(id, data) => NextWrite(s, id, data, t)
  }

  // ---- Which operations keep the disk consistent ----

  /** A removal of neither "." nor ".."; a write through a header none of whose sectors is by now the
      header of a file or the system's; and every other operation. */
  ghost predicate Harmless(s: State, op: Op) {
    Sound(s) ==>
      match op
      case Remove(name) => Lookup(Root(s.disk), name) == -1 || OrdinaryName(name)
      case Write(id, _) => OpenFor(s.open, id, 'w') ==> Unclaimed(s.disk, MetaOf(s.open[id].hdr))
      case _ => true
  }

  lemma SoundFacts(s: State)
    requires Sound(s)
    ensures Consistent(s.disk) && Mountable(s.disk) && WellFormed(s.disk)
    ensures |s.open| == NB_FILE_TABLE_ENTRIES && forall id :: 0 <= id < |s.open| ==> Fetched(s.disk, s.open[id])
  {}

  /** Operations that leave the headers of the system alone do not change what the open files are. */
  lemma FetchedStays(d: Disk, e: Disk, x: Slot)
    requires Mountable(d) && Mountable(e) && WellFormed(d) && WellFormed(e) && Fetched(d, x)
    requires e[FREE_MAP_SECTOR] == d[FREE_MAP_SECTOR] && e[DIRECTORY_SECTOR] == d[DIRECTORY_SECTOR]
    ensures Fetched(e, x)
  {
    SameSystem(d, e);
    hide SystemSectors, ValidHeader;
  }

  lemma SoundAfter(s: State, t: State)
    requires Sound(s) && Consistent(t.disk) && t.open == s.open && WellFormed(s.disk) && WellFormed(t.disk)
    requires t.disk[FREE_MAP_SECTOR] == s.disk[FREE_MAP_SECTOR]
    requires t.disk[DIRECTORY_SECTOR] == s.disk[DIRECTORY_SECTOR]
    ensures Sound(t)
  {
    SoundFacts(s);
    ConsistentFacts(t.disk);
    hide Consistent, Fetched, Mountable;
    forall id | 0 <= id < |t.open| ensures Fetched(t.disk, t.open[id]) { FetchedStays(s.disk, t.disk, s.open[id]); }
  }

  lemma CreateKeepsSound(s: State, name: seq<Byte>, size: nat, t: State)
    requires Sound(s) && NextCreate(s.disk, name, size, t.disk) && t.open == s.open
    ensures Sound(t)
  {
    hide Consistent, Mountable, Sound, CanCreate, Created, FreeBits, Root, SafeSize;
    SoundFacts(s);
    if CanCreate(FreeBits(s.disk), Root(s.disk), name, size) {
      CreateKeepsConsistent(s.disk, t.disk, name, size);
      CreatedOnDisk(s.disk, t.disk, name, size);
    }
    SoundAfter(s, t);
  }

  lemma RemoveKeepsSound(s: State, name: seq<Byte>, t: State)
    requires Sound(s) && NextRemove(s.disk, name, t.disk) && t.open == s.open
    requires Lookup(Root(s.disk), name) == -1 || OrdinaryName(name)
    ensures Sound(t)
  {
    hide Consistent, Mountable, Sound, Removed, Root, Lookup, Key;
    SoundFacts(s);
    OrdinaryLookup(s.disk, name);
    if Lookup(Root(s.disk), name) != -1 {
      RemoveKeepsConsistent(s.disk, t.disk, name);
      RemovedOnDisk(s.disk, t.disk, name);
    }
    SoundAfter(s, t);
  }

  lemma NewlyFetched(d: Disk, i: nat, mode: char)
    requires Consistent(d) && i < NUM_DIR_ENTRIES && InUse(Root(d)[i])
    ensures WellFormed(d) && Fetched(d, Opened(Root(d)[i].sector, mode, HeaderOfEntry(d, i), 0))
  {
    hide Consistent, Mountable, Root, FreeBits, SystemSectors, ValidHeader, Unclaimed;
    ConsistentFacts(d);
    if i >= 2 {
      SoundFile(d, i);
      FileSectorOrdinary(d, i);
      FileDataApart(d, i);
    } else {
      SpecialSector(d, i);
    }
  }

  lemma SpecialSector(d: Disk, i: nat)
    requires Consistent(d) && i < 2
    ensures Root(d)[i].sector == DIRECTORY_SECTOR
  {
    assert SoundEntry(d, Root(d), i);
  }

  lemma FileDataApart(d: Disk, i: nat)
    requires Consistent(d) && IsFile(Root(d), i)
    ensures WellFormed(d) && Root(d)[i].sector < NUM_SECTORS && Apart(d, MetaAt(d, Root(d)[i].sector))
  {
    hide Consistent, Mountable, Root, SystemSectors, HeaderAt, HeadsFile;
    ConsistentFacts(d);
    FileUnclaimed(d, i);
  }

  lemma OpenKeepsSound(s: State, name: seq<Byte>, mode: char)
    requires Sound(s)
    ensures Sound(s.(open := AfterOpen(s, name, mode)))
  {
    SoundFacts(s);
    hide Consistent, Mountable, Root, Fetched, FindSlot, FreeSlotIn, Key;
    var i := Lookup(Root(s.disk), name);
    if i != -1 { NewlyFetched(s.disk, i, mode); }
  }

  lemma WriteKeepsSound(s: State, id: int, data: seq<Byte>, t: State)
    requires Sound(s) && NextWrite(s, id, data, t)
    requires OpenFor(s.open, id, 'w') ==> Unclaimed(s.disk, MetaOf(s.open[id].hdr))
    ensures Sound(t)
  {
    SoundFacts(s);
    if OpenFor(s.open, id, 'w') {
      hide Consistent, Mountable, Spliced, Unclaimed, Root, FreeBits, SystemSectors;
      var x := s.open[id];
      assert Fetched(s.disk, x);
      SplicedKeepsConsistent(s.disk, t.disk, MetaOf(x.hdr), x.position, data);
      SplicedKeepsHeaders(s.disk, t.disk, MetaOf(x.hdr), x.position, data);
      SoundAfter(s, State(t.disk, s.open));
      MovedKeepsSound(State(t.disk, s.open), id, Transfer(x.hdr.numBytes, |data|, x.position));
    }
  }

  lemma SplicedKeepsHeaders(d: Disk, e: Disk, m: Meta, position: nat, data: seq<Byte>)
    requires Consistent(d) && ValidMeta(m) && Unclaimed(d, m) && Spliced(d, e, m, position, data)
    ensures WellFormed(d) && WellFormed(e)
    ensures e[FREE_MAP_SECTOR] == d[FREE_MAP_SECTOR] && e[DIRECTORY_SECTOR] == d[DIRECTORY_SECTOR]
  {
    var sys := SystemSectors(d);
    assert sys[0] == FREE_MAP_SECTOR && sys[1] == DIRECTORY_SECTOR;
    hide Splice, FileBytes, Consistent, HeadsFile;
  }

  lemma MovedKeepsSound(s: State, id: nat, n: nat)
    requires Sound(s) && id < |s.open| && s.open[id].Opened?
    ensures Sound(s.(open := Moved(s.open, id, n)))
  {
    SoundFacts(s);
    assert Fetched(s.disk, s.open[id]);
    hide Consistent, ValidHeader, Apart, SystemSectors;
  }

  lemma NextKeepsSound(s: State, op: Op, t: State)
    requires Sound(s) && Next(s, op, t) && Harmless(s, op)
    ensures Sound(t)
  {
    SoundFacts(s);
    hide Sound, Consistent, Mountable, NextCreate, NextRemove, NextWrite, Root, Unclaimed, Fetched;
    match op
    case Create(name, size) => CreateKeepsSound(s, name, size, t);
    case Remove(name) => RemoveKeepsSound(s, name, t);
    case Open(name, mode) => OpenKeepsSound(s, name, mode);
    case Close(id) => CloseKeepsSound(s, id);
    case Read(id, n) =>
      if OpenFor(s.open, id, 'r') {
        MovedKeepsSound(s, id, Transfer(s.open[id].hdr.numBytes, n, s.open[id].position));
      }
    case Write(id, data) => WriteKeepsSound(s, id, data, t);
  }

  lemma CloseKeepsSound(s: State, id: nat)
    requires Sound(s) && id < |s.open|
    ensures Sound(s.(open := s.open[id := Closed]))
  {
    hide Consistent;
  }

  // ---- Whole runs ----

  ghost predicate Follows(s: State, op: Op, t: State) { Sound(s) ==> Next(s, op, t) }

  ghost predicate Starts(s: State) { Formatted(s.disk) && s.open == seq(NB_FILE_TABLE_ENTRIES, _ => Closed) }

  /** A history: each operation leads from one state to the next. */
  ghost predicate IsRun(states: seq<State>, ops: seq<Op>) {
    && |states| == |ops| + 1 && Starts(states[0])
    && forall k :: 0 <= k < |ops| ==> Follows(states[k], ops[k], states[k + 1])
  }

  /** Sector ownership in every run of harmless operations: at each point the on-disk bit map marks
      exactly the sectors of the system and of the listed files, and no sector has two owners. */
  lemma {:induction false} RunKeepsOwnership(states: seq<State>, ops: seq<Op>, k: nat)
    requires IsRun(states, ops) && k < |states|
    requires forall i :: 0 <= i < k ==> Harmless(states[i], ops[i])
    ensures Sound(states[k]) && Owns(FreeBits(states[k].disk), LayoutOf(states[k].disk))
  {
    if k > 0 {
      RunKeepsOwnership(states, ops, k - 1);
      assert Follows(states[k - 1], ops[k - 1], states[k - 1 + 1]);
      NextKeepsSound(states[k - 1], ops[k - 1], states[k]);
    }
    hide Next, Harmless;
  }

  /** The condition on writes is exact. In every run of harmless operations, writing through an open
      file keeps the disk consistent, whatever is written and wherever, if and only if no data sector
      of the header that the file was opened with is by now the header of a file, or the system's. */
  lemma WriteThroughOpenIff(states: seq<State>, ops: seq<Op>, k: nat, id: nat)
    requires IsRun(states, ops) && k < |states|
    requires forall i :: 0 <= i < k ==> Harmless(states[i], ops[i])
    requires id < |states[k].open| && states[k].open[id].Opened?
    ensures var d, h := states[k].disk, states[k].open[id].hdr;
      && Consistent(d) && ValidHeader(h)
      && ((forall position, data, e :: Spliced(d, e, MetaOf(h), position, data) ==> Consistent(e))
          <==> Unclaimed(d, MetaOf(h)))
  {
    RunKeepsOwnership(states, ops, k);
    SoundFacts(states[k]);
    assert Fetched(states[k].disk, states[k].open[id]);
    hide IsRun, Consistent, Spliced, Unclaimed, Sound, ValidHeader;
    ThroughHeaderIff(states[k].disk, states[k].open[id].hdr);
  }

  // ---- A file that is removed while it is open ----

  /** The data sector of a file of four bytes, and the header sectors of the next two files when the
      sectors of the first are clear again. */
  lemma TheSameSectors(bits: seq<bool>)
    requires 2 <= CountClear(bits)
    ensures var h := FirstClear(bits);
      && h != -1 && NewData(bits, 0).bits == bits[h := true]
      && FirstClear(bits[h := true]) != -1
      && NewData(bits, 4).sectors == [FirstClear(bits[h := true]) as nat]
  {
    CountClearZero(bits);
    var h := FirstClear(bits);
    CountClearUpdate(bits, h, true);
    var taken := bits[h := true];
    CountClearZero(taken);
    assert TakeSectors(taken, 0) == Allocation(taken, []);
    assert TakeSectors(taken, 1) == Allocation(taken[FirstClear(taken) := true], [FirstClear(taken) as nat]);
  }

  /** All four bytes of the length, so the header cannot be right. */
  lemma HeaderOverwritten(e: Disk, m: Meta)
    requires WellFormed(e) && ValidMeta(m) && m.numBytes == 4 && m.data[0] < NUM_SECTORS
    requires FileBytes(e, m) == [255, 255, 255, 255]
    ensures !ValidHeader(HeaderAt(e, m.data[0]))
  {
    var b := e[m.data[0]];
    forall k | 0 <= k < 4 ensures b[k] == 255 { assert FileBytes(e, m)[k] == ByteAt(e, m, k); }
    assert b[0..4] == [255, 255, 255, 255];
    assert DecodeHeader(b).numBytes == 0xffff_ffff;
  }

  /** A header in memory that lists the header sector of a file: four bytes through it spoil the disk. */
  lemma ClaimedOverwritten(d: Disk, e: Disk, m: Meta, j: nat)
    requires Consistent(d) && ValidMeta(m) && Apart(d, m) && m.numBytes == 4
    requires IsFile(Root(d), j) && Root(d)[j].sector == m.data[0]
    requires Spliced(d, e, m, 0, [255, 255, 255, 255])
    ensures !Consistent(e)
  {
    hide Consistent, Mountable, ValidHeader, Spliced, FileBytes, Root, SystemSectors;
    ConsistentFacts(d);
    var s := m.data[0];
    assert s in m.data;
    OnlyFourBytes(d, e, m);
    HeaderOverwritten(e, m);
    SystemUntouched(d, e, s);
    if Consistent(e) { SoundFile(e, j); }
  }

  lemma OnlyFourBytes(d: Disk, e: Disk, m: Meta)
    requires WellFormed(d) && ValidMeta(m) && m.numBytes == 4 && Spliced(d, e, m, 0, [255, 255, 255, 255])
    ensures WellFormed(e) && FileBytes(e, m) == [255, 255, 255, 255]
    ensures m.data[0] < NUM_SECTORS && e == d[m.data[0] := e[m.data[0]]]
  {
    var s := m.data[0];
    assert s in m.data;
    assert FileBytes(e, m) == [255, 255, 255, 255];
    forall x | 0 <= x < NUM_SECTORS && x != s ensures e[x] == d[x] { assert x !in m.data; }
    assert e == d[s := e[s]];
    hide FileBytes, Splice;
  }

  lemma CreatedAt(d: Disk, e: Disk, name: seq<Byte>, size: nat)
    requires Consistent(d) && CanCreate(FreeBits(d), Root(d), name, size) && Created(d, e, name, size)
    ensures FirstClear(FreeBits(d)) != -1 && Consistent(e)
    ensures var i, h, a := Lookup(Root(e), name), FirstClear(FreeBits(d)), NewData(FreeBits(d), size);
      && i >= 2 && Root(e)[i].sector == h && FreeBits(e) == a.bits
      && MetaOf(HeaderOfEntry(e, i)) == Meta(size, a.sectors)
  {
    ConsistentFacts(d);
    CreatedIsFound(d, e, name, size);
    CreatedOnDisk(d, e, name, size);
    CreatedFile(d, e, name, size);
    CreatedSize(d, e, name, size);
    hide FreeBits, Root, NewData, CanCreate, Created, Lookup, Consistent, Key, SystemSectors;
    var i := FreeSlot(Root(d));
    assert MetaAt(e, Root(e)[i].sector).data == FileSectors(e, Root(e)[i].sector)[1..];
  }

  /** A creation for which the map has room. */
  lemma RoomyCreate(s: State, m: FileMap, name: seq<Byte>, size: nat, t: State) returns (n: FileMap)
    requires Sound(s) && Holds(s.disk, m) && CanAdd(m, name, size) && Next(s, Create(name, size), t)
    ensures Sound(t) && t.open == s.open && Mountable(s.disk)
    ensures CanCreate(FreeBits(s.disk), Root(s.disk), name, size) && Created(s.disk, t.disk, name, size)
    ensures Holds(t.disk, n) && Key(name) in n && |n[Key(name)]| == size && n == m[Key(name) := n[Key(name)]]
  {
    hide Sound, Holds, CanAdd, CanCreate, Created, Consistent, Mountable, FreeBits, Root;
    SoundFacts(s);
    CanCreateOnMap(s.disk, m, name, size);
    CreateKeepsSound(s, name, size, t);
    n := CreateOnMap(s.disk, t.disk, m, name, size);
  }

  lemma RoomForThree(a: seq<Byte>, b: seq<Byte>, c: seq<Byte>, m: FileMap)
    requires OrdinaryName(a) && OrdinaryName(b) && OrdinaryName(c) && Key(b) != Key(c)
    requires Key(b) in m && m == map[Key(b) := m[Key(b)]] && |m[Key(b)]| == 0
    ensures CanAdd(map[], a, 4) && CanAdd(map[], b, 0) && CanAdd(m, c, 0)
  {
    UsedWith(map[], Key(b), m[Key(b)]);
    assert map[][Key(b) := m[Key(b)]] == m;
    hide Key;
  }

  lemma CreatedThenRemovedHoldsNothing(d: Disk, e: Disk, f: Disk, name: seq<Byte>, size: nat)
    requires Holds(d, map[]) && CanCreate(FreeBits(d), Root(d), name, size) && Created(d, e, name, size)
    requires Lookup(Root(e), name) != -1 && Removed(e, f, name)
    ensures Holds(f, map[]) && FreeBits(f) == FreeBits(d)
  {
    HeldIsMountable(d, map[]);
    hide Created, Removed, CanCreate, FreeBits, Root, Lookup, Contents, Consistent, Mountable;
    CreateThenRemove(d, e, f, name, size);
    forall other ensures Contents(f, other) == Absent {
      CreateThenRemoveContents(d, e, f, name, size, other);
      assert Contents(d, other) == Absent;
    }
  }

  /** Create a file of four bytes, open it, remove it, create two empty files, and write. */
  function RemovedWhileOpen(a: seq<Byte>, b: seq<Byte>, c: seq<Byte>): seq<Op> {
    [Create(a, 4), Open(a, 'w'), Remove(a), Create(b, 0), Create(c, 0), Write(0, [255, 255, 255, 255])]
  }

  /** Slot 0 writes four bytes into the second clear sector. */
  ghost predicate StillWrites(slots: Slots, bits: seq<bool>) {
    && OpenFor(slots, 0, 'w') && slots[0].position == 0 && slots[0].sector != DIRECTORY_SECTOR
    && WellSized(slots[0].hdr) && FirstClear(bits) != -1
    && MetaOf(slots[0].hdr).numBytes == 4 && |MetaOf(slots[0].hdr).data| == 1
    && MetaOf(slots[0].hdr).data[0] == FirstClear(bits[FirstClear(bits) := true])
  }

  /** The first half: the file is gone, its sectors are clear, and slot 0 still lists its data sector. */
  lemma OpenOverRemove(s0: State, s1: State, s2: State, s3: State, a: seq<Byte>)
    requires Starts(s0) && Sound(s0) && CanAdd(map[], a, 4) && OrdinaryName(a)
    requires Next(s0, Create(a, 4), s1)
    requires Sound(s1) ==> Next(s1, Open(a, 'w'), s2)
    requires Sound(s2) ==> Next(s2, Remove(a), s3)
    ensures Sound(s3) && Holds(s3.disk, map[]) && 2 <= CountClear(FreeBits(s3.disk))
    ensures StillWrites(s3.open, FreeBits(s3.disk))
  {
    hide Sound, Holds, Created, Root, FreeBits, Consistent, Mountable, Next, CanAdd, CanCreate, NewData, HeaderOfEntry;
    hide Formatted, CountClear, FirstClear, Lookup, Key;
    FormattedHoldsNothing(s0.disk);
    SoundFacts(s0);
    FreeSpace(s0.disk, map[]);
    var m := RoomyCreate(s0, map[], a, 4, s1);
    SoundFacts(s1);
    TheSameSectors(FreeBits(s0.disk));
    CreatedAt(s0.disk, s1.disk, a, 4);
    OpenedFirst(s1, a, s2);
    SoundFacts(s2);
    RemoveFound(s2, a, s3);
    CreatedThenRemovedHoldsNothing(s0.disk, s1.disk, s3.disk, a, 4);
  }

  lemma RemoveFound(s: State, name: seq<Byte>, t: State)
    requires Sound(s) && Next(s, Remove(name), t) && Lookup(Root(s.disk), name) != -1 && OrdinaryName(name)
    ensures Mountable(s.disk) && Removed(s.disk, t.disk, name) && Sound(t) && Consistent(t.disk) && t.open == s.open
  {
    SoundFacts(s);
    hide Sound, Consistent, Mountable, Root, Removed, Lookup, Key;
    RemoveKeepsSound(s, name, t);
    SoundFacts(t);
  }

  /** Opening a file with an empty table. */
  lemma OpenedFirst(s: State, name: seq<Byte>, t: State)
    requires Sound(s) && s.open == seq(NB_FILE_TABLE_ENTRIES, _ => Closed) && Lookup(Root(s.disk), name) >= 2
    requires Next(s, Open(name, 'w'), t)
    ensures Sound(t) && t.disk == s.disk
    ensures var i := Lookup(Root(s.disk), name);
      && t.open[0] == Opened(Root(s.disk)[i].sector, 'w', HeaderOfEntry(s.disk, i), 0)
      && Root(s.disk)[i].sector != DIRECTORY_SECTOR
  {
    OpenKeepsSound(s, name, 'w');
    var i := Lookup(Root(s.disk), name);
    NewlyFetched(s.disk, i, 'w');
    assert !OnSector(Root(s.disk)[i].sector)(Closed) && IsClosed()(s.open[0]);
    assert FreeSlotIn(s.open) == 0;
    FileSectorOrdinary(s.disk, i);
    hide Consistent, Root, Fetched, SystemSectors, FreeBits;
  }

  lemma FileSectorOrdinary(d: Disk, i: nat)
    requires Consistent(d) && IsFile(Root(d), i)
    ensures Root(d)[i].sector < NUM_SECTORS && Root(d)[i].sector !in SystemSectors(d)
    ensures Root(d)[i].sector != DIRECTORY_SECTOR
  {
    assert SystemSectors(d)[1] == DIRECTORY_SECTOR;
    hide Consistent, Mountable, Root, FreeBits, SystemSectors;
    ConsistentFacts(d);
    SoundFile(d, i);
    var h := Root(d)[i].sector;
    assert h in FileSectors(d, h);
    FileSectorsOwned(d, i, h);
  }

  /** The second half: the second empty file has its header in the sector that slot 0 writes to. */
  lemma ReusedThenWritten(s3: State, s4: State, s5: State, s6: State, b: seq<Byte>, c: seq<Byte>)
    requires Sound(s3) && Holds(s3.disk, map[]) && 2 <= CountClear(FreeBits(s3.disk))
    requires StillWrites(s3.open, FreeBits(s3.disk))
    requires OrdinaryName(b) && OrdinaryName(c) && Key(b) != Key(c)
    requires Next(s3, Create(b, 0), s4)
    requires Sound(s4) ==> Next(s4, Create(c, 0), s5)
    requires Sound(s5) ==> Next(s5, Write(0, [255, 255, 255, 255]), s6)
    ensures Sound(s4) && Sound(s5) && !Consistent(s6.disk)
  {
    hide Sound, Holds, Created, Root, FreeBits, Consistent, Mountable, Next, CanAdd, CanCreate, NewData, HeaderOfEntry;
    hide CountClear, FirstClear, Lookup, OrdinaryName;
    SoundFacts(s3);
    var bits := FreeBits(s3.disk);
    TheSameSectors(bits);
    RoomForThree(b, b, c, map[Key(b) := []]);
    var m := RoomyCreate(s3, map[], b, 0, s4);
    SoundFacts(s4);
    CreatedAt(s3.disk, s4.disk, b, 0);
    assert map[][Key(b) := m[Key(b)]] == m;
    RoomForThree(b, b, c, m);
    var n := RoomyCreate(s4, m, c, 0, s5);
    SoundFacts(s5);
    CreatedAt(s4.disk, s5.disk, c, 0);
    assert Fetched(s5.disk, s5.open[0]);
    WrittenThroughSlot(s5, s6, Lookup(Root(s5.disk), c));
  }

  lemma WrittenThroughSlot(s: State, t: State, j: nat)
    requires Sound(s) && Next(s, Write(0, [255, 255, 255, 255]), t)
    requires OpenFor(s.open, 0, 'w') && s.open[0].position == 0 && s.open[0].sector != DIRECTORY_SECTOR
    requires WellSized(s.open[0].hdr) && MetaOf(s.open[0].hdr).numBytes == 4 && |MetaOf(s.open[0].hdr).data| == 1
    requires IsFile(Root(s.disk), j) && Root(s.disk)[j].sector == MetaOf(s.open[0].hdr).data[0]
    ensures !Consistent(t.disk)
  {
    SoundFacts(s);
    assert Fetched(s.disk, s.open[0]);
    hide Sound, Consistent, Root, Spliced, SystemSectors, Apart;
    ClaimedOverwritten(s.disk, t.disk, MetaOf(s.open[0].hdr), j);
  }

  /** Every such run ends with a disk that is not consistent, and is harmless up to the write. */
  lemma RemovedWhileOpenSpoils(states: seq<State>, a: seq<Byte>, b: seq<Byte>, c: seq<Byte>)
    requires OrdinaryName(a) && OrdinaryName(b) && OrdinaryName(c) && Key(b) != Key(c)
    requires IsRun(states, RemovedWhileOpen(a, b, c))
    ensures Sound(states[5]) && !Consistent(states[6].disk)
  {
    hide Next, Sound, Starts, Holds, Consistent, FreeBits, CountClear, StillWrites, CanAdd, Key;
    var ops := RemovedWhileOpen(a, b, c);
    forall k | 0 <= k < 6 ensures Sound(states[k]) ==> Next(states[k], ops[k], states[k + 1]) {
      assert Follows(states[k], ops[k], states[k + 1]);
    }
    StartsSound(states[0]);
    RoomForThree(a, b, c, map[Key(b) := []]);
    OpenOverRemove(states[0], states[1], states[2], states[3], a);
    ReusedThenWritten(states[3], states[4], states[5], states[6], b, c);
  }

  lemma StartsSound(s: State)
    requires Starts(s)
    ensures Sound(s)
  {
    hide Consistent;
  }
}
