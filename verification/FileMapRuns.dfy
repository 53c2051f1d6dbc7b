/** Runs that remove no file while it is open: the file system is a map from names to byte strings, and
    an open file is a position in the string of its name. */
module FileMapRuns {
  import opened Memory
  import opened BitMaps
  import opened Storage
  import opened OpenFiles
  import opened Directories
  import opened OpenTables
  import opened FileSystems
  import opened FileSystemSteps
  import opened FileMaps
  import opened FileSystemRuns

  // ---- Open files on the map ----

  /** What a slot stands for: a name, and where the next transfer starts in its string. */
  datatype Handle = Shut | Handle(key: seq<Byte>, mode: char, position: nat)

  type Handles = seq<Handle>

  /** "." and ".." are one file, the directory. */
  function Canonical(name: seq<Byte>): seq<Byte> { if OrdinaryName(name) then Key(name) else Key(DOT) }

  function OnKey(key: seq<Byte>): Handle -> bool { (y: Handle) => y.Handle? && y.key == key }

  function IsShut(): Handle -> bool { (y: Handle) => y.Shut? }

  /** A known name is opened once, whatever the mode; otherwise it takes the first free handle. */
  function HandlesAfterOpen(m: FileMap, hs: Handles, name: seq<Byte>, mode: char): Handles {
    var key := Canonical(name);
    var free := FirstWhere(hs, IsShut());
    if (OrdinaryName(name) && key !in m) || FirstWhere(hs, OnKey(key)) != -1 || free == -1 then hs
    else hs[free := Handle(key, mode, 0)]
  }

  function LengthOf(m: FileMap, key: seq<Byte>): nat { if key in m then |m[key]| else DIRECTORY_FILE_SIZE }

  predicate UsableFor(hs: Handles, id: int, mode: char) { 0 <= id < |hs| && hs[id].Handle? && hs[id].mode == mode }

  function HandlesAdvanced(m: FileMap, hs: Handles, id: nat, n: int): Handles
    requires id < |hs| && hs[id].Handle?
  {
    hs[id := hs[id].(position := hs[id].position + Transfer(LengthOf(m, hs[id].key), n, hs[id].position))]
  }

  /** What an operation does to the map and the handles. Which bytes a new file begins with is open: it
      shows what its sectors held before. */
  ghost predicate MapNext(m: FileMap, hs: Handles, op: Op, n: FileMap, ks: Handles) {
    match op
    case Create(name, size) =>
      && ks == hs
      && if CanAdd(m, name, size) then Key(name) in n && |n[Key(name)]| == size && n == m[Key(name) := n[Key(name)]]
         else n == m
    case Remove(name) => ks == hs && n == m - {Key(name)}
    case Open(name, mode) => n == m && ks == HandlesAfterOpen(m, hs, name, mode)
    case Close(id) => n == m && 0 <= id < |hs| && ks == hs[id := Shut]
    case Read(id, size) => n == m && ks == if UsableFor(hs, id, 'r') then HandlesAdvanced(m, hs, id, size) else hs
    case Write(id, data) =>
      if UsableFor(hs, id, 'w') then
        var y := hs[id];
        && y.key in m && n == m[y.key := Splice(m[y.key], y.position, data)]
        && ks == HandlesAdvanced(m, hs, id, |data|)
      else n == m && ks == hs
  }

  /** The slot is open on the file that the name of the handle has now, with its present header. */
  ghost predicate StandsFor(d: Disk, x: Slot, y: Handle)
    requires Consistent(d)
  {
    match x
    case Closed => y.Shut?
    case Opened(sector, mode, hdr, position) =>
      && y.Handle? && y.mode == mode && y.position == position && Key(y.key) == y.key
      && var i := Lookup(Root(d), y.key);
        i != -1 && i != 1 && Root(d)[i].sector == sector && HeaderOfEntry(d, i) == hdr
  }

  ghost predicate AllStandFor(s: State, hs: Handles)
    requires Consistent(s.disk)
  {
    |hs| == |s.open| && forall id :: 0 <= id < |hs| ==> StandsFor(s.disk, s.open[id], hs[id])
  }

  // ---- Careful operations ----

  /** No file is removed whose header sector is in the table, neither "." nor ".." is removed, and the
      directory is not written to as a file: what a caller can see before the call. */
  ghost predicate Careful(s: State, op: Op) {
    Sound(s) ==>
      match op
      case Remove(name) =>
        var i := Lookup(Root(s.disk), name);
        i == -1 || (OrdinaryName(name) && FindSlot(s.open, Root(s.disk)[i].sector) == -1)
      case Write(id, _) => OpenFor(s.open, id, 'w') ==> s.open[id].sector != DIRECTORY_SECTOR
      case _ => true
  }

  /** A slot that stands for a file is open on one of the listed files. */
  lemma StandsForFile(d: Disk, x: Slot, y: Handle)
    requires Consistent(d) && x.Opened? && StandsFor(d, x, y) && x.sector != DIRECTORY_SECTOR
    ensures var i := Lookup(Root(d), y.key);
      i >= 2 && Root(d)[i].sector == x.sector && x.sector < NUM_SECTORS && HeaderAt(d, x.sector) == x.hdr
    ensures Mountable(d) && ValidHeader(x.hdr) && Unclaimed(d, MetaOf(x.hdr))
  {
    var i := Lookup(Root(d), y.key);
    assert SoundEntry(d, Root(d), i);
    hide Consistent, Root, Unclaimed, Key;
    FileUnclaimed(d, i);
  }

  lemma CarefulIsHarmless(s: State, hs: Handles, op: Op)
    requires Sound(s) && AllStandFor(s, hs) && Careful(s, op)
    ensures Harmless(s, op)
  {
    SoundFacts(s);
    if op.Write? && OpenFor(s.open, op.id, 'w') {
      hide Consistent, Mountable, Root, Unclaimed, StandsFor;
      StandsForFile(s.disk, s.open[op.id], hs[op.id]);
    }
  }

  // ---- Handles over the operations ----

  /** The name has the same entry and header as before. */
  ghost predicate EntryStays(d: Disk, e: Disk, name: seq<Byte>)
    requires Consistent(d) && Consistent(e)
  {
    var i := Lookup(Root(d), name);
    && i != -1 && Lookup(Root(e), name) == i && Root(e)[i] == Root(d)[i]
    && Root(d)[i].sector < NUM_SECTORS && e[Root(d)[i].sector] == d[Root(d)[i].sector]
  }

  lemma StaysStanding(d: Disk, e: Disk, x: Slot, y: Handle)
    requires Consistent(d) && Consistent(e) && StandsFor(d, x, y) && (y.Handle? ==> EntryStays(d, e, y.key))
    ensures StandsFor(e, x, y)
  {
    ConsistentFacts(d);
    ConsistentFacts(e);
    hide Consistent, Mountable, Root, Lookup, Key, FreeBits, LayoutOf;
  }

  lemma EntrySectorInRange(d: Disk, i: nat)
    requires Consistent(d) && i < NUM_DIR_ENTRIES && InUse(Root(d)[i])
    ensures Root(d)[i].sector < NUM_SECTORS && (i < 2 ==> Root(d)[i].sector == DIRECTORY_SECTOR)
  {
    assert SoundEntry(d, Root(d), i);
  }

  lemma CreateKeepsName(d: Disk, e: Disk, name: seq<Byte>, size: nat, other: seq<Byte>)
    requires Consistent(d) && CanCreate(FreeBits(d), Root(d), name, size) && Created(d, e, name, size)
    requires Lookup(Root(d), other) != -1
    ensures Consistent(e) && EntryStays(d, e, other)
  {
    hide Consistent, Mountable, Root, FreeBits, Created, FreeSlot, Key, CountClear, NewEntry, FileSectors, SoundEntry;
    ConsistentFacts(d);
    CreateKeepsConsistent(d, e, name, size);
    CreatedOnDisk(d, e, name, size);
    var i, slot := Lookup(Root(d), other), FreeSlot(Root(d));
    EntrySectorInRange(d, i);
    AddKeepsLookup(Root(d), slot, Root(e)[slot], name, other);
    CreateKeepsEntry(d, e, name, size, i);
    if i >= 2 { HeaderInFile(d, Root(d)[i].sector); }
  }

  lemma HeaderInFile(d: Disk, h: nat)
    requires WellFormed(d) && h < NUM_SECTORS
    ensures h in FileSectors(d, h)
  {
    assert FileSectors(d, h)[0] == h;
  }

  lemma RemoveKeepsName(d: Disk, e: Disk, name: seq<Byte>, other: seq<Byte>)
    requires Consistent(d) && Lookup(Root(d), name) >= 2 && Removed(d, e, name)
    requires Lookup(Root(d), other) != -1 && Key(other) != Key(name)
    ensures Consistent(e) && EntryStays(d, e, other)
  {
    ConsistentFacts(d);
    RemoveKeepsConsistent(d, e, name);
    hide Consistent, Mountable, Root, FreeBits, Key, FileSectors, SoundEntry, LayoutOf, Owns, DistinctKeys;
    RemovedOnDisk(d, e, name);
    var i, slot := Lookup(Root(d), other), Lookup(Root(d), name);
    EntrySectorInRange(d, i);
    RemoveKeepsLookup(Root(d), slot, name, other);
    if i >= 2 { OtherFileKept(d, e, [], FreeBits(e), Root(e), i); HeaderInFile(d, Root(d)[i].sector); }
  }

  lemma WriteKeepsName(d: Disk, e: Disk, i: nat, position: nat, data: seq<Byte>, other: seq<Byte>)
    requires Consistent(d) && IsFile(Root(d), i) && Written(d, e, i, position, data) && Lookup(Root(d), other) != -1
    ensures Consistent(e) && EntryStays(d, e, other)
  {
    hide Consistent, Mountable, Root, FreeBits, Key, Spliced, Unclaimed, HeaderAt;
    ConsistentFacts(d);
    WriteKeepsConsistent(d, e, i, position, data);
    WriteKeepsSystem(d, e, i, position, data);
    var j := Lookup(Root(d), other);
    EntrySectorInRange(d, j);
    if j >= 2 {
      WriteKeepsHeader(d, e, i, position, data, j);
    } else {
      FileUnclaimed(d, i);
      SplicedKeepsHeaders(d, e, MetaAt(d, Root(d)[i].sector), position, data);
    }
  }

  // ---- One operation ----

  lemma CreateOnHandles(s: State, m: FileMap, hs: Handles, name: seq<Byte>, size: nat, t: State) returns (n: FileMap)
    requires Sound(s) && Holds(s.disk, m) && AllStandFor(s, hs) && Next(s, Create(name, size), t)
    ensures Sound(t) && Holds(t.disk, n) && AllStandFor(t, hs) && MapNext(m, hs, Create(name, size), n, hs)
  {
    hide Sound, Holds, Consistent, Mountable, Root, FreeBits, CanCreate, CanAdd, Created, StandsFor, SafeSize, Key;
    SoundFacts(s);
    CreateKeepsSound(s, name, size, t);
    CanCreateOnMap(s.disk, m, name, size);
    n := m;
    if CanCreate(FreeBits(s.disk), Root(s.disk), name, size) {
      n := CreateOnMap(s.disk, t.disk, m, name, size);
      SoundFacts(t);
      forall id | 0 <= id < |hs| ensures StandsFor(t.disk, t.open[id], hs[id]) {
        CreateKeepsHandle(s.disk, t.disk, name, size, s.open[id], hs[id]);
      }
    }
  }

  lemma CreateKeepsHandle(d: Disk, e: Disk, name: seq<Byte>, size: nat, x: Slot, y: Handle)
    requires Consistent(d) && CanCreate(FreeBits(d), Root(d), name, size) && Created(d, e, name, size)
    requires Consistent(e) && StandsFor(d, x, y)
    ensures StandsFor(e, x, y)
  {
    hide Consistent, Mountable, Root, FreeBits, CanCreate, Created, StandsFor, Key, Lookup;
    ConsistentFacts(d);
    HandleHasEntry(d, x, y);
    if y.Handle? { CreateKeepsName(d, e, name, size, y.key); }
    StaysStanding(d, e, x, y);
  }

  lemma HandleHasEntry(d: Disk, x: Slot, y: Handle)
    requires Consistent(d) && StandsFor(d, x, y)
    ensures y.Handle? ==>
      x.Opened? && Lookup(Root(d), y.key) != -1 && Root(d)[Lookup(Root(d), y.key)].sector == x.sector
    ensures y.Handle? ==> Key(y.key) == y.key
  {}

  lemma RemoveOnHandles(s: State, m: FileMap, hs: Handles, name: seq<Byte>, t: State) returns (n: FileMap)
    requires Sound(s) && Holds(s.disk, m) && AllStandFor(s, hs) && Next(s, Remove(name), t) && Careful(s, Remove(name))
    ensures Sound(t) && Holds(t.disk, n) && AllStandFor(t, hs) && MapNext(m, hs, Remove(name), n, hs)
  {
    hide Sound, Holds, Consistent, Mountable, Root, FreeBits, Removed, StandsFor, Key, Lookup, FindSlot;
    SoundFacts(s);
    RemoveKeepsSound(s, name, t);
    OrdinaryLookup(s.disk, name);
    LookupAndMap(s.disk, m, name);
    var i := Lookup(Root(s.disk), name);
    if i == -1 {
      n := m;
      assert m - {Key(name)} == m;
    } else {
      n := RemoveOnMap(s.disk, t.disk, m, name);
      SoundFacts(t);
      forall id | 0 <= id < |hs| ensures StandsFor(t.disk, t.open[id], hs[id]) {
        RemoveKeepsHandle(s.disk, t.disk, name, s.open, id, hs[id]);
      }
    }
  }

  lemma RemoveKeepsHandle(d: Disk, e: Disk, name: seq<Byte>, slots: Slots, id: nat, y: Handle)
    requires Consistent(d) && Consistent(e) && Lookup(Root(d), name) >= 2 && Removed(d, e, name)
    requires id < |slots| && FindSlot(slots, Root(d)[Lookup(Root(d), name)].sector) == -1 && StandsFor(d, slots[id], y)
    ensures StandsFor(e, slots[id], y)
  {
    hide Consistent, Mountable, Root, Removed, StandsFor, Key, Lookup, FindSlot;
    ConsistentFacts(d);
    HandleHasEntry(d, slots[id], y);
    if y.Handle? {
      NotInTable(slots, id, Root(d)[Lookup(Root(d), name)].sector);
      SameKeySameEntry(Root(d), y.key, name);
      RemoveKeepsName(d, e, name, y.key);
    }
    StaysStanding(d, e, slots[id], y);
  }

  lemma NotInTable(slots: Slots, id: nat, sector: nat)
    requires FindSlot(slots, sector) == -1 && id < |slots| && slots[id].Opened?
    ensures slots[id].sector != sector
  {
    assert !OnSector(sector)(slots[id]);
  }

  lemma SameKeySameEntry(t: Table, a: seq<Byte>, b: seq<Byte>)
    ensures Key(a) == Key(b) ==> Lookup(t, a) == Lookup(t, b)
  {}

  /** A write through a slot whose header sector still heads a file, with the header in the slot, is a
      write into that file, whatever happened since it was opened. */
  lemma CurrentWriteOnMap(s: State, m: FileMap, id: nat, data: seq<Byte>, t: State, name: seq<Byte>)
    returns (n: FileMap)
    requires Sound(s) && Holds(s.disk, m) && Next(s, Write(id, data), t) && OpenFor(s.open, id, 'w')
    requires var i := Lookup(Root(s.disk), name);
      i >= 2 && Root(s.disk)[i].sector == s.open[id].sector && HeaderOfEntry(s.disk, i) == s.open[id].hdr
    ensures Written(s.disk, t.disk, Lookup(Root(s.disk), name), s.open[id].position, data)
    ensures Holds(t.disk, n) && Key(name) in m
    ensures n == m[Key(name) := Splice(m[Key(name)], s.open[id].position, data)]
  {
    hide Sound, Holds, Consistent, Mountable, Root, Lookup, Key, Written, Next, Splice, HeaderOfEntry;
    SoundFacts(s);
    CurrentWrite(s, id, data, t, name);
    n := WriteOnMap(s.disk, t.disk, m, name, s.open[id].position, data);
  }

  lemma CurrentWrite(s: State, id: int, data: seq<Byte>, t: State, name: seq<Byte>)
    requires Sound(s) && Next(s, Write(id, data), t) && OpenFor(s.open, id, 'w')
    requires var i := Lookup(Root(s.disk), name);
      i >= 2 && Root(s.disk)[i].sector == s.open[id].sector && HeaderOfEntry(s.disk, i) == s.open[id].hdr
    ensures Mountable(s.disk) && Written(s.disk, t.disk, Lookup(Root(s.disk), name), s.open[id].position, data)
    ensures t.open == Advanced(s.open, id, |data|)
  {
    hide Sound, Consistent, Mountable, Root, Lookup, Next, Spliced, HeaderAt, Written, HeaderOfEntry;
    SoundFacts(s);
    WriteIsSplice(s, id, data, t);
    SpliceIsWrite(s.disk, t.disk, Lookup(Root(s.disk), name), s.open[id].hdr, s.open[id].position, data);
  }

  lemma WriteIsSplice(s: State, id: int, data: seq<Byte>, t: State)
    requires Sound(s) && Next(s, Write(id, data), t) && OpenFor(s.open, id, 'w')
    ensures WellFormed(s.disk) && ValidHeader(s.open[id].hdr)
    ensures Spliced(s.disk, t.disk, MetaOf(s.open[id].hdr), s.open[id].position, data)
    ensures t.open == Advanced(s.open, id, |data|)
  {
    hide Sound, Consistent, Mountable, Spliced, SystemSectors, Apart, HeaderAt, ValidHeader;
    SoundFacts(s);
    assert Fetched(s.disk, s.open[id]);
  }

  lemma SpliceIsWrite(d: Disk, e: Disk, i: nat, h: Header, position: nat, data: seq<Byte>)
    requires Consistent(d) && IsFile(Root(d), i) && HeaderOfEntry(d, i) == h && ValidHeader(h)
    requires Spliced(d, e, MetaOf(h), position, data)
    ensures Mountable(d) && Written(d, e, i, position, data)
  {
    hide Consistent, Mountable, Root, Spliced, ValidHeader, MetaOf;
    ConsistentFacts(d);
    SoundFile(d, i);
  }

  /** The header in the slot has the length of the string. */
  lemma SlotLength(d: Disk, m: FileMap, x: Slot, y: Handle)
    requires Consistent(d) && Holds(d, m) && StandsFor(d, x, y) && y.Handle?
    ensures x.Opened? && WellSized(x.hdr) && x.hdr.numBytes == LengthOf(m, y.key)
  {
    var i := Lookup(Root(d), y.key);
    LookupAndMap(d, m, y.key);
    assert SoundEntry(d, Root(d), i);
    if i >= 2 { assert Contents(d, y.key) == Bytes(m[y.key]); }
    hide Root, FreeBits, Owns, LayoutOf, Key, Lookup;
  }

  /** What a file that is open shows is the string of its name. */
  lemma OpenFileShowsString(s: State, m: FileMap, hs: Handles, id: nat)
    requires Sound(s) && Holds(s.disk, m) && AllStandFor(s, hs) && id < |hs| && hs[id].Handle? && hs[id].key in m
    ensures s.open[id].Opened? && WellSized(s.open[id].hdr) && WellFormed(s.disk) && ValidMeta(MetaOf(s.open[id].hdr))
    ensures FileBytes(s.disk, MetaOf(s.open[id].hdr)) == m[hs[id].key]
  {
    var d, x, y := s.disk, s.open[id], hs[id];
    assert StandsFor(d, x, y) && Fetched(d, x);
    LookupAndMap(d, m, y.key);
    assert SoundEntry(d, Root(d), Lookup(Root(d), y.key));
    assert Contents(d, y.key) == Bytes(m[y.key]);
    hide Root, FreeBits, Owns, LayoutOf, Key, Lookup, SystemSectors;
  }

  lemma AdvanceStands(s: State, m: FileMap, hs: Handles, id: nat, n: int)
    requires Sound(s) && Holds(s.disk, m) && AllStandFor(s, hs) && id < |hs| && s.open[id].Opened?
    ensures hs[id].Handle?
    ensures AllStandFor(s.(open := Advanced(s.open, id, n)), HandlesAdvanced(m, hs, id, n))
  {
    SoundFacts(s);
    hide Sound, Holds, Consistent, Mountable, StandsFor;
    assert StandsFor(s.disk, s.open[id], hs[id]);
    SlotIsHandle(s.disk, s.open[id], hs[id]);
    SlotLength(s.disk, m, s.open[id], hs[id]);
    AdvancedStands(s.disk, s.open, m, hs, id, n);
  }

  lemma WriteOnHandles(s: State, m: FileMap, hs: Handles, id: int, data: seq<Byte>, t: State)
    returns (n: FileMap, ks: Handles)
    requires Sound(s) && Holds(s.disk, m) && AllStandFor(s, hs) && Next(s, Write(id, data), t)
    requires Careful(s, Write(id, data))
    ensures Sound(t) && Holds(t.disk, n) && AllStandFor(t, ks) && MapNext(m, hs, Write(id, data), n, ks)
  {
    hide Sound, Holds, Consistent, Mountable, Root, Lookup, Key, Next, Harmless, StandsFor, Splice, Written, Fetched;
    SoundFacts(s);
    CarefulIsHarmless(s, hs, Write(id, data));
    NextKeepsSound(s, Write(id, data), t);
    SlotsAreHandles(s, hs, id, 'w');
    n, ks := m, hs;
    if OpenFor(s.open, id, 'w') {
      var x, y := s.open[id], hs[id];
      assert StandsFor(s.disk, x, y);
      HandleHasEntry(s.disk, x, y);
      SlotIsHandle(s.disk, x, y);
      StandsForFile(s.disk, x, y);
      n := CurrentWriteOnMap(s, m, id, data, t, y.key);
      CurrentWrite(s, id, data, t, y.key);
      StandAfterWrite(s, hs, id, data, t, y.key);
      SoundFacts(t);
      SlotLength(s.disk, m, x, y);
      AdvancedStands(t.disk, s.open, m, hs, id, |data|);
      ks := HandlesAdvanced(m, hs, id, |data|);
    } else {
      NoWrite(s, id, data, t);
    }
  }

  lemma NoWrite(s: State, id: int, data: seq<Byte>, t: State)
    requires Sound(s) && Next(s, Write(id, data), t) && !OpenFor(s.open, id, 'w')
    ensures t == s
  {}

  lemma SlotIsHandle(d: Disk, x: Slot, y: Handle)
    requires Consistent(d) && StandsFor(d, x, y)
    ensures x.Opened? <==> y.Handle?
    ensures x.Opened? ==> y.mode == x.mode && y.position == x.position
    ensures x.Opened? ==> var i := Lookup(Root(d), y.key); i != -1 && HeaderOfEntry(d, i) == x.hdr
  {}

  lemma SlotsAreHandles(s: State, hs: Handles, id: int, mode: char)
    requires Consistent(s.disk) && AllStandFor(s, hs)
    ensures OpenFor(s.open, id, mode) <==> UsableFor(hs, id, mode)
  {
    if 0 <= id < |hs| { SlotIsHandle(s.disk, s.open[id], hs[id]); }
    hide StandsFor, Consistent;
  }

  /** The other slots, and this one at its old position. */
  lemma StandAfterWrite(s: State, hs: Handles, id: nat, data: seq<Byte>, t: State, name: seq<Byte>)
    requires Sound(s) && AllStandFor(s, hs) && Sound(t) && OpenFor(s.open, id, 'w') && Lookup(Root(s.disk), name) >= 2
    requires Written(s.disk, t.disk, Lookup(Root(s.disk), name), s.open[id].position, data)
    ensures AllStandFor(State(t.disk, s.open), hs)
  {
    SoundFacts(s);
    SoundFacts(t);
    hide Sound, Consistent, Mountable, Root, Written, StandsFor, Key;
    forall k | 0 <= k < |hs| ensures StandsFor(t.disk, s.open[k], hs[k]) {
      HandleHasEntry(s.disk, s.open[k], hs[k]);
      if hs[k].Handle? {
        WriteKeepsName(s.disk, t.disk, Lookup(Root(s.disk), name), s.open[id].position, data, hs[k].key);
      }
      StaysStanding(s.disk, t.disk, s.open[k], hs[k]);
    }
  }

  lemma AdvancedStands(d: Disk, slots: Slots, m: FileMap, hs: Handles, id: nat, n: int)
    requires Consistent(d) && AllStandFor(State(d, slots), hs) && id < |hs| && slots[id].Opened? && hs[id].Handle?
    requires slots[id].hdr.numBytes == LengthOf(m, hs[id].key) && slots[id].position == hs[id].position
    ensures AllStandFor(State(d, Advanced(slots, id, n)), HandlesAdvanced(m, hs, id, n))
  {
    hide Consistent, StandsFor, Transfer, LengthOf;
    assert StandsFor(d, slots[id], hs[id]);
    StandsMoved(d, slots[id], hs[id], Transfer(LengthOf(m, hs[id].key), n, hs[id].position));
  }

  lemma StandsMoved(d: Disk, x: Slot, y: Handle, n: nat)
    requires Consistent(d) && StandsFor(d, x, y) && x.Opened? && y.Handle?
    ensures StandsFor(d, x.(position := x.position + n), y.(position := y.position + n))
  {}

  // ---- Opening ----

  /** Two names other than ".." are in one sector exactly when they have one key. */
  lemma OneSectorOneKey(d: Disk, a: seq<Byte>, b: seq<Byte>)
    requires Consistent(d)
    requires var i, j := Lookup(Root(d), a), Lookup(Root(d), b); i != -1 && i != 1 && j != -1 && j != 1
    ensures var t := Root(d); t[Lookup(t, a)].sector == t[Lookup(t, b)].sector <==> Key(a) == Key(b)
  {
    var i, j := Lookup(Root(d), a), Lookup(Root(d), b);
    hide Consistent, Mountable, Root, FileSectors;
    ConsistentFacts(d);
    SameKeySameEntry(Root(d), a, b);
    EntrySectorInRange(d, i);
    EntrySectorInRange(d, j);
    if i >= 2 { FileSectorOrdinary(d, i); HeaderInFile(d, Root(d)[i].sector); }
    if j >= 2 { FileSectorOrdinary(d, j); HeaderInFile(d, Root(d)[j].sector); }
    if i >= 2 && j >= 2 && i != j { FilesDisjoint(d, i, j, Root(d)[i].sector); }
  }

  /** The entry behind a name, with "." for "..". */
  lemma CanonicalEntry(d: Disk, name: seq<Byte>)
    requires Consistent(d) && Lookup(Root(d), name) != -1
    ensures var i, j := Lookup(Root(d), name), Lookup(Root(d), Canonical(name));
      && j == (if i == 1 then 0 else i) && Key(Canonical(name)) == Canonical(name)
      && Root(d)[i].sector == Root(d)[j].sector && HeaderOfEntry(d, i) == HeaderOfEntry(d, j)
  {
    hide Consistent, Mountable, Root, Lookup, Key;
    ConsistentFacts(d);
    OrdinaryLookup(d, name);
    OrdinaryLookup(d, Key(name));
    OrdinaryLookup(d, Key(DOT));
    KeyOfKey(name);
    KeyOfKey(DOT);
    SameKeySameEntry(Root(d), name, Key(name));
    EntrySectorInRange(d, 0);
    EntrySectorInRange(d, Lookup(Root(d), name));
  }

  lemma SameSlots(s: State, hs: Handles, name: seq<Byte>)
    requires Sound(s) && AllStandFor(s, hs) && Lookup(Root(s.disk), name) != -1
    ensures FindSlot(s.open, Root(s.disk)[Lookup(Root(s.disk), name)].sector) == FirstWhere(hs, OnKey(Canonical(name)))
    ensures FreeSlotIn(s.open) == FirstWhere(hs, IsShut())
  {
    hide Sound, Consistent, Mountable, Root, Lookup, Key, Canonical, HeaderOfEntry, FirstWhere, StandsFor, OnSector,
      OnKey;
    SoundFacts(s);
    CanonicalEntry(s.disk, name);
    var sector, key := Root(s.disk)[Lookup(Root(s.disk), name)].sector, Canonical(name);
    forall id | 0 <= id < |hs| ensures OnSector(sector)(s.open[id]) <==> OnKey(key)(hs[id]) {
      SlotMatches(s.disk, s.open[id], hs[id], sector, key);
    }
    forall id | 0 <= id < |hs| ensures IsClosed()(s.open[id]) <==> IsShut()(hs[id]) {
      SlotIsHandle(s.disk, s.open[id], hs[id]);
    }
    SameFirstPlace(s.open, hs, OnSector(sector), OnKey(key));
    SameFirstPlace(s.open, hs, IsClosed(), IsShut());
  }

  lemma SlotMatches(d: Disk, x: Slot, y: Handle, sector: nat, key: seq<Byte>)
    requires Consistent(d) && StandsFor(d, x, y) && Key(key) == key
    requires var i := Lookup(Root(d), key); i != -1 && i != 1 && Root(d)[i].sector == sector
    ensures OnSector(sector)(x) <==> OnKey(key)(y)
  {
    hide Consistent, Mountable, Root, Lookup, Key, HeaderOfEntry;
    if y.Handle? { OneSectorOneKey(d, y.key, key); }
  }

  lemma OpenOnHandles(s: State, m: FileMap, hs: Handles, name: seq<Byte>, mode: char)
    requires Sound(s) && Holds(s.disk, m) && AllStandFor(s, hs)
    ensures AllStandFor(s.(open := AfterOpen(s, name, mode)), HandlesAfterOpen(m, hs, name, mode))
  {
    hide Sound, Holds, Consistent, Mountable, Root, Lookup, Key, StandsFor, FirstWhere, Fetched, HeaderOfEntry;
    SoundFacts(s);
    KnownName(s.disk, m, name);
    if Lookup(Root(s.disk), name) != -1 {
      SameSlots(s, hs, name);
      if FreeSlotIn(s.open) != -1 { NewHandleStands(s.disk, name, mode); }
    }
  }

  lemma KnownName(d: Disk, m: FileMap, name: seq<Byte>)
    requires Consistent(d) && Holds(d, m)
    ensures Lookup(Root(d), name) != -1 <==> !OrdinaryName(name) || Canonical(name) in m
  {
    hide Holds, Consistent, Mountable, Root, Lookup, Key;
    OrdinaryLookup(d, name);
    LookupAndMap(d, m, name);
  }

  lemma NewHandleStands(d: Disk, name: seq<Byte>, mode: char)
    requires Consistent(d) && Lookup(Root(d), name) != -1
    ensures var i := Lookup(Root(d), name);
      StandsFor(d, Opened(Root(d)[i].sector, mode, HeaderOfEntry(d, i), 0), Handle(Canonical(name), mode, 0))
  {
    hide Consistent, Mountable, Root, Lookup, Key, Canonical;
    CanonicalEntry(d, name);
  }

  // ---- Whole runs ----

  lemma NextOnMap(s: State, m: FileMap, hs: Handles, op: Op, t: State) returns (n: FileMap, ks: Handles)
    requires Sound(s) && Holds(s.disk, m) && AllStandFor(s, hs) && Next(s, op, t) && Careful(s, op)
    ensures Sound(t) && Holds(t.disk, n) && AllStandFor(t, ks) && MapNext(m, hs, op, n, ks)
  {
    SoundFacts(s);
    n, ks := m, hs;
    match op
    case Create(name, size) => n := CreateOnHandles(s, m, hs, name, size, t);
    case Remove(name) => n := RemoveOnHandles(s, m, hs, name, t);
    case Write(id, data) => n, ks := WriteOnHandles(s, m, hs, id, data, t);
    case Open(name, mode) =>
      OpenKeepsSound(s, name, mode);
      OpenOnHandles(s, m, hs, name, mode);
      ks := HandlesAfterOpen(m, hs, name, mode);
    case Close(id) =>
      CloseKeepsSound(s, id);
      ks := hs[id := Shut];
    case Read(id, size) =>
      SlotsAreHandles(s, hs, id, 'r');
      if OpenFor(s.open, id, 'r') {
        MovedKeepsSound(s, id, Transfer(s.open[id].hdr.numBytes, size, s.open[id].position));
        AdvanceStands(s, m, hs, id, size);
        ks := HandlesAdvanced(m, hs, id, size);
      }
  }

  /** The file system is a map from names to byte strings: along every run of careful operations there
      are maps, starting with the empty one, that the disks hold, and handles that the open files stand
      for, and the operations change them as maps and handles change. */
  lemma {:induction false} RunRefinesMap(states: seq<State>, ops: seq<Op>)
    returns (maps: seq<FileMap>, handles: seq<Handles>)
    requires IsRun(states, ops) && forall k :: 0 <= k < |ops| ==> Careful(states[k], ops[k])
    ensures |maps| == |handles| == |states|
    ensures maps[0] == map[] && handles[0] == seq(NB_FILE_TABLE_ENTRIES, _ => Shut)
    ensures forall k :: 0 <= k < |states| ==>
      Sound(states[k]) && Holds(states[k].disk, maps[k]) && AllStandFor(states[k], handles[k])
    ensures forall k :: 0 <= k < |ops| ==> MapNext(maps[k], handles[k], ops[k], maps[k + 1], handles[k + 1])
    decreases |ops|
  {
    hide Holds, Consistent, Formatted, Next, MapNext, Careful, Sound, StandsFor;
    if ops == [] {
      StartsSound(states[0]);
      SoundFacts(states[0]);
      FormattedHoldsNothing(states[0].disk);
      maps, handles := [map[]], [seq(NB_FILE_TABLE_ENTRIES, _ => Shut)];
      NothingOpen(states[0]);
    } else {
      var n := |ops| - 1;
      var fewer := states[..n + 1];
      assert IsRun(fewer, ops[..n]) by {
        forall k | 0 <= k < n ensures Follows(fewer[k], ops[..n][k], fewer[k + 1]) {
          assert Follows(states[k], ops[k], states[k + 1]);
        }
      }
      forall k | 0 <= k < n ensures Careful(fewer[k], ops[..n][k]) { assert Careful(states[k], ops[k]); }
      var ms, hs := RunRefinesMap(fewer, ops[..n]);
      assert Sound(fewer[n]);
      SoundFacts(fewer[n]);
      assert Holds(fewer[n].disk, ms[n]) && AllStandFor(fewer[n], hs[n]);
      assert Follows(states[n], ops[n], states[n + 1]);
      var m, h := NextOnMap(states[n], ms[n], hs[n], ops[n], states[n + 1]);
      maps, handles := ms + [m], hs + [h];
      forall k | 0 <= k < |ops| ensures MapNext(maps[k], handles[k], ops[k], maps[k + 1], handles[k + 1]) {
        if k < n { assert MapNext(ms[k], hs[k], ops[..n][k], ms[k + 1], hs[k + 1]); }
      }
    }
  }

  lemma NothingOpen(s: State)
    requires Consistent(s.disk) && s.open == seq(NB_FILE_TABLE_ENTRIES, _ => Closed)
    ensures AllStandFor(s, seq(NB_FILE_TABLE_ENTRIES, _ => Shut))
  {
    hide Consistent;
  }
}
