/** The table of open files (filesys/openfiletable.cc): which slots are taken, by which header sector,
    with which mode, and with the header as it was when the file was opened. */
module OpenTables {
  import opened Memory
  import opened BitMaps
  import opened Storage
  import opened OpenFiles
  import opened Directories

  const NB_FILE_TABLE_ENTRIES: nat := 10

  /** The header is the copy in memory; position is where the next read or write starts. */
  datatype Slot = Closed | Opened(sector: nat, mode: char, hdr: Header, position: nat)

  type Slots = seq<Slot>

  /** The first index from a given one on whose element satisfies p, or -1. */
  function FirstFrom<T>(s: seq<T>, p: T -> bool, from: nat): (r: int)
    requires from <= |s|
    ensures r == -1 || from <= r < |s|
    ensures r >= 0 ==> p(s[r]) && forall i :: from <= i < r ==> !p(s[i])
    ensures r == -1 <==> forall i :: from <= i < |s| ==> !p(s[i])
    decreases |s| - from
  {
    if from == |s| then -1 else if p(s[from]) then from else FirstFrom(s, p, from + 1)
  }

  function FirstWhere<T>(s: seq<T>, p: T -> bool): (r: int)
    ensures -1 <= r < |s|
    ensures r >= 0 ==> p(s[r])
    ensures r == -1 <==> forall i :: 0 <= i < |s| ==> !p(s[i])
  {
    FirstFrom(s, p, 0)
  }

  /** Sequences that satisfy two predicates at the same places have the same first place. */
  lemma {:induction false} SameFirst<S, T>(s: seq<S>, t: seq<T>, p: S -> bool, q: T -> bool, from: nat)
    requires from <= |s| == |t| && forall i :: from <= i < |s| ==> (p(s[i]) <==> q(t[i]))
    ensures FirstFrom(s, p, from) == FirstFrom(t, q, from)
    decreases |s| - from
  {
    if from < |s| { SameFirst(s, t, p, q, from + 1); }
  }

  lemma SameFirstPlace<S, T>(s: seq<S>, t: seq<T>, p: S -> bool, q: T -> bool)
    requires |s| == |t| && forall i :: 0 <= i < |s| ==> (p(s[i]) <==> q(t[i]))
    ensures FirstWhere(s, p) == FirstWhere(t, q)
  {
    SameFirst(s, t, p, q, 0);
  }

  function OnSector(sector: nat): Slot -> bool { (x: Slot) => x.Opened? && x.sector == sector }

  function IsClosed(): Slot -> bool { (x: Slot) => x.Closed? }

  /** The slot that holds the file with this header sector, or -1. */
  function FindSlot(slots: Slots, sector: nat): int { FirstWhere(slots, OnSector(sector)) }

  function FreeSlotIn(slots: Slots): int { FirstWhere(slots, IsClosed()) }

  /** A file is opened once, whatever the mode; otherwise it takes the first free slot. */
  function WithOpened(slots: Slots, sector: nat, mode: char, hdr: Header): (r: Slots)
    ensures |r| == |slots|
  {
    if FindSlot(slots, sector) != -1 || FreeSlotIn(slots) == -1 then slots
    else slots[FreeSlotIn(slots) := Opened(sector, mode, hdr, 0)]
  }

  /** The index that Open returns. */
  function OpenedAt(slots: Slots, sector: nat): int {
    if FindSlot(slots, sector) != -1 then FindSlot(slots, sector) else FreeSlotIn(slots)
  }

  /** A slot with this index is open in this mode. */
  predicate OpenFor(slots: Slots, id: int, mode: char) {
    0 <= id < |slots| && slots[id].Opened? && slots[id].mode == mode
  }

  /** How many bytes a read or write through the table transfers; -1 if the slot is not open for it. */
  function Transferred(slots: Slots, id: int, mode: char, n: int): int {
    if OpenFor(slots, id, mode) then Transfer(slots[id].hdr.numBytes, n, slots[id].position) else -1
  }

  /** The bytes are those that the header in the slot lists from its position on. */
  ghost predicate Delivers(d: Disk, x: Slot, n: int, into: seq<Byte>) {
    && x.Opened? && WellFormed(d) && WellSized(x.hdr) && ValidMeta(MetaOf(x.hdr))
    && into == ReadSpec(FileBytes(d, MetaOf(x.hdr)), n, x.position)
  }

  function Moved(slots: Slots, id: nat, n: nat): (r: Slots)
    requires id < |slots| && slots[id].Opened?
    ensures |r| == |slots|
  {
    slots[id := slots[id].(position := slots[id].position + n)]
  }

  // ---- The classes ----

  class OpenFileEntry {
    const file: OpenFile
    const mode: char
    const sector: nat

    constructor (file: OpenFile, mode: char, sector: nat)
      ensures this.file == file && this.mode == mode && this.sector == sector
    {
      this.file, this.mode, this.sector := file, mode, sector;
    }

    ghost function AsSlot(): Slot
      reads file
    {
      Opened(sector, mode, file.hdr, file.seekPosition)
    }
  }

  function Taken(t: seq<OpenFileEntry?>): (bits: seq<bool>)
    ensures |bits| == |t|
  {
    seq(|t|, i requires 0 <= i < |t| => t[i] != null)
  }

  ghost function OpenFilesOf(t: seq<OpenFileEntry?>): set<OpenFile> {
    set i | 0 <= i < |t| && t[i] != null :: t[i].file
  }

  class OpenFileTable {
    const table: array<OpenFileEntry?>
    var nbFiles: nat

    ghost predicate Valid()
      reads this, table
    {
      && table.Length == NB_FILE_TABLE_ENTRIES
      && nbFiles + CountClear(Taken(table[..])) == NB_FILE_TABLE_ENTRIES
      && forall i, j :: 0 <= i < j < table.Length && table[i] != null && table[j] != null ==>
        table[i].file != table[j].file
    }

    ghost function SlotAt(i: nat): Slot
      requires i < table.Length
      reads table, if table[i] == null then {} else {table[i].file}
    {
      if table[i] == null then Closed else table[i].AsSlot()
    }

    ghost function View(): (slots: Slots)
      reads table, OpenFilesOf(table[..])
      ensures |slots| == table.Length && forall i :: 0 <= i < |slots| ==> slots[i] == SlotAt(i)
    {
      seq(table.Length, i requires 0 <= i < table.Length reads table, OpenFilesOf(table[..]) => SlotAt(i))
    }

    constructor ()
      ensures Valid() && fresh(table) && View() == seq(NB_FILE_TABLE_ENTRIES, _ => Closed)
      ensures OpenFilesOf(table[..]) == {}
    {
      table := new OpenFileEntry?[NB_FILE_TABLE_ENTRIES](_ => null);
      nbFiles := 0;
      new;
      AllClear(Taken(table[..]));
    }

    method Find(sector: nat) returns (r: int)
      requires Valid()
      ensures r == FindSlot(View(), sector)
    {
      for i := 0 to table.Length
        invariant forall k :: 0 <= k < i ==> !OnSector(sector)(View()[k])
      {
        if table[i] != null && table[i].sector == sector {
          FirstIs(View(), OnSector(sector), i);
          return i;
        }
      }
      return -1;
    }

    /** The ASSERT behind the loop is not reached: nbFiles counts the slots that are taken. */
    method Add(e: OpenFileEntry) returns (r: int)
      requires Valid() && e.file !in OpenFilesOf(table[..])
      modifies this`nbFiles, table
      ensures Valid() && r == FreeSlotIn(old(View()))
      ensures table[..] == if r == -1 then old(table[..]) else old(table[..])[r := e]
      ensures View() == if r == -1 then old(View()) else old(View())[r := e.AsSlot()]
    {
      CountClearZero(Taken(table[..]));
      if nbFiles >= NB_FILE_TABLE_ENTRIES {
        assert forall i :: 0 <= i < table.Length ==> Taken(table[..])[i] ==> table[i] != null;
        assert forall i :: 0 <= i < table.Length ==> View()[i] == SlotAt(i);
        return -1;
      }
      for i := 0 to table.Length
        invariant forall k :: 0 <= k < i ==> table[k] != null
        invariant table[..] == old(table[..]) && nbFiles == old(nbFiles)
      {
        if table[i] == null {
          FirstIs(View(), IsClosed(), i);
          TakenUpdate(table[..], i, e);
          nbFiles := nbFiles + 1;
          table[i] := e;
          return i;
        }
      }
      assert false;
      return -1;
    }

    method Remove(i: nat) returns (r: int)
      requires Valid() && i < table.Length
      modifies this`nbFiles, table
      ensures Valid() && table[..] == old(table[..])[i := null] && View() == old(View())[i := Closed]
      ensures r == if old(View())[i].Opened? then 0 else -1
    {
      if table[i] == null { return -1; }
      TakenUpdate(table[..], i, null);
      CountClearBound(Taken(table[..][i := null]));
      nbFiles := nbFiles - 1;
      table[i] := null;
      return 0;
    }

    /** Looks the name up in the directory file and fetches the header before it searches the table. */
    method Open(name: seq<Byte>, mode: char, directoryFile: OpenFile) returns (id: int)
      requires Valid() && directoryFile.Valid() && directoryFile.hdr.numBytes == DIRECTORY_FILE_SIZE
      requires var t := DecodeTable(directoryFile.Content());
        Lookup(t, name) != -1 ==> t[Lookup(t, name)].sector < NUM_SECTORS
      modifies this`nbFiles, table
      ensures Valid()
      ensures var t := DecodeTable(directoryFile.Content()); var i := Lookup(t, name);
        if i == -1 then id == -1 && View() == old(View())
        else
          && id == OpenedAt(old(View()), t[i].sector)
          && View() == WithOpened(old(View()), t[i].sector, mode, DecodeHeader(directoryFile.disk.sectors[t[i].sector]))
      ensures forall f :: f in OpenFilesOf(table[..]) ==>
        f in old(OpenFilesOf(table[..])) || (fresh(f) && f.disk == directoryFile.disk)
    {
      hide DecodeTable, Lookup, FileBytes, DecodeHeader, FindSlot, FreeSlotIn, Taken, CountClear;
      ghost var t := DecodeTable(directoryFile.Content());
      var sector := SectorOf(name, directoryFile);
      assert View() == old(View());
      if sector < 0 { return -1; }
      id := OpenSector(sector, mode, directoryFile.disk);
    }

    method SectorOf(name: seq<Byte>, directoryFile: OpenFile) returns (sector: int)
      requires directoryFile.Valid() && directoryFile.hdr.numBytes == DIRECTORY_FILE_SIZE
      ensures var t := DecodeTable(directoryFile.Content());
        sector == if Lookup(t, name) == -1 then -1 else t[Lookup(t, name)].sector
    {
      var directory := new Directory(BlankTable());
      directory.FetchFrom(directoryFile);
      sector := directory.Find(name);
    }

    /** The part of Open behind the search of the directory. */
    method OpenSector(sector: nat, mode: char, disk: SynchDisk) returns (id: int)
      requires Valid() && WellFormed(disk.sectors) && sector < NUM_SECTORS
      modifies this`nbFiles, table
      ensures Valid() && id == OpenedAt(old(View()), sector)
      ensures View() == WithOpened(old(View()), sector, mode, DecodeHeader(disk.sectors[sector]))
      ensures forall f :: f in OpenFilesOf(table[..]) ==>
        f in old(OpenFilesOf(table[..])) || (fresh(f) && f.disk == disk)
    {
      hide DecodeHeader, Taken, CountClear, FirstWhere;
      var file := new OpenFile(disk, sector);
      var entry := new OpenFileEntry(file, mode, sector);
      assert View() == old(View()) && file !in OpenFilesOf(table[..]);
      id := Find(entry.sector);
      if id != -1 { return; }
      id := Add(entry);
      assert View() == WithOpened(old(View()), sector, mode, DecodeHeader(disk.sectors[sector]));
      assert forall f :: f in OpenFilesOf(table[..]) ==> f in old(OpenFilesOf(table[..])) || f == file;
    }

    method Close(i: nat) returns (r: int)
      requires Valid() && i < table.Length
      modifies this`nbFiles, table
      ensures Valid() && table[..] == old(table[..])[i := null] && View() == old(View())[i := Closed]
      ensures r == if old(View())[i].Opened? then 0 else -1
    {
      if table[i] == null { return -1; }
      r := Remove(i);
    }

    method Get(i: int) returns (entry: OpenFileEntry?)
      requires Valid()
      ensures entry == if 0 <= i < table.Length then table[i] else null
    {
      if i >= NB_FILE_TABLE_ENTRIES || i < 0 { return null; }
      entry := table[i];
    }

    /** Read on the file of an entry. */
    method ReadEntry(i: nat, numBytes: int) returns (into: seq<Byte>)
      requires Valid() && i < table.Length && table[i] != null && table[i].file.Valid()
      modifies table[i].file`seekPosition
      ensures Valid() && table[i].file.disk.sectors == old(table[i].file.disk.sectors)
      ensures Delivers(table[i].file.disk.sectors, old(View())[i], numBytes, into)
      ensures |into| == Transfer(table[i].file.hdr.numBytes, numBytes, old(table[i].file.seekPosition))
      ensures View() == Moved(old(View()), i, |into|)
    {
      ghost var slots := View();
      hide Taken, CountClear, FileBytes;
      into := table[i].file.Read(numBytes);
      assert forall k :: 0 <= k < table.Length && k != i ==> SlotAt(k) == slots[k];
    }

    /** Write on the file of an entry. */
    method WriteEntry(i: nat, from: seq<Byte>) returns (result: nat)
      requires Valid() && i < table.Length && table[i] != null && table[i].file.Valid()
      modifies table[i].file.disk, table[i].file`seekPosition
      ensures Valid() && table[i].file.Valid()
      ensures var x := old(View())[i]; var file := table[i].file;
        && result == Transfer(x.hdr.numBytes, |from|, x.position)
        && Spliced(old(table[i].file.disk.sectors), file.disk.sectors, MetaOf(file.hdr), x.position, from)
        && View() == Moved(old(View()), i, result)
    {
      ghost var slots := View();
      ghost var file := table[i].file;
      hide Taken, CountClear, FileBytes, Spliced;
      result := table[i].file.Write(from);
      assert forall k :: 0 <= k < table.Length && k != i ==> SlotAt(k) == slots[k];
    }
  }

  lemma FirstIs<T>(s: seq<T>, p: T -> bool, i: nat)
    requires i < |s| && p(s[i]) && forall k :: 0 <= k < i ==> !p(s[k])
    ensures FirstWhere(s, p) == i
  {}

  lemma TakenUpdate(t: seq<OpenFileEntry?>, i: nat, e: OpenFileEntry?)
    requires i < |t|
    ensures CountClear(Taken(t[i := e])) ==
      CountClear(Taken(t)) - (if t[i] == null then 1 else 0) + (if e == null then 1 else 0)
  {
    assert Taken(t[i := e]) == Taken(t)[i := e != null];
    CountClearUpdate(Taken(t), i, e != null);
  }
}
