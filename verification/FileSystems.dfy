/** The file system on disk (filesys/filesys.cc): which sectors belong to whom, and what creating,
    removing and writing files does to the disk.

    The disk after an operation is described by a relation, because WriteAt fills the unused end of
    the last directory sector with whatever its buffer held. */
module FileSystems {
  import opened Memory
  import opened Storage
  import opened FileHeaders
  import opened Directories

  const FREE_MAP_SECTOR: nat := 0
  const DIRECTORY_SECTOR: nat := 1

  // ---- What a disk holds ----

  predicate ValidHeader(h: Header) {
    WellSized(h) && h.numSectors <= NUM_DIRECT && ValidMeta(MetaOf(h))
  }

  function HeaderAt(d: Disk, s: nat): Header
    requires WellFormed(d) && s < NUM_SECTORS
  {
    DecodeHeader(d[s])
  }

  function MetaAt(d: Disk, s: nat): Meta
    requires WellFormed(d) && s < NUM_SECTORS
  {
    MetaOf(HeaderAt(d, s))
  }

  /** The free map and the root directory can be read. */
  ghost predicate Mountable(d: Disk) {
    && WellFormed(d)
    && ValidHeader(HeaderAt(d, FREE_MAP_SECTOR)) && HeaderAt(d, FREE_MAP_SECTOR).numBytes == MAP_FILE_SIZE
    && ValidHeader(HeaderAt(d, DIRECTORY_SECTOR)) && HeaderAt(d, DIRECTORY_SECTOR).numBytes == DIRECTORY_FILE_SIZE
  }

  function MapMeta(d: Disk): Meta requires WellFormed(d) { MetaAt(d, FREE_MAP_SECTOR) }
  function RootMeta(d: Disk): Meta requires WellFormed(d) { MetaAt(d, DIRECTORY_SECTOR) }

  function FreeBits(d: Disk): (bits: seq<bool>)
    requires Mountable(d)
    ensures |bits| == NUM_SECTORS
  {
    MapBits(FileBytes(d, MapMeta(d)))
  }

  function Root(d: Disk): (t: Table)
    requires Mountable(d)
    ensures |t| == NUM_DIR_ENTRIES && WellFormedTable(t)
  {
    DecodeTable(FileBytes(d, RootMeta(d)))
  }

  /** Entry i names a file; entries 0 and 1 are "." and "..". */
  predicate IsFile(t: Table, i: nat) { 2 <= i < |t| && InUse(t[i]) }

  // ---- Who owns which sectors ----

  datatype Layout = Layout(system: seq<nat>, files: seq<seq<nat>>)

  predicate InSome(files: seq<seq<nat>>, s: nat) {
    exists i :: 0 <= i < |files| && s in files[i]
  }

  /** Everybody's sectors are different, and the marked sectors are exactly those that somebody owns. */
  ghost predicate Owns(bits: seq<bool>, lay: Layout) {
    && Distinct(lay.system) && Below(lay.system, |bits|)
    && (forall i :: 0 <= i < |lay.files| ==> Distinct(lay.files[i]) && Below(lay.files[i], |bits|))
    && (forall i, s :: 0 <= i < |lay.files| && s in lay.files[i] ==> s !in lay.system)
    && (forall i, j, s :: 0 <= i < j < |lay.files| && s in lay.files[i] ==> s !in lay.files[j])
    && (forall s: nat :: s < |bits| ==> (bits[s] <==> s in lay.system || InSome(lay.files, s)))
  }

  /** A header sector and the data sectors that it lists. */
  function FileSectors(d: Disk, s: nat): seq<nat>
    requires WellFormed(d)
  {
    if s < NUM_SECTORS then [s] + MetaAt(d, s).data else []
  }

  function SystemSectors(d: Disk): seq<nat>
    requires WellFormed(d)
  {
    [FREE_MAP_SECTOR, DIRECTORY_SECTOR] + MapMeta(d).data + RootMeta(d).data
  }

  function LayoutOf(d: Disk): Layout
    requires Mountable(d)
  {
    var t := Root(d);
    Layout(SystemSectors(d), seq(|t|, i requires 0 <= i < |t| =>
      if IsFile(t, i) then FileSectors(d, t[i].sector) else []))
  }

  function SpecialName(i: nat): seq<Byte> { if i == 0 then DOT else DOT_DOT }

  /** "." and ".." are there, and every other entry in use names a file with a sound header. */
  ghost predicate SoundEntry(d: Disk, t: Table, i: nat)
    requires WellFormed(d) && i < |t|
  {
    if i < 2 then
      InUse(t[i]) && t[i].isDirectory != 0 && t[i].sector == DIRECTORY_SECTOR && KeyOf(t[i]) == Key(SpecialName(i))
    else InUse(t[i]) ==> t[i].isDirectory == 0 && t[i].sector < NUM_SECTORS && ValidHeader(HeaderAt(d, t[i].sector))
  }

  ghost predicate Consistent(d: Disk) {
    && Mountable(d)
    && (forall i :: 0 <= i < NUM_DIR_ENTRIES ==> SoundEntry(d, Root(d), i))
    && DistinctKeys(Root(d))
    && Owns(FreeBits(d), LayoutOf(d))
  }

  // ---- Ownership under allocation and freeing ----

  lemma PartsApart(a: seq<nat>, b: seq<nat>, i: nat, j: nat)
    requires Distinct([FREE_MAP_SECTOR, DIRECTORY_SECTOR] + a + b)
    ensures i < |a| ==> a[i] > 1
    ensures j < |b| ==> b[j] > 1
    ensures i < |a| && j < |b| ==> a[i] != b[j]
  {
    var sys := [FREE_MAP_SECTOR, DIRECTORY_SECTOR] + a + b;
    assert sys[0] == FREE_MAP_SECTOR && sys[1] == DIRECTORY_SECTOR;
    if i < |a| { assert sys[2 + i] == a[i]; }
    if j < |b| { assert sys[2 + |a| + j] == b[j]; }
  }

  /** The headers and the data of the two system files lie in different sectors. */
  lemma SystemApart(d: Disk)
    requires Mountable(d) && Distinct(SystemSectors(d))
    ensures forall s :: s in MapMeta(d).data ==> s < NUM_SECTORS && s > 1 && s !in RootMeta(d).data
    ensures forall s :: s in RootMeta(d).data ==> s < NUM_SECTORS && s > 1 && s !in MapMeta(d).data
  {
    var a, b := MapMeta(d).data, RootMeta(d).data;
    forall i | 0 <= i < |a| ensures a[i] > 1 { PartsApart(a, b, i, |b|); }
    forall j | 0 <= j < |b| ensures b[j] > 1 { PartsApart(a, b, |a|, j); }
    forall i, j | 0 <= i < |a| && 0 <= j < |b| ensures a[i] != b[j] { PartsApart(a, b, i, j); }
  }

  lemma OwnedSector(bits: seq<bool>, lay: Layout, i: nat, s: nat)
    requires Owns(bits, lay) && i < |lay.files| && s in lay.files[i]
    ensures s < |bits| && bits[s] && s !in lay.system
    ensures forall j :: 0 <= j < |lay.files| && j != i ==> s !in lay.files[j]
  {
    var k :| 0 <= k < |lay.files[i]| && lay.files[i][k] == s;
    assert InSome(lay.files, s);
  }

  lemma OwnsAdd(bits: seq<bool>, lay: Layout, slot: nat, sectors: seq<nat>, after: seq<bool>)
    requires Owns(bits, lay) && slot < |lay.files| && lay.files[slot] == [] && |after| == |bits|
    requires Distinct(sectors) && Below(sectors, |bits|) && (forall k :: 0 <= k < |sectors| ==> !bits[sectors[k]])
    requires forall s: nat :: s < |bits| ==> (after[s] <==> bits[s] || s in sectors)
    ensures Owns(after, lay.(files := lay.files[slot := sectors]))
  {
    var files := lay.files[slot := sectors];
    forall s: nat | s < |bits| ensures after[s] <==> s in lay.system || InSome(files, s) {
      if s in sectors { assert s in files[slot]; }
      if i :| 0 <= i < |lay.files| && s in lay.files[i] { assert s in files[i]; }
      if i :| 0 <= i < |files| && s in files[i] { assert i != slot ==> s in lay.files[i]; }
    }
    forall i, s | 0 <= i < |lay.files| && s in lay.files[i] ensures s !in sectors {
      assert s < |bits| && InSome(lay.files, s);
    }
    forall s | s in lay.system ensures s !in sectors {}
  }

  lemma OwnsRemove(bits: seq<bool>, lay: Layout, slot: nat, after: seq<bool>)
    requires Owns(bits, lay) && slot < |lay.files| && |after| == |bits|
    requires forall s: nat :: s < |bits| ==> (after[s] <==> bits[s] && s !in lay.files[slot])
    ensures Owns(after, lay.(files := lay.files[slot := []]))
  {
    var files := lay.files[slot := []];
    forall s: nat | s < |bits| ensures after[s] <==> s in lay.system || InSome(files, s) {
      if i :| 0 <= i < |lay.files| && s in lay.files[i] {
        if i != slot { assert s in files[i]; }
      }
      if i :| 0 <= i < |files| && s in files[i] { assert i != slot && s in lay.files[i]; }
    }
  }
}
