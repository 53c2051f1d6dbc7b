/** What the sectors of the disk mean to the file system: file headers, files, and the way words
    and directory entries are laid out in bytes (filesys/filehdr.h, filesys/directory.h). */
module Storage {
  import opened Words
  import opened Memory

  const SECTOR_SIZE: nat := 128
  const NUM_SECTORS: nat := 1024
  const NUM_DIRECT: nat := 30                       // (SectorSize - 2 * sizeof(int)) / sizeof(int)
  const MAX_FILE_SIZE: nat := 3840                  // NumDirect * SectorSize

  type Disk = seq<seq<Byte>>

  ghost predicate WellFormed(d: Disk) {
    |d| == NUM_SECTORS && forall s :: 0 <= s < |d| ==> |d[s]| == SECTOR_SIZE
  }

  // ---- Words in bytes ----

  /** Groups of four bytes, one after the other. */
  function Flatten(groups: seq<seq<Byte>>): (b: seq<Byte>)
    requires forall i :: 0 <= i < |groups| ==> |groups[i]| == 4
    ensures |b| == 4 * |groups|
  {
    seq(4 * |groups|, i requires 0 <= i < 4 * |groups| => groups[i / 4][i % 4])
  }

  lemma FlattenSlice(groups: seq<seq<Byte>>, i: nat)
    requires (forall i :: 0 <= i < |groups| ==> |groups[i]| == 4) && i < |groups|
    ensures Flatten(groups)[4 * i..4 * i + 4] == groups[i]
  {
    forall k | 0 <= k < 4 ensures Flatten(groups)[4 * i..4 * i + 4][k] == groups[i][k] {
      assert (4 * i + k) / 4 == i && (4 * i + k) % 4 == k;
    }
  }

  function WordsToBytes(ws: seq<Word>): (b: seq<Byte>)
    ensures |b| == 4 * |ws|
  {
    Flatten(seq(|ws|, i requires 0 <= i < |ws| => Encode(ws[i], 4)))
  }

  function BytesToWords(b: seq<Byte>): (ws: seq<Word>)
    ensures |ws| == |b| / 4
  {
    seq(|b| / 4, i requires 0 <= i < |b| / 4 => Decode(b[4 * i..4 * i + 4]))
  }

  lemma WordsRoundTrip(ws: seq<Word>)
    ensures BytesToWords(WordsToBytes(ws)) == ws
  {
    var groups := seq(|ws|, i requires 0 <= i < |ws| => Encode(ws[i], 4));
    forall i | 0 <= i < |ws| ensures BytesToWords(WordsToBytes(ws))[i] == ws[i] {
      FlattenSlice(groups, i);
      DecodeEncode(ws[i], 4);
    }
  }

  // ---- File headers ----

  /** A header in memory: the fields of class FileHeader. */
  datatype Header = Header(numBytes: Word, numSectors: Word, dataSectors: seq<Word>)

  predicate WellSized(h: Header) { |h.dataSectors| == NUM_DIRECT }

  function EncodeHeader(h: Header): (b: seq<Byte>)
    requires WellSized(h)
    ensures |b| == SECTOR_SIZE
  {
    WordsToBytes([h.numBytes, h.numSectors] + h.dataSectors)
  }

  function DecodeHeader(b: seq<Byte>): (h: Header)
    requires |b| == SECTOR_SIZE
    ensures WellSized(h)
  {
    var ws := BytesToWords(b);
    Header(ws[0], ws[1], ws[2..])
  }

  /** Where the fields of a header lie in its sector. */
  lemma HeaderLayout(b: seq<Byte>)
    requires |b| == 128
    ensures var h := DecodeHeader(b);
      && Little(b, 0, h.numBytes) && Little(b, 4, h.numSectors)
      && |h.dataSectors| == 30 && forall i :: 0 <= i < 30 ==> Little(b, 8 + 4 * i, h.dataSectors[i])
  {
    var ws := BytesToWords(b);
    forall i | 0 <= i < 32 ensures Little(b, 4 * i, ws[i]) {
      var g := b[4 * i..4 * i + 4];
      assert g[0] == b[4 * i] && g[1] == b[4 * i + 1] && g[2] == b[4 * i + 2] && g[3] == b[4 * i + 3];
    }
    hide BytesToWords;
    forall i | 0 <= i < 30 ensures Little(b, 8 + 4 * i, DecodeHeader(b).dataSectors[i]) {
      assert Little(b, 4 * (i + 2), ws[i + 2]);
    }
    assert Little(b, 4 * 0, ws[0]) && Little(b, 4 * 1, ws[1]);
  }

  /** What is written to a header sector is what is fetched from it. */
  lemma HeaderRoundTrip(h: Header)
    requires WellSized(h)
    ensures DecodeHeader(EncodeHeader(h)) == h
  {
    WordsRoundTrip([h.numBytes, h.numSectors] + h.dataSectors);
  }

  /** The part of a header that counts: the length and the sectors in use. */
  datatype Meta = Meta(numBytes: nat, data: seq<nat>)

  function MetaOf(h: Header): Meta
    requires WellSized(h)
  {
    Meta(h.numBytes, if h.numSectors <= NUM_DIRECT then h.dataSectors[..h.numSectors] else h.dataSectors)
  }

  predicate Distinct(s: seq<nat>) {
    forall i, j :: 0 <= i < j < |s| ==> s[i] != s[j]
  }

  predicate Below(s: seq<nat>, n: nat) {
    forall i :: 0 <= i < |s| ==> s[i] < n
  }

  /** Enough sectors for the length, none of them twice. */
  predicate ValidMeta(m: Meta) {
    && |m.data| == DivRoundUp(m.numBytes, SECTOR_SIZE) <= NUM_DIRECT
    && Distinct(m.data)
    && Below(m.data, NUM_SECTORS)
  }

  // ---- Files ----

  lemma ByteIsStored(m: Meta, k: nat)
    requires ValidMeta(m) && k < m.numBytes
    ensures k / SECTOR_SIZE < |m.data| && m.data[k / SECTOR_SIZE] < NUM_SECTORS
  {
    assert m.data[k / SECTOR_SIZE] in m.data;
  }

  function ByteAt(d: Disk, m: Meta, k: nat): Byte
    requires WellFormed(d) && ValidMeta(m) && k < m.numBytes
  {
    ByteIsStored(m, k);
    d[m.data[k / SECTOR_SIZE]][k % SECTOR_SIZE]
  }

  /** The bytes of a file. */
  function FileBytes(d: Disk, m: Meta): (b: seq<Byte>)
    requires WellFormed(d) && ValidMeta(m)
    ensures |b| == m.numBytes
  {
    seq(m.numBytes, k requires 0 <= k < m.numBytes => ByteAt(d, m, k))
  }

  /** A file depends on nothing but its own data sectors. */
  lemma FileBytesFrame(d: Disk, e: Disk, m: Meta)
    requires WellFormed(d) && WellFormed(e) && ValidMeta(m)
    requires forall s :: s in m.data ==> d[s] == e[s]
    ensures FileBytes(d, m) == FileBytes(e, m)
  {
    forall k | 0 <= k < m.numBytes ensures FileBytes(d, m)[k] == FileBytes(e, m)[k] {
      ByteIsStored(m, k);
      assert m.data[k / SECTOR_SIZE] in m.data;
    }
  }

  // ---- Directory entries ----

  const ENTRY_SIZE: nat := 20
  const NAME_MAX: nat := 9

  /** An entry as it lies in memory; the paddings and the tenth byte of the name are never set. */
  datatype DirEntry = DirEntry(inUse: Byte, pad: seq<Byte>, sector: Word, name: seq<Byte>, isDirectory: Byte,
    tail: Byte)

  predicate WellFormedEntry(e: DirEntry) { |e.pad| == 3 && |e.name| == NAME_MAX + 1 }

  function EncodeEntry(e: DirEntry): (b: seq<Byte>)
    requires WellFormedEntry(e)
    ensures |b| == ENTRY_SIZE
  {
    [e.inUse] + e.pad + Encode(e.sector, 4) + e.name + [e.isDirectory, e.tail]
  }

  function DecodeEntry(b: seq<Byte>): (e: DirEntry)
    requires |b| == ENTRY_SIZE
    ensures WellFormedEntry(e)
  {
    DirEntry(b[0], b[1..4], Decode(b[4..8]), b[8..18], b[18], b[19])
  }

  lemma EntryRoundTrip(e: DirEntry)
    requires WellFormedEntry(e)
    ensures DecodeEntry(EncodeEntry(e)) == e
  {
    var b := EncodeEntry(e);
    assert b[1..4] == e.pad;
    assert b[4..8] == Encode(e.sector, 4);
    assert b[8..18] == e.name;
    DecodeEncode(e.sector, 4);
  }

  ghost predicate WellFormedTable(t: seq<DirEntry>) {
    forall i :: 0 <= i < |t| ==> WellFormedEntry(t[i])
  }

  function EncodeTable(t: seq<DirEntry>): (b: seq<Byte>)
    requires WellFormedTable(t)
    ensures |b| == ENTRY_SIZE * |t|
  {
    seq(ENTRY_SIZE * |t|, i requires 0 <= i < ENTRY_SIZE * |t| => EncodeEntry(t[i / ENTRY_SIZE])[i % ENTRY_SIZE])
  }

  function DecodeTable(b: seq<Byte>): (t: seq<DirEntry>)
    ensures |t| == |b| / ENTRY_SIZE && WellFormedTable(t)
  {
    seq(|b| / ENTRY_SIZE, i requires 0 <= i < |b| / ENTRY_SIZE =>
      DecodeEntry(b[ENTRY_SIZE * i..ENTRY_SIZE * i + ENTRY_SIZE]))
  }

  lemma TableSlice(t: seq<DirEntry>, i: nat)
    requires WellFormedTable(t) && i < |t|
    ensures EncodeTable(t)[ENTRY_SIZE * i..ENTRY_SIZE * i + ENTRY_SIZE] == EncodeEntry(t[i])
  {
    var b := EncodeTable(t);
    forall k | 0 <= k < ENTRY_SIZE ensures b[ENTRY_SIZE * i + k] == EncodeEntry(t[i])[k] {
      assert (ENTRY_SIZE * i + k) / ENTRY_SIZE == i && (ENTRY_SIZE * i + k) % ENTRY_SIZE == k;
    }
    hide EncodeTable, EncodeEntry;
    var x := b[ENTRY_SIZE * i..ENTRY_SIZE * i + ENTRY_SIZE];
    assert forall k :: 0 <= k < ENTRY_SIZE ==> x[k] == b[ENTRY_SIZE * i + k];
  }

  lemma TableRoundTrip(t: seq<DirEntry>)
    requires WellFormedTable(t)
    ensures DecodeTable(EncodeTable(t)) == t
  {
    hide EncodeTable, EncodeEntry, DecodeEntry;
    forall i | 0 <= i < |t| ensures DecodeTable(EncodeTable(t))[i] == t[i] {
      TableSlice(t, i);
      EntryRoundTrip(t[i]);
    }
  }

  /** Where the fields of entry i lie in a directory file. */
  lemma EntryLayout(b: seq<Byte>, i: nat)
    requires i < |b| / 20
    ensures var e := DecodeTable(b)[i];
      && e.inUse == b[20 * i] && Little(b, 20 * i + 4, e.sector) && e.isDirectory == b[20 * i + 18]
      && |e.name| == 10 && forall k :: 0 <= k < 10 ==> e.name[k] == b[20 * i + 8 + k]
  {
    var x := b[20 * i..20 * i + 20];
    assert forall k :: 0 <= k < 20 ==> x[k] == b[20 * i + k];
    assert DecodeTable(b)[i] == DecodeEntry(x);
    assert x[4..8] == [b[20 * i + 4], b[20 * i + 5], b[20 * i + 6], b[20 * i + 7]];
  }
}
