/** Reading and writing open files sector by sector (filesys/openfile.cc): a file behaves as a byte
    array of fixed length. */
module OpenFiles {
  import opened Memory
  import opened Storage

  // ---- The byte array ----

  /** How many of n bytes at a position are transferred. */
  function Transfer(length: nat, n: int, position: nat): (r: nat)
    ensures position < length ==> position + r <= length
  {
    if n <= 0 || position >= length then 0
    else if position + n > length then length - position
    else n
  }

  function ReadSpec(content: seq<Byte>, n: int, position: nat): (r: seq<Byte>) {
    var k := Transfer(|content|, n, position);
    if k == 0 then [] else content[position..position + k]
  }

  /** The data replaces what is at the position, cut off at the end of the file. */
  function Splice(content: seq<Byte>, position: nat, data: seq<Byte>): (r: seq<Byte>)
    ensures |r| == |content|
  {
    var k := Transfer(|content|, |data|, position);
    if k == 0 then content else Overlay(content, position, data[..k])
  }

  /** What was written is read back, and nothing else has changed. */
  lemma SpliceThenRead(content: seq<Byte>, position: nat, data: seq<Byte>, at: nat, n: int)
    ensures ReadSpec(Splice(content, position, data), |data|, position) == data[..Transfer(|content|, |data|, position)]
    ensures at + n <= position || at >= position + |data| ==>
      ReadSpec(Splice(content, position, data), n, at) == ReadSpec(content, n, at)
  {}

  /** A read delivers the bytes from the position on, as many as were asked for and as there are. */
  lemma ReadDelivers(content: seq<Byte>, n: int, position: nat)
    ensures var r := ReadSpec(content, n, position);
      && |r| == (if n <= 0 || position >= |content| then 0 else if n < |content| - position then n
                 else |content| - position)
      && forall k :: 0 <= k < |r| ==> r[k] == content[position + k]
  {}

  /** A write changes exactly the bytes at the positions that it covers, up to the end of the file. */
  lemma SpliceAt(content: seq<Byte>, position: nat, data: seq<Byte>, k: nat)
    requires k < |content|
    ensures Splice(content, position, data)[k] ==
      if position <= k < position + |data| then data[k - position] else content[k]
  {}

  /** Write after Write, the position moving along. */
  function WriteAll(content: seq<Byte>, position: nat, chunks: seq<seq<Byte>>): (seq<Byte>, nat)
    decreases |chunks|
  {
    if chunks == [] then (content, position)
    else WriteAll(Splice(content, position, chunks[0]), position + Transfer(|content|, |chunks[0]|, position),
      chunks[1..])
  }

  function Concat(chunks: seq<seq<Byte>>): seq<Byte> {
    if chunks == [] then [] else chunks[0] + Concat(chunks[1..])
  }

  lemma OverlayTwice(content: seq<Byte>, position: nat, a: seq<Byte>, b: seq<Byte>)
    requires position + |a| + |b| <= |content|
    ensures Overlay(Overlay(content, position, a), position + |a|, b) == Overlay(content, position, a + b)
  {}

  lemma SpliceTwice(content: seq<Byte>, position: nat, a: seq<Byte>, b: seq<Byte>)
    ensures var next := position + Transfer(|content|, |a|, position);
      && Splice(Splice(content, position, a), next, b) == Splice(content, position, a + b)
      && next + Transfer(|content|, |b|, next) == position + Transfer(|content|, |a + b|, position)
  {
    hide Overlay;
    if a == [] {
      assert a + b == b;
    } else if position < |content| {
      var k := Transfer(|content|, |a|, position);
      if k < |a| {
        assert (a + b)[..k] == a[..k];
      } else {
        var n := Transfer(|content|, |b|, position + |a|);
        assert Transfer(|content|, |a + b|, position) == |a| + n;
        assert (a + b)[..|a| + n] == a + b[..n];
        assert a[..k] == a;
        if n > 0 {
          OverlayTwice(content, position, a, b[..n]);
        } else {
          assert a + b[..n] == a;
        }
      }
    }
  }

  /** Sequential writes in chunks of any sizes equal one write of the concatenation, and the file
      position ends in the same place. */
  lemma {:induction false} ChunksEqualOneWrite(content: seq<Byte>, position: nat, chunks: seq<seq<Byte>>)
    ensures WriteAll(content, position, chunks)
         == (Splice(content, position, Concat(chunks)), position + Transfer(|content|, |Concat(chunks)|, position))
    decreases |chunks|
  {
    if chunks != [] {
      var next := position + Transfer(|content|, |chunks[0]|, position);
      ChunksEqualOneWrite(Splice(content, position, chunks[0]), next, chunks[1..]);
      SpliceTwice(content, position, chunks[0], Concat(chunks[1..]));
    }
  }

  // ---- The disk and the open file ----

  /** The synchronous disk as one caller sees it; SynchDiskModel shows that the calls of any number
      of threads behave as if executed one after the other like this. */
  class SynchDisk {
    var sectors: Disk

    constructor (sectors: Disk)
      ensures this.sectors == sectors
    {
      this.sectors := sectors;
    }

    method ReadSector(s: nat) returns (data: seq<Byte>)
      requires s < |sectors|
      ensures data == sectors[s]
    {
      data := sectors[s];
    }

    method WriteSector(s: nat, data: seq<Byte>)
      requires s < |sectors|
      modifies this
      ensures sectors == old(sectors)[s := data]
    {
      sectors := sectors[s := data];
    }
  }

  /** bcopy: length bytes into a buffer. */
  method Bcopy(from: seq<Byte>, into: array<Byte>, at: nat)
    requires at + |from| <= into.Length
    modifies into
    ensures into[..] == Overlay(old(into[..]), at, from)
  {
    for i := 0 to |from|
      invariant forall k :: 0 <= k < into.Length ==> into[k] == if at <= k < at + i then from[k - at] else old(into[k])
    {
      into[at + i] := from[i];
    }
  }

  /** Part of a file: the sectors from number first on, count bytes of them. */
  ghost predicate HoldsSectors(d: Disk, m: Meta, first: nat, buf: seq<Byte>, count: nat)
    requires WellFormed(d) && ValidMeta(m)
  {
    count <= |buf| && forall k :: 0 <= k < count ==> InSector(d, m, first, k, buf[k])
  }

  predicate InSector(d: Disk, m: Meta, first: nat, k: nat, x: Byte)
    requires WellFormed(d) && ValidMeta(m)
  {
    var i := first + k / SECTOR_SIZE;
    i < |m.data| && (assert m.data[i] in m.data; d[m.data[i]][k % SECTOR_SIZE] == x)
  }

  lemma Shifted(first: nat, x: nat)
    ensures (first * SECTOR_SIZE + x) / SECTOR_SIZE == first + x / SECTOR_SIZE
    ensures (first * SECTOR_SIZE + x) % SECTOR_SIZE == x % SECTOR_SIZE
  {}

  /** The sectors from first to last cover n bytes at the position. */
  lemma Span(position: nat, n: nat, first: nat, last: nat)
    requires n > 0 && first == position / SECTOR_SIZE && last == (position + n - 1) / SECTOR_SIZE
    ensures first <= last && first * SECTOR_SIZE <= position < (first + 1) * SECTOR_SIZE
    ensures last * SECTOR_SIZE < position + n <= (last + 1) * SECTOR_SIZE
  {}

  lemma SliceOfSectors(d: Disk, m: Meta, first: nat, buf: seq<Byte>, off: nat, n: nat)
    requires WellFormed(d) && ValidMeta(m) && HoldsSectors(d, m, first, buf, |buf|)
    requires first * SECTOR_SIZE + off + n <= m.numBytes && off + n <= |buf|
    ensures buf[off..off + n] == FileBytes(d, m)[first * SECTOR_SIZE + off..first * SECTOR_SIZE + off + n]
  {
    var position := first * SECTOR_SIZE + off;
    var got, want := buf[off..off + n], FileBytes(d, m)[position..position + n];
    forall j | 0 <= j < n ensures got[j] == want[j] {
      assert InSector(d, m, first, off + j, buf[off + j]);
      Shifted(first, off + j);
    }
  }

  lemma ExtendSectors(d: Disk, m: Meta, first: nat, i: nat, before: seq<Byte>, buf: seq<Byte>)
    requires WellFormed(d) && ValidMeta(m) && first <= i < |m.data| && m.data[i] in m.data
    requires HoldsSectors(d, m, first, before, (i - first) * SECTOR_SIZE)
    requires (i - first + 1) * SECTOR_SIZE <= |before|
      && buf == Overlay(before, (i - first) * SECTOR_SIZE, d[m.data[i]])
    ensures HoldsSectors(d, m, first, buf, (i - first + 1) * SECTOR_SIZE)
  {
    var at := (i - first) * SECTOR_SIZE;
    forall k | 0 <= k < at + SECTOR_SIZE ensures InSector(d, m, first, k, buf[k]) {
      if k < at {
        assert InSector(d, m, first, k, before[k]);
      } else {
        assert first + k / SECTOR_SIZE == i && k % SECTOR_SIZE == k - at;
      }
    }
  }

  /** Sectors first to last of the file come from the buffer, all other sectors are as before. */
  ghost predicate Flushed(d: Disk, e: Disk, m: Meta, first: nat, end: nat, buf: seq<Byte>)
    requires ValidMeta(m) && WellFormed(d) && first <= end <= |m.data| && (end - first) * SECTOR_SIZE <= |buf|
  {
    && WellFormed(e)
    && (forall j :: first <= j < end ==> SectorFrom(e, m.data[j], buf, (j - first) * SECTOR_SIZE))
    && (forall s :: 0 <= s < NUM_SECTORS && s !in m.data[first..end] ==> e[s] == d[s])
  }

  predicate SectorFrom(e: Disk, s: nat, buf: seq<Byte>, at: nat) {
    s < |e| && at + SECTOR_SIZE <= |buf| && e[s] == buf[at..at + SECTOR_SIZE]
  }

  lemma NothingFlushed(d: Disk, m: Meta, first: nat, buf: seq<Byte>)
    requires ValidMeta(m) && WellFormed(d) && first <= |m.data|
    ensures Flushed(d, d, m, first, first, buf)
  {}

  lemma FlushOne(d: Disk, e: Disk, m: Meta, first: nat, i: nat, buf: seq<Byte>)
    requires ValidMeta(m) && WellFormed(d) && first <= i < |m.data| && (i + 1 - first) * SECTOR_SIZE <= |buf|
    requires Flushed(d, e, m, first, i, buf) && m.data[i] in m.data
    ensures var at := (i - first) * SECTOR_SIZE;
      WellFormed(e) && Flushed(d, e[m.data[i] := buf[at..at + SECTOR_SIZE]], m, first, i + 1, buf)
  {
    var at := (i - first) * SECTOR_SIZE;
    var f := e[m.data[i] := buf[at..at + SECTOR_SIZE]];
    forall j | first <= j < i + 1 ensures SectorFrom(f, m.data[j], buf, (j - first) * SECTOR_SIZE) {
      if j < i { assert SectorFrom(e, m.data[j], buf, (j - first) * SECTOR_SIZE); }
    }
    assert m.data[first..i + 1] == m.data[first..i] + [m.data[i]];
  }

  lemma FlushFrame(d: Disk, e: Disk, m: Meta, first: nat, end: nat, buf: seq<Byte>)
    requires ValidMeta(m) && WellFormed(d) && first <= end <= |m.data| && (end - first) * SECTOR_SIZE <= |buf|
    requires Flushed(d, e, m, first, end, buf)
    ensures forall s :: 0 <= s < NUM_SECTORS && s !in m.data ==> e[s] == d[s]
  {
    forall s | 0 <= s < NUM_SECTORS && s !in m.data ensures e[s] == d[s] {
      assert s !in m.data[first..end];
    }
  }

  /** The byte of the file at p after the flush. */
  lemma FlushedByte(d: Disk, e: Disk, m: Meta, first: nat, end: nat, buf: seq<Byte>, p: nat)
    requires ValidMeta(m) && WellFormed(d) && first <= end <= |m.data| && (end - first) * SECTOR_SIZE <= |buf|
    requires Flushed(d, e, m, first, end, buf) && p < m.numBytes
    ensures ByteAt(e, m, p) ==
      if first * SECTOR_SIZE <= p < end * SECTOR_SIZE then buf[p - first * SECTOR_SIZE] else ByteAt(d, m, p)
  {
    var j := p / SECTOR_SIZE;
    ByteIsStored(m, p);
    if first <= j < end {
      assert SectorFrom(e, m.data[j], buf, (j - first) * SECTOR_SIZE);
    } else {
      assert m.data[j] !in m.data[first..end];
    }
  }

  /** The buffer that WriteAt flushes: the new bytes, and around them what the file holds. */
  predicate BufferByte(content: seq<Byte>, data: seq<Byte>, position: nat, p: nat, x: Byte) {
    if position <= p < position + |data| then x == data[p - position]
    else p < |content| ==> x == content[p]
  }

  ghost predicate Ready(content: seq<Byte>, data: seq<Byte>, position: nat, start: nat, buf: seq<Byte>) {
    forall k :: 0 <= k < |buf| ==> BufferByte(content, data, position, start + k, buf[k])
  }

  lemma FlushedByteIsOverlaid(d: Disk, e: Disk, m: Meta, first: nat, end: nat, buf: seq<Byte>, data: seq<Byte>,
    position: nat, p: nat)
    requires ValidMeta(m) && WellFormed(d) && first <= end <= |m.data| && (end - first) * SECTOR_SIZE == |buf|
    requires Flushed(d, e, m, first, end, buf) && Ready(FileBytes(d, m), data, position, first * SECTOR_SIZE, buf)
    requires first * SECTOR_SIZE <= position && position + |data| <= end * SECTOR_SIZE
      && position + |data| <= m.numBytes
    requires p < m.numBytes
    ensures ByteAt(e, m, p) == if position <= p < position + |data| then data[p - position] else FileBytes(d, m)[p]
  {
    FlushedByte(d, e, m, first, end, buf, p);
    var start := first * SECTOR_SIZE;
    if start <= p < end * SECTOR_SIZE {
      assert BufferByte(FileBytes(d, m), data, position, start + (p - start), buf[p - start]);
    }
  }

  lemma FlushIsOverlay(d: Disk, e: Disk, m: Meta, first: nat, end: nat, buf: seq<Byte>, data: seq<Byte>, position: nat)
    requires ValidMeta(m) && WellFormed(d) && first <= end <= |m.data| && (end - first) * SECTOR_SIZE == |buf|
    requires Flushed(d, e, m, first, end, buf) && Ready(FileBytes(d, m), data, position, first * SECTOR_SIZE, buf)
    requires first * SECTOR_SIZE <= position && position + |data| <= end * SECTOR_SIZE
      && position + |data| <= m.numBytes
    ensures WellFormed(e) && FileBytes(e, m) == Overlay(FileBytes(d, m), position, data)
  {
    var c, after := Overlay(FileBytes(d, m), position, data), FileBytes(e, m);
    forall p | 0 <= p < m.numBytes ensures after[p] == c[p] {
      FlushedByteIsOverlaid(d, e, m, first, end, buf, data, position, p);
      OverlayAt(FileBytes(d, m), position, data, p);
    }
  }

  /** From index lo to hi the buffer, which starts at the file position start, holds the file. */
  ghost predicate Agrees(content: seq<Byte>, start: nat, buf: seq<Byte>, lo: nat, hi: nat) {
    hi <= |buf| && forall k :: lo <= k < hi && start + k < |content| ==> buf[k] == content[start + k]
  }

  lemma ReadAgrees(content: seq<Byte>, start: nat, at: nat, buf: seq<Byte>)
    requires at + SECTOR_SIZE <= |buf| && start + at < |content|
    ensures var r := ReadSpec(content, SECTOR_SIZE, start + at);
      at + |r| <= |buf| && Agrees(content, start, Overlay(buf, at, r), at, at + SECTOR_SIZE)
  {}

  lemma OverlayKeepsAgrees(content: seq<Byte>, start: nat, buf: seq<Byte>, lo: nat, hi: nat, at: nat, r: seq<Byte>)
    requires Agrees(content, start, buf, lo, hi) && hi <= at && at + |r| <= |buf|
    ensures Agrees(content, start, Overlay(buf, at, r), lo, hi)
  {}

  /** When the sectors at the two ends hold the file, copying the new bytes in makes it ready. */
  lemma ReadyAfterCopy(content: seq<Byte>, data: seq<Byte>, position: nat, start: nat, buf: seq<Byte>, lastAt: nat)
    requires start <= position && position + |data| <= start + |buf| && |buf| == lastAt + SECTOR_SIZE
    requires position < start + SECTOR_SIZE && start + lastAt < position + |data|
    requires position != start ==> Agrees(content, start, buf, 0, SECTOR_SIZE)
    requires position + |data| != start + |buf| ==> Agrees(content, start, buf, lastAt, |buf|)
    ensures Ready(content, data, position, start, Overlay(buf, position - start, data))
  {}

  /** WriteAt through a header that is in memory, whatever the disk holds by now. */
  ghost predicate Spliced(d: Disk, e: Disk, m: Meta, position: nat, data: seq<Byte>)
    requires WellFormed(d) && ValidMeta(m)
  {
    && WellFormed(e)
    && FileBytes(e, m) == Splice(FileBytes(d, m), position, data)
    && (forall x :: 0 <= x < NUM_SECTORS && x !in m.data ==> e[x] == d[x])
    && (Transfer(m.numBytes, |data|, position) == 0 ==> e == d)
  }

  class OpenFile {
    const disk: SynchDisk
    const hdr: Header
    var seekPosition: nat

    ghost predicate Valid()
      reads disk
    {
      && WellSized(hdr) && hdr.numSectors <= NUM_DIRECT && ValidMeta(MetaOf(hdr))
      && WellFormed(disk.sectors)
    }

    ghost function Content(): (c: seq<Byte>)
      requires Valid()
      reads disk
      ensures |c| == hdr.numBytes
    {
      FileBytes(disk.sectors, MetaOf(hdr))
    }

    /** Brings the header into memory. */
    constructor (disk: SynchDisk, sector: nat)
      requires WellFormed(disk.sectors) && sector < NUM_SECTORS
      ensures this.disk == disk && hdr == DecodeHeader(disk.sectors[sector]) && seekPosition == 0
    {
      this.disk := disk;
      var data := disk.ReadSector(sector);
      hdr := DecodeHeader(data);
      seekPosition := 0;
    }

    method ByteToSector(offset: nat) returns (s: nat)
      requires Valid() && offset / SECTOR_SIZE < hdr.numSectors
      ensures offset / SECTOR_SIZE < |MetaOf(hdr).data| && s == MetaOf(hdr).data[offset / SECTOR_SIZE] < NUM_SECTORS
    {
      s := hdr.dataSectors[offset / SECTOR_SIZE];
      assert MetaOf(hdr).data[offset / SECTOR_SIZE] in MetaOf(hdr).data;
    }

    /** Reads whole sectors into a buffer. */
    method FillSectors(first: nat, last: nat) returns (buf: array<Byte>)
      requires Valid() && first <= last < hdr.numSectors
      ensures fresh(buf) && buf.Length == (1 + last - first) * SECTOR_SIZE
      ensures HoldsSectors(disk.sectors, MetaOf(hdr), first, buf[..], buf.Length)
    {
      buf := new Byte[(1 + last - first) * SECTOR_SIZE];
      for i := first to last + 1
        invariant HoldsSectors(disk.sectors, MetaOf(hdr), first, buf[..], (i - first) * SECTOR_SIZE)
      {
        var s := ByteToSector(i * SECTOR_SIZE);
        var data := disk.ReadSector(s);
        ghost var before := buf[..];
        Bcopy(data, buf, (i - first) * SECTOR_SIZE);
        ExtendSectors(disk.sectors, MetaOf(hdr), first, i, before, buf[..]);
      }
    }

    method ReadAt(numBytes: int, position: nat) returns (into: seq<Byte>)
      requires Valid()
      ensures into == ReadSpec(Content(), numBytes, position)
    {
      var fileLength := hdr.numBytes;
      if numBytes <= 0 || position >= fileLength { return []; }
      var n: nat := numBytes;
      if position + n > fileLength { n := fileLength - position; }
      var firstSector := position / SECTOR_SIZE;
      var lastSector := (position + n - 1) / SECTOR_SIZE;
      ByteIsStored(MetaOf(hdr), position + n - 1);
      Span(position, n, firstSector, lastSector);
      var buf := FillSectors(firstSector, lastSector);
      var off := position - firstSector * SECTOR_SIZE;
      SliceOfSectors(disk.sectors, MetaOf(hdr), firstSector, buf[..], off, n);
      into := buf[off..off + n];
    }

    method Read(numBytes: int) returns (into: seq<Byte>)
      requires Valid()
      modifies this`seekPosition
      ensures into == ReadSpec(Content(), numBytes, old(seekPosition))
      ensures seekPosition == old(seekPosition) + Transfer(|Content()|, numBytes, old(seekPosition))
    {
      into := ReadAt(numBytes, seekPosition);
      seekPosition := seekPosition + |into|;
    }

    /** ReadAt of one sector into part of a buffer. */
    method ReadInto(buf: array<Byte>, at: nat, ghost start: nat, offset: nat)
      requires Valid() && at + SECTOR_SIZE <= buf.Length && offset == start + at < hdr.numBytes
      modifies buf
      ensures Agrees(Content(), start, buf[..], at, at + SECTOR_SIZE)
      ensures forall lo, hi :: 0 <= lo <= hi <= at && Agrees(Content(), start, old(buf[..]), lo, hi) ==>
        Agrees(Content(), start, buf[..], lo, hi)
    {
      var data := ReadAt(SECTOR_SIZE, offset);
      ReadAgrees(Content(), start, at, buf[..]);
      Bcopy(data, buf, at);
      forall lo, hi | 0 <= lo <= hi <= at && Agrees(Content(), start, old(buf[..]), lo, hi)
        ensures Agrees(Content(), start, buf[..], lo, hi)
      {
        OverlayKeepsAgrees(Content(), start, old(buf[..]), lo, hi, at, data);
      }
    }

    /** Builds the buffer of WriteAt: partly written sectors at both ends are read first. */
    method Assemble(data: seq<Byte>, position: nat, first: nat, last: nat) returns (buf: array<Byte>)
      requires Valid() && data != [] && position + |data| <= hdr.numBytes
      requires first == position / SECTOR_SIZE && last == (position + |data| - 1) / SECTOR_SIZE
      ensures fresh(buf) && buf.Length == (1 + last - first) * SECTOR_SIZE
      ensures Ready(Content(), data, position, first * SECTOR_SIZE, buf[..])
    {
      Span(position, |data|, first, last);
      ghost var start := first * SECTOR_SIZE;
      var lastAt := (last - first) * SECTOR_SIZE;
      buf := new Byte[(1 + last - first) * SECTOR_SIZE];
      var firstAligned := position == first * SECTOR_SIZE;
      var lastAligned := position + |data| == (last + 1) * SECTOR_SIZE;
      if !firstAligned {
        ReadInto(buf, 0, start, first * SECTOR_SIZE);
      }
      if !lastAligned && (first != last || firstAligned) {
        ReadInto(buf, lastAt, start, last * SECTOR_SIZE);
      }
      ReadyAfterCopy(Content(), data, position, start, buf[..], lastAt);
      Bcopy(data, buf, position - first * SECTOR_SIZE);
    }

    method FlushSector(first: nat, i: nat, buf: array<Byte>, ghost d: Disk)
      requires Valid() && WellFormed(d) && first <= i < hdr.numSectors && (i + 1 - first) * SECTOR_SIZE <= buf.Length
      requires Flushed(d, disk.sectors, MetaOf(hdr), first, i, buf[..])
      modifies disk
      ensures Valid() && Flushed(d, disk.sectors, MetaOf(hdr), first, i + 1, buf[..])
    {
      hide Flushed, Distinct, Below, DecodeHeader;
      var s := ByteToSector(i * SECTOR_SIZE);
      var at := (i - first) * SECTOR_SIZE;
      ghost var m, e, bytes := MetaOf(hdr), disk.sectors, buf[..];
      assert m.data[i] in m.data;
      FlushOne(d, e, m, first, i, bytes);
      var data := buf[at..at + SECTOR_SIZE];
      assert data == bytes[at..at + SECTOR_SIZE];
      disk.WriteSector(s, data);
    }

    method Flush(first: nat, last: nat, buf: array<Byte>)
      requires Valid() && first <= last < hdr.numSectors && buf.Length == (1 + last - first) * SECTOR_SIZE
      modifies disk
      ensures Flushed(old(disk.sectors), disk.sectors, MetaOf(hdr), first, last + 1, buf[..])
    {
      ghost var d := disk.sectors;
      NothingFlushed(d, MetaOf(hdr), first, buf[..]);
      hide Flushed, Distinct, Below;
      for i := first to last + 1
        invariant Valid() && Flushed(d, disk.sectors, MetaOf(hdr), first, i, buf[..])
      {
        FlushSector(first, i, buf, d);
      }
    }

    /** Flushing a ready buffer writes the data into the file and leaves the other sectors alone. */
    method FlushReady(first: nat, last: nat, buf: array<Byte>, ghost data: seq<Byte>, ghost position: nat)
      requires Valid() && first <= last < hdr.numSectors && buf.Length == (1 + last - first) * SECTOR_SIZE
      requires Ready(Content(), data, position, first * SECTOR_SIZE, buf[..])
      requires first * SECTOR_SIZE <= position && position + |data| <= (last + 1) * SECTOR_SIZE
        && position + |data| <= hdr.numBytes
      modifies disk
      ensures Valid() && Content() == Overlay(old(Content()), position, data)
      ensures forall s :: 0 <= s < NUM_SECTORS && s !in MetaOf(hdr).data ==> disk.sectors[s] == old(disk.sectors[s])
    {
      hide Flushed, Ready, Overlay, FileBytes, Distinct, Below;
      ghost var m, d, bytes := MetaOf(hdr), disk.sectors, buf[..];
      Flush(first, last, buf);
      FlushIsOverlay(d, disk.sectors, m, first, last + 1, bytes, data, position);
      FlushFrame(d, disk.sectors, m, first, last + 1, bytes);
    }

    /** The part of WriteAt behind its checks. */
    method WritePart(data: seq<Byte>, position: nat)
      requires Valid() && data != [] && position + |data| <= hdr.numBytes
      modifies disk
      ensures Valid() && Content() == Overlay(old(Content()), position, data)
      ensures forall s :: 0 <= s < NUM_SECTORS && s !in MetaOf(hdr).data ==> disk.sectors[s] == old(disk.sectors[s])
    {
      var firstSector := position / SECTOR_SIZE;
      var lastSector := (position + |data| - 1) / SECTOR_SIZE;
      ByteIsStored(MetaOf(hdr), position + |data| - 1);
      Span(position, |data|, firstSector, lastSector);
      var buf := Assemble(data, position, firstSector, lastSector);
      FlushReady(firstSector, lastSector, buf, data, position);
    }

    /** The buffer may be longer than what is written; the rest of the disk is left alone. */
    method WriteAt(from: seq<Byte>, numBytes: int, position: nat) returns (result: nat)
      requires Valid() && numBytes <= |from|
      modifies disk
      ensures Valid() && result == Transfer(|Content()|, numBytes, position)
      ensures Content() == if numBytes <= 0 then old(Content()) else Splice(old(Content()), position, from[..numBytes])
      ensures result == 0 ==> disk.sectors == old(disk.sectors)
      ensures forall s :: 0 <= s < NUM_SECTORS && s !in MetaOf(hdr).data ==> disk.sectors[s] == old(disk.sectors[s])
    {
      var fileLength := hdr.numBytes;
      if numBytes <= 0 || position >= fileLength { return 0; }
      result := numBytes;
      if position + result > fileLength { result := fileLength - position; }
      WritePart(from[..result], position);
      assert from[..numBytes][..result] == from[..result];
    }

    method Write(from: seq<Byte>) returns (result: nat)
      requires Valid()
      modifies disk, this`seekPosition
      ensures Valid() && result == Transfer(|Content()|, |from|, old(seekPosition))
      ensures Content() == Splice(old(Content()), old(seekPosition), from)
      ensures Spliced(old(disk.sectors), disk.sectors, MetaOf(hdr), old(seekPosition), from)
      ensures seekPosition == old(seekPosition) + result
      ensures forall s :: 0 <= s < NUM_SECTORS && s !in MetaOf(hdr).data ==> disk.sectors[s] == old(disk.sectors[s])
    {
      result := WriteAt(from, |from|, seekPosition);
      seekPosition := seekPosition + result;
      assert from[..|from|] == from;
    }

    /** Copy of filesys/fstest.cc: Write after Write until the input is used up. By
        ChunksEqualOneWrite the sizes of the buffers make no difference. */
    method WriteChunks(chunks: seq<seq<Byte>>)
      requires Valid()
      modifies disk, this`seekPosition
      ensures Valid() && Content() == Splice(old(Content()), old(seekPosition), Concat(chunks))
      ensures seekPosition == old(seekPosition) + Transfer(|Content()|, |Concat(chunks)|, old(seekPosition))
      ensures forall s :: 0 <= s < NUM_SECTORS && s !in MetaOf(hdr).data ==> disk.sectors[s] == old(disk.sectors[s])
    {
      hide Splice, Transfer, FileBytes, Concat, MetaOf, ValidMeta;
      ChunksEqualOneWrite(Content(), seekPosition, chunks);
      for i := 0 to |chunks|
        invariant Valid()
        invariant WriteAll(Content(), seekPosition, chunks[i..]) == WriteAll(old(Content()), old(seekPosition), chunks)
        invariant forall s :: 0 <= s < NUM_SECTORS && s !in MetaOf(hdr).data ==> disk.sectors[s] == old(disk.sectors[s])
      {
        assert chunks[i..][1..] == chunks[i + 1..];
        var result := Write(chunks[i]);
      }
    }
  }
}
