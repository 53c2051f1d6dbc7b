/** Frames, page tables and the NOFF loader (userprog/frameprovider.cc, userprog/addrspace.cc)
    on top of address translation: every run keeps the spaces apart, and each space is a
    private byte array that starts as the image of its executable. */
module Spaces {
  import OpenFiles
  import opened Words
  import opened Memory

  const USER_STACK_SIZE: nat := 2048
  const NOFF_MAGIC: Word := 0xbadfad
  const HEADER_SIZE: nat := 40

  // ---- The executable ----

  datatype Segment = Segment(virtualAddr: Word, inFileAddr: Word, size: Word)
  datatype NoffHeader = NoffHeader(magic: Word, code: Segment, initData: Segment, uninitData: Segment)

  function WordAt(file: seq<Byte>, at: nat): Word
    requires at + 4 <= |file|
  {
    Decode(file[at..at + 4])
  }

  function SegmentAt(file: seq<Byte>, at: nat): Segment
    requires at + 12 <= |file|
  {
    Segment(WordAt(file, at), WordAt(file, at + 4), WordAt(file, at + 8))
  }

  function HeaderOf(file: seq<Byte>): NoffHeader
    requires |file| >= HEADER_SIZE
  {
    NoffHeader(WordAt(file, 0), SegmentAt(file, 4), SegmentAt(file, 16), SegmentAt(file, 28))
  }

  function NumPages(h: NoffHeader): nat {
    DivRoundUp(h.code.size + h.initData.size + h.uninitData.size + USER_STACK_SIZE, PAGE_SIZE)
  }

  /** What OpenFile::ReadAt delivers. */
  function Slice(file: seq<Byte>, position: nat, numBytes: nat): seq<Byte> {
    OpenFiles.ReadSpec(file, numBytes, position)
  }

  predicate InSpace(seg: Segment, extent: nat) {
    seg.size > 0 ==> seg.virtualAddr + seg.size <= extent
  }

  /** What the constructor asserts or relies on: the magic number, a size that the machine can
      hold, and segments inside the space. */
  predicate Loadable(file: seq<Byte>) {
    && |file| >= HEADER_SIZE
    && var h := HeaderOf(file);
      && h.magic == NOFF_MAGIC
      && NumPages(h) <= NUM_PHYS_PAGES
      && InSpace(h.code, NumPages(h) * PAGE_SIZE)
      && InSpace(h.initData, NumPages(h) * PAGE_SIZE)
  }

  function Zeros(n: nat): (z: seq<Byte>)
    ensures |z| == n && forall i :: 0 <= i < n ==> z[i] == 0
  {
    seq(n, i => 0)
  }

  function WithSegment(image: seq<Byte>, file: seq<Byte>, seg: Segment): (r: seq<Byte>)
    requires InSpace(seg, |image|)
    ensures |r| == |image|
  {
    if seg.size > 0 then Overlay(image, seg.virtualAddr, Slice(file, seg.inFileAddr, seg.size)) else image
  }

  /** The memory image the loader is supposed to build. */
  function LoadedImage(file: seq<Byte>): (r: seq<Byte>)
    requires Loadable(file)
    ensures |r| == NumPages(HeaderOf(file)) * PAGE_SIZE
  {
    var h := HeaderOf(file);
    WithSegment(WithSegment(Zeros(NumPages(h) * PAGE_SIZE), file, h.code), file, h.initData)
  }

  /** The address lies in a segment of this size, at a byte that the file has. */
  predicate Covered(file: seq<Byte>, virtualAddr: nat, inFileAddr: nat, size: nat, v: nat) {
    virtualAddr <= v < virtualAddr + size && inFileAddr + (v - virtualAddr) < |file|
  }

  /** The bytes of the executable alone: its magic number is at offset 0, and the segments of code,
      initialised and uninitialised data are described from 4, 16 and 28 on. */
  ghost predicate Describes(file: seq<Byte>, code: seq<nat>, data: seq<nat>, bss: nat) {
    && |code| == 3 && |data| == 3
    && (forall k :: 0 <= k < 3 ==> Little(file, 4 + 4 * k, code[k]) && Little(file, 16 + 4 * k, data[k]))
    && Little(file, 36, bss)
  }

  lemma HeaderBytes(file: seq<Byte>, code: seq<nat>, data: seq<nat>, bss: nat)
    requires Describes(file, code, data, bss)
    ensures var h := HeaderOf(file);
      && (h.magic == 0xbadfad <==> file[..4] == [0xad, 0xdf, 0xba, 0])
      && h.code == Segment(code[0], code[1], code[2]) && h.initData == Segment(data[0], data[1], data[2])
      && h.uninitData.size == bss
  {
    forall k | 0 <= k < 3 ensures WordAt(file, 4 + 4 * k) == code[k] && WordAt(file, 16 + 4 * k) == data[k] {
      assert Little(file, 4 + 4 * k, code[k]) && Little(file, 16 + 4 * k, data[k]);
    }
    assert WordAt(file, 36) == bss;
    assert WordAt(file, 0) == (file[0] as int) + 0x100 * (file[1] as int)
      + 0x10000 * (file[2] as int) + 0x100_0000 * (file[3] as int);
    assert file[..4] == [file[0], file[1], file[2], file[3]];
  }

  /** The size of the space is that of the three segments and the stack, rounded up to whole pages. An
      executable is loadable when it has the magic number, the space fits into memory, and code and
      initialised data lie inside. */
  lemma LoadedSize(file: seq<Byte>, code: seq<nat>, data: seq<nat>, bss: nat)
    requires Describes(file, code, data, bss)
    ensures var extent := (code[2] + data[2] + bss + 2048 + 127) / 128 * 128;
      && (Loadable(file) <==>
        && file[..4] == [0xad, 0xdf, 0xba, 0] && extent <= MEMORY_SIZE
        && (code[2] > 0 ==> code[0] + code[2] <= extent) && (data[2] > 0 ==> data[0] + data[2] <= extent))
      && (Loadable(file) ==> |LoadedImage(file)| == extent)
  {
    HeaderBytes(file, code, data, bss);
    RoundedUp(code[2] + data[2] + bss + 2048);
    hide HeaderOf, DivRoundUp, Describes;
  }

  lemma RoundedUp(n: nat)
    ensures DivRoundUp(n, PAGE_SIZE) == (n + 127) / 128
  {}

  /** Byte by byte, from the bytes of the file: initialised data is loaded over code, each byte of a
      segment is the file's byte as far as the file goes, and every other byte is zero. */
  lemma LoadedByte(file: seq<Byte>, code: seq<nat>, data: seq<nat>, bss: nat, v: nat)
    requires Describes(file, code, data, bss) && Loadable(file) && v < |LoadedImage(file)|
    ensures LoadedImage(file)[v] ==
      if Covered(file, data[0], data[1], data[2], v) then file[data[1] + (v - data[0])]
      else if Covered(file, code[0], code[1], code[2], v) then file[code[1] + (v - code[0])]
      else 0
  {
    HeaderBytes(file, code, data, bss);
    hide HeaderOf, LoadedImage, Covered, Loadable;
    SegmentsByte(file, v);
  }

  lemma SegmentsByte(file: seq<Byte>, v: nat)
    requires Loadable(file) && v < |LoadedImage(file)|
    ensures var code, data := HeaderOf(file).code, HeaderOf(file).initData;
      LoadedImage(file)[v] == (
        if Covered(file, data.virtualAddr, data.inFileAddr, data.size, v)
          then file[data.inFileAddr + (v - data.virtualAddr)]
        else if Covered(file, code.virtualAddr, code.inFileAddr, code.size, v)
        then file[code.inFileAddr + (v - code.virtualAddr)]
        else 0)
  {
    hide HeaderOf, NumPages, WithSegment, Covered, Zeros;
    var h := HeaderOf(file);
    var zeros := Zeros(NumPages(h) * PAGE_SIZE);
    SegmentByte(zeros, file, h.code, v);
    SegmentByte(WithSegment(zeros, file, h.code), file, h.initData, v);
  }

  lemma SegmentByte(image: seq<Byte>, file: seq<Byte>, seg: Segment, v: nat)
    requires InSpace(seg, |image|) && v < |image|
    ensures WithSegment(image, file, seg)[v] ==
      if Covered(file, seg.virtualAddr, seg.inFileAddr, seg.size, v) then file[seg.inFileAddr + (v - seg.virtualAddr)]
      else image[v]
  {
    if seg.size > 0 { OverlayAt(image, seg.virtualAddr, Slice(file, seg.inFileAddr, seg.size), v); }
  }

  // ---- The system ----

  datatype System = System(mem: Ram, frames: seq<bool>, spaces: map<nat, PageTable>)

  datatype Action =
    | Create(id: nat, file: seq<Byte>, chosen: seq<nat>)   // chosen: the frames rand() picks
    | FreeFrames(id: nat)
    | Read(id: nat, addr: Word, size: nat)
    | Write(id: nat, addr: Word, size: nat, value: Word)

  function Boot(mem: Ram): System {
    System(mem, seq(NUM_PHYS_PAGES, i => i == 0), map[])
  }

  /** The frames picked are free, real and different. */
  predicate FreshFrames(frames: seq<bool>, chosen: seq<nat>) {
    && (forall i :: 0 <= i < |chosen| ==> chosen[i] < |frames| && !frames[chosen[i]])
    && (forall i, j :: 0 <= i < j < |chosen| ==> chosen[i] != chosen[j])
  }

  function MarkAll(frames: seq<bool>, chosen: seq<nat>): (r: seq<bool>)
    ensures |r| == |frames|
    ensures forall f :: 0 <= f < |frames| ==> r[f] == (frames[f] || f in chosen)
  {
    seq(|frames|, f requires 0 <= f < |frames| => frames[f] || f in chosen)
  }

  function ClearAll(frames: seq<bool>, pt: PageTable): (r: seq<bool>)
    ensures |r| == |frames|
    ensures forall f :: 0 <= f < |frames| ==>
      r[f] == (frames[f] && !exists i :: 0 <= i < |pt| && pt[i].physicalPage == f)
  {
    seq(|frames|, f requires 0 <= f < |frames| => frames[f] && !exists i :: 0 <= i < |pt| && pt[i].physicalPage == f)
  }

  /** GetEmptyFrame zeroes the frame it hands out. */
  function ZeroFrames(mem: Ram, chosen: seq<nat>): (r: Ram)
    ensures forall a :: 0 <= a < MEMORY_SIZE ==> r[a] == if a / PAGE_SIZE in chosen then 0 else mem[a]
  {
    seq(MEMORY_SIZE, a requires 0 <= a < MEMORY_SIZE => if a / PAGE_SIZE in chosen then 0 else mem[a])
  }

  function FreshTable(chosen: seq<nat>): (pt: PageTable)
    ensures |pt| == |chosen|
    ensures forall i :: 0 <= i < |pt| ==> pt[i] == Entry(i, chosen[i], true, false, false, false)
  {
    seq(|chosen|, i requires 0 <= i < |chosen| => Entry(i, chosen[i], true, false, false, false))
  }

  /** ReadAtVirtual: the bytes are written one at a time through the page table. */
  function StoreBytes(mem: Ram, pt: PageTable, virtAddr: nat, bytes: seq<Byte>): (Ram, PageTable)
    decreases |bytes|
  {
    if bytes == [] || virtAddr + |bytes| > W then (mem, pt) else
    var (mem1, pt1) := StoreBytes(mem, pt, virtAddr, bytes[..|bytes| - 1]);
    match WriteMem(mem1, pt1, virtAddr + |bytes| - 1, 1, bytes[|bytes| - 1])
    case Memory(mem2, pt2) => (mem2, pt2)
    case StoreFault(_) => (mem1, pt1)
  }

  function LoadSegment(mem: Ram, pt: PageTable, file: seq<Byte>, seg: Segment): (Ram, PageTable) {
    if seg.size > 0 then StoreBytes(mem, pt, seg.virtualAddr, Slice(file, seg.inFileAddr, seg.size)) else (mem, pt)
  }

  function CreateStep(s: System, id: nat, file: seq<Byte>, chosen: seq<nat>): System
    requires Loadable(file)
  {
    var h := HeaderOf(file);
    var (mem1, pt1) := LoadSegment(ZeroFrames(s.mem, chosen), FreshTable(chosen), file, h.code);
    var (mem2, pt2) := LoadSegment(mem1, pt1, file, h.initData);
    System(mem2, MarkAll(s.frames, chosen), s.spaces[id := pt2])
  }

  function FreeStep(s: System, id: nat): System
    requires id in s.spaces
  {
    s.(frames := ClearAll(s.frames, s.spaces[id]), spaces := s.spaces - {id})
  }

  function ReadStep(s: System, id: nat, addr: Word, size: nat): System
    requires id in s.spaces && ValidSize(size)
  {
    match ReadMem(s.mem, s.spaces[id], addr, size)
    case Value(_, pt) => s.(spaces := s.spaces[id := pt])
    case LoadFault(_) => s
  }

  function WriteStep(s: System, id: nat, addr: Word, size: nat, value: Word): System
    requires id in s.spaces && ValidSize(size)
  {
    match WriteMem(s.mem, s.spaces[id], addr, size, value)
    case Memory(mem, pt) => s.(mem := mem, spaces := s.spaces[id := pt])
    case StoreFault(_) => s
  }

  predicate Enabled(s: System, a: Action) {
    match a
    case Create(id, file, chosen) =>
      id !in s.spaces && Loadable(file) && |chosen| == NumPages(HeaderOf(file)) && FreshFrames(s.frames, chosen)
    case FreeFrames(id) => id in s.spaces
    case Read(id, _, size) => id in s.spaces && ValidSize(size)
    case Write(id, _, size, _) => id in s.spaces && ValidSize(size)
  }

  /** One action; an action that is not enabled changes nothing. */
  function Step(s: System, a: Action): System {
    if !Enabled(s, a) then s else
    match a
    case Create(id, file, chosen) => CreateStep(s, id, file, chosen)
    case FreeFrames(id) => FreeStep(s, id)
    case Read(id, addr, size) => ReadStep(s, id, addr, size)
    case Write(id, addr, size, value) => WriteStep(s, id, addr, size, value)
  }

  type Trace = seq<Action>

  function Exec(mem: Ram, trace: Trace): System {
    if trace == [] then Boot(mem) else Step(Exec(mem, trace[..|trace| - 1]), trace[|trace| - 1])
  }

  // ---- The invariant ----

  predicate Mapped(s: System, f: nat) {
    exists id, i :: id in s.spaces && 0 <= i < |s.spaces[id]| && s.spaces[id][i].physicalPage == f
  }

  /** Live tables map disjoint real frames; a frame is marked exactly if it is frame 0, which is
      never handed out, or it belongs to a live space. */
  ghost predicate Isolated(s: System) {
    && |s.frames| == NUM_PHYS_PAGES
    && (forall id :: id in s.spaces ==> WellMapped(s.spaces[id]))
    && (forall id, jd :: id in s.spaces && jd in s.spaces && id != jd ==> DisjointTables(s.spaces[id], s.spaces[jd]))
    && (forall f :: 0 <= f < NUM_PHYS_PAGES ==> (s.frames[f] <==> f == 0 || Mapped(s, f)))
    && !Mapped(s, 0)
  }

  // ---- Storing bytes ----

  /** One byte written through a table that maps like pt. */
  lemma StoreOneByte(mem: Ram, pt: PageTable, pt1: PageTable, virtAddr: Word, byte: Byte)
    requires WellMapped(pt) && SameMapping(pt, pt1) && virtAddr < Extent(pt)
    ensures var r := WriteMem(mem, pt1, virtAddr, 1, byte);
      && r.Memory?
      && SameMapping(pt, r.table)
      && Image(r.mem, pt) == Overlay(Image(mem, pt), virtAddr, [byte])
  {
    SameMappingSameImage(mem, pt, pt1);
    WriteChangesImage(mem, pt1, virtAddr, 1, byte);
    TranslateSucceeds(pt1, virtAddr, 1, true);
    var r := WriteMem(mem, pt1, virtAddr, 1, byte);
    SameMappingSameImage(r.mem, pt, pt1);
  }

  lemma StoreOneByteElsewhere(mem: Ram, pt: PageTable, pt1: PageTable, virtAddr: Word, byte: Byte, q: PageTable)
    requires WellMapped(pt) && SameMapping(pt, pt1) && virtAddr < Extent(pt)
    requires WellMapped(q) && DisjointTables(pt, q)
    ensures var r := WriteMem(mem, pt1, virtAddr, 1, byte); r.Memory? && Image(r.mem, q) == Image(mem, q)
  {
    SameMappingSameImage(mem, pt, pt1);
    TranslateSucceeds(pt1, virtAddr, 1, true);
    WriteKeepsOtherImage(mem, pt1, q, virtAddr, 1, byte);
  }

  lemma OverlayExtend(s: seq<Byte>, at: nat, b: seq<Byte>, x: Byte)
    requires at + |b| < |s|
    ensures Overlay(Overlay(s, at, b), at + |b|, [x]) == Overlay(s, at, b + [x])
  {}

  /** One byte more: StoreBytes is the store of all but the last byte, then the last byte. */
  lemma StoreBytesStep(mem: Ram, pt: PageTable, virtAddr: nat, bytes: seq<Byte>, r: (Ram, PageTable), w: Stored)
    requires bytes != [] && virtAddr + |bytes| <= W
    requires r == StoreBytes(mem, pt, virtAddr, bytes[..|bytes| - 1])
    requires w == WriteMem(r.0, r.1, virtAddr + |bytes| - 1, 1, bytes[|bytes| - 1]) && w.Memory?
    ensures StoreBytes(mem, pt, virtAddr, bytes) == (w.mem, w.table)
  {}

  /** The same for a store that may fail, which leaves everything as it was. */
  lemma StoreBytesNext(mem: Ram, pt: PageTable, virtAddr: nat, bytes: seq<Byte>, r: (Ram, PageTable), w: Stored)
    requires bytes != [] && virtAddr + |bytes| <= W
    requires r == StoreBytes(mem, pt, virtAddr, bytes[..|bytes| - 1])
    requires w == WriteMem(r.0, r.1, virtAddr + |bytes| - 1, 1, bytes[|bytes| - 1])
    ensures StoreBytes(mem, pt, virtAddr, bytes) == if w.Memory? then (w.mem, w.table) else r
  {}

  lemma StoreLastImage(mem: Ram, pt: PageTable, virtAddr: nat, bytes: seq<Byte>, r: (Ram, PageTable))
    requires WellMapped(pt) && virtAddr + |bytes| <= Extent(pt) <= W && bytes != []
    requires r == StoreBytes(mem, pt, virtAddr, bytes[..|bytes| - 1]) && SameMapping(pt, r.1)
    ensures SameMapping(pt, StoreBytes(mem, pt, virtAddr, bytes).1)
    ensures Image(StoreBytes(mem, pt, virtAddr, bytes).0, pt)
      == Overlay(Image(r.0, pt), virtAddr + |bytes| - 1, [bytes[|bytes| - 1]])
  {
    hide StoreBytes, WriteMem, Image, Overlay, WellMapped, SameMapping;
    var n := |bytes| - 1;
    var w := WriteMem(r.0, r.1, virtAddr + n, 1, bytes[n]);
    StoreOneByte(r.0, pt, r.1, virtAddr + n, bytes[n]);
    StoreBytesStep(mem, pt, virtAddr, bytes, r, w);
  }

  /** Byte after byte through the page table is one overlay of the image. */
  lemma {:induction false} StoreBytesImage(mem: Ram, pt: PageTable, virtAddr: nat, bytes: seq<Byte>)
    requires WellMapped(pt) && virtAddr + |bytes| <= Extent(pt) <= W
    ensures SameMapping(pt, StoreBytes(mem, pt, virtAddr, bytes).1)
    ensures Image(StoreBytes(mem, pt, virtAddr, bytes).0, pt) == Overlay(Image(mem, pt), virtAddr, bytes)
    decreases |bytes|
  {
    if bytes == [] {
      hide Image, WellMapped;
    } else {
      hide StoreBytes, Image, Overlay, WellMapped, SameMapping;
      var n := |bytes| - 1;
      StoreBytesImage(mem, pt, virtAddr, bytes[..n]);
      StoreLastImage(mem, pt, virtAddr, bytes, StoreBytes(mem, pt, virtAddr, bytes[..n]));
      OverlayExtend(Image(mem, pt), virtAddr, bytes[..n], bytes[n]);
      assert bytes[..n] + [bytes[n]] == bytes;
    }
  }

  lemma StoreLastElsewhere(mem: Ram, pt: PageTable, virtAddr: nat, bytes: seq<Byte>, q: PageTable, r: (Ram, PageTable))
    requires WellMapped(pt) && virtAddr + |bytes| <= Extent(pt) <= W && bytes != []
    requires WellMapped(q) && DisjointTables(pt, q)
    requires r == StoreBytes(mem, pt, virtAddr, bytes[..|bytes| - 1]) && SameMapping(pt, r.1)
    ensures Image(StoreBytes(mem, pt, virtAddr, bytes).0, q) == Image(r.0, q)
  {
    hide StoreBytes, WriteMem, Image, WellMapped, SameMapping, DisjointTables;
    var n := |bytes| - 1;
    var w := WriteMem(r.0, r.1, virtAddr + n, 1, bytes[n]);
    StoreOneByteElsewhere(r.0, pt, r.1, virtAddr + n, bytes[n], q);
    StoreBytesStep(mem, pt, virtAddr, bytes, r, w);
  }

  lemma {:induction false} StoreBytesElsewhere(mem: Ram, pt: PageTable, virtAddr: nat, bytes: seq<Byte>, q: PageTable)
    requires WellMapped(pt) && virtAddr + |bytes| <= Extent(pt) <= W
    requires WellMapped(q) && DisjointTables(pt, q)
    ensures Image(StoreBytes(mem, pt, virtAddr, bytes).0, q) == Image(mem, q)
    decreases |bytes|
  {
    if bytes != [] {
      var front := bytes[..|bytes| - 1];
      StoreBytesImage(mem, pt, virtAddr, front);
      StoreLastElsewhere(mem, pt, virtAddr, bytes, q, StoreBytes(mem, pt, virtAddr, front));
      StoreBytesElsewhere(mem, pt, virtAddr, front, q);
    }
  }

  lemma LoadSegmentImage(mem: Ram, pt: PageTable, file: seq<Byte>, seg: Segment)
    requires WellMapped(pt) && InSpace(seg, Extent(pt)) && Extent(pt) <= W
    ensures SameMapping(pt, LoadSegment(mem, pt, file, seg).1)
    ensures Image(LoadSegment(mem, pt, file, seg).0, pt) == WithSegment(Image(mem, pt), file, seg)
  {
    if seg.size > 0 {
      StoreBytesImage(mem, pt, seg.virtualAddr, Slice(file, seg.inFileAddr, seg.size));
    }
  }

  lemma LoadSegmentElsewhere(mem: Ram, pt: PageTable, file: seq<Byte>, seg: Segment, q: PageTable)
    requires WellMapped(pt) && InSpace(seg, Extent(pt)) && Extent(pt) <= W
    requires WellMapped(q) && DisjointTables(pt, q)
    ensures Image(LoadSegment(mem, pt, file, seg).0, q) == Image(mem, q)
  {
    if seg.size > 0 {
      StoreBytesElsewhere(mem, pt, seg.virtualAddr, Slice(file, seg.inFileAddr, seg.size), q);
    }
  }

  // ---- Creating a space ----

  lemma FreshTableImage(mem: Ram, frames: seq<bool>, chosen: seq<nat>)
    requires |frames| == NUM_PHYS_PAGES && FreshFrames(frames, chosen)
    ensures WellMapped(FreshTable(chosen))
    ensures Image(ZeroFrames(mem, chosen), FreshTable(chosen)) == Zeros(|chosen| * PAGE_SIZE)
  {
    var pt := FreshTable(chosen);
    forall v | 0 <= v < Extent(pt) ensures Image(ZeroFrames(mem, chosen), pt)[v] == 0 {
      var page := v / PAGE_SIZE;
      assert page < |chosen|;
      assert PhysOf(pt, v) / PAGE_SIZE == chosen[page];
    }
  }

  lemma ZeroKeepsImage(mem: Ram, chosen: seq<nat>, q: PageTable)
    requires WellMapped(q) && forall i :: 0 <= i < |q| ==> q[i].physicalPage !in chosen
    ensures Image(ZeroFrames(mem, chosen), q) == Image(mem, q)
  {
    forall v | 0 <= v < Extent(q) ensures Image(ZeroFrames(mem, chosen), q)[v] == Image(mem, q)[v] {
      assert v / PAGE_SIZE < |q|;
      assert PhysOf(q, v) / PAGE_SIZE == q[v / PAGE_SIZE].physicalPage;
    }
  }

  /** The two segments loaded into a space that is all zeros. */
  lemma LoadedIntoZeros(mem0: Ram, pt: PageTable, file: seq<Byte>) returns (mem2: Ram, pt2: PageTable)
    requires WellMapped(pt) && Loadable(file) && |pt| == NumPages(HeaderOf(file))
    requires Image(mem0, pt) == Zeros(|pt| * PAGE_SIZE)
    ensures var h := HeaderOf(file);
            var (mem1, pt1) := LoadSegment(mem0, pt, file, h.code);
            (mem2, pt2) == LoadSegment(mem1, pt1, file, h.initData)
    ensures SameMapping(pt, pt2) && WellMapped(pt2) && Image(mem2, pt2) == LoadedImage(file)
  {
    var h := HeaderOf(file);
    var (mem1, pt1) := LoadSegment(mem0, pt, file, h.code);
    LoadSegmentImage(mem0, pt, file, h.code);
    SameMappingSameImage(mem1, pt, pt1);
    var r := LoadSegment(mem1, pt1, file, h.initData);
    mem2, pt2 := r.0, r.1;
    LoadSegmentImage(mem1, pt1, file, h.initData);
    SameMappingSameImage(mem2, pt1, pt2);
    forall i | 0 <= i < |pt| ensures pt[i].(use := pt2[i].use, dirty := pt2[i].dirty) == pt2[i] {
      assert pt[i].(use := pt1[i].use, dirty := pt1[i].dirty) == pt1[i];
    }
    hide LoadSegment, WithSegment, HeaderOf, Image, InSpace;
  }

  /** What a creation that goes through does to main memory, without the bookkeeping. */
  lemma CreateImages(s: System, file: seq<Byte>, chosen: seq<nat>) returns (mem2: Ram, pt2: PageTable)
    requires Isolated(s) && Loadable(file) && |chosen| == NumPages(HeaderOf(file)) && FreshFrames(s.frames, chosen)
    ensures var h := HeaderOf(file);
            var (mem1, pt1) := LoadSegment(ZeroFrames(s.mem, chosen), FreshTable(chosen), file, h.code);
            (mem2, pt2) == LoadSegment(mem1, pt1, file, h.initData)
    ensures SameMapping(FreshTable(chosen), pt2) && WellMapped(pt2)
    ensures Image(mem2, pt2) == LoadedImage(file)
    ensures forall id :: id in s.spaces ==>
              DisjointTables(FreshTable(chosen), s.spaces[id])
                && Image(mem2, s.spaces[id]) == Image(s.mem, s.spaces[id])
  {
    var h := HeaderOf(file);
    var pt := FreshTable(chosen);
    var mem0 := ZeroFrames(s.mem, chosen);
    FreshTableImage(s.mem, s.frames, chosen);
    var (mem1, pt1) := LoadSegment(mem0, pt, file, h.code);
    mem2, pt2 := LoadedIntoZeros(mem0, pt, file);
    LoadSegmentImage(mem0, pt, file, h.code);
    SameMappingSameImage(mem1, pt, pt1);
    forall id | id in s.spaces
      ensures DisjointTables(pt, s.spaces[id]) && Image(mem2, s.spaces[id]) == Image(s.mem, s.spaces[id])
    {
      var q := s.spaces[id];
      assert WellMapped(q);
      forall i | 0 <= i < |q| ensures q[i].physicalPage !in chosen {
        assert Mapped(s, q[i].physicalPage);
      }
      ZeroKeepsImage(s.mem, chosen, q);
      LoadSegmentElsewhere(mem0, pt, file, h.code, q);
      LoadSegmentElsewhere(mem1, pt1, file, h.initData, q);
    }
  }

  /** Adding a table that maps fresh frames, and marking them. */
  lemma AddSpaceIsolated(s: System, id: nat, mem: Ram, pt: PageTable, chosen: seq<nat>)
    requires Isolated(s) && id !in s.spaces && FreshFrames(s.frames, chosen)
    requires |pt| == |chosen| && WellMapped(pt) && forall i :: 0 <= i < |pt| ==> pt[i].physicalPage == chosen[i]
    ensures Isolated(System(mem, MarkAll(s.frames, chosen), s.spaces[id := pt]))
  {
    var n := System(mem, MarkAll(s.frames, chosen), s.spaces[id := pt]);
    forall jd | jd in s.spaces ensures DisjointTables(pt, s.spaces[jd]) && DisjointTables(s.spaces[jd], pt) {
      forall i | 0 <= i < |s.spaces[jd]| ensures s.spaces[jd][i].physicalPage !in chosen {
        assert Mapped(s, s.spaces[jd][i].physicalPage);
      }
    }
    forall f | 0 <= f < NUM_PHYS_PAGES ensures Mapped(n, f) <==> Mapped(s, f) || f in chosen {
      if f in chosen {
        var i :| 0 <= i < |chosen| && chosen[i] == f;
        assert n.spaces[id][i].physicalPage == f;
      }
      if Mapped(s, f) {
        var jd, i :| jd in s.spaces && 0 <= i < |s.spaces[jd]| && s.spaces[jd][i].physicalPage == f;
        assert n.spaces[jd][i].physicalPage == f;
      }
    }
  }

  lemma CreateIsolated(s: System, id: nat, file: seq<Byte>, chosen: seq<nat>)
    requires Isolated(s) && Enabled(s, Create(id, file, chosen))
    ensures Isolated(CreateStep(s, id, file, chosen))
  {
    var mem, pt := CreateImages(s, file, chosen);
    assert forall i :: 0 <= i < |pt| ==> pt[i].physicalPage == FreshTable(chosen)[i].physicalPage == chosen[i];
    AddSpaceIsolated(s, id, mem, pt, chosen);
  }

  /** After a space is gone its frames, and only its frames, are no longer mapped. */
  lemma FreedMapping(s: System, n: System, id: nat, f: nat)
    requires Isolated(s) && id in s.spaces && n.spaces == s.spaces - {id}
    ensures Mapped(n, f) <==> Mapped(s, f) && !exists i :: 0 <= i < |s.spaces[id]| && s.spaces[id][i].physicalPage == f
  {
    if jd, i :| jd in s.spaces && jd != id && 0 <= i < |s.spaces[jd]| && s.spaces[jd][i].physicalPage == f {
      assert DisjointTables(s.spaces[id], s.spaces[jd]);
      assert n.spaces[jd][i].physicalPage == f;
    }
  }

  lemma FreeIsolated(s: System, id: nat)
    requires Isolated(s) && id in s.spaces
    ensures Isolated(FreeStep(s, id))
  {
    var n := FreeStep(s, id);
    forall f | 0 <= f < NUM_PHYS_PAGES ensures n.frames[f] <==> f == 0 || Mapped(n, f) {
      FreedMapping(s, n, id, f);
      FreedMapping(s, n, id, 0);
    }
    FreedMapping(s, n, id, 0);
  }

  lemma SameFrames(p: PageTable, q: PageTable, other: PageTable)
    requires SameMapping(p, q)
    ensures |p| == |q| && forall i :: 0 <= i < |q| ==> q[i].physicalPage == p[i].physicalPage
    ensures DisjointTables(p, other) ==> DisjointTables(q, other)
    ensures DisjointTables(other, p) ==> DisjointTables(other, q)
  {
    assert forall i :: 0 <= i < |q| ==> q[i] == p[i].(use := q[i].use, dirty := q[i].dirty);
  }

  lemma RetableMapped(s: System, n: System, id: nat, f: nat)
    requires id in s.spaces && id in n.spaces && |s.spaces[id]| == |n.spaces[id]|
    requires forall i :: 0 <= i < |s.spaces[id]| ==> n.spaces[id][i].physicalPage == s.spaces[id][i].physicalPage
    requires n.spaces == s.spaces[id := n.spaces[id]]
    ensures Mapped(n, f) <==> Mapped(s, f)
  {
    if jd, i :| jd in s.spaces && 0 <= i < |s.spaces[jd]| && s.spaces[jd][i].physicalPage == f {
      assert n.spaces[jd][i].physicalPage == f;
    }
    if jd, i :| jd in n.spaces && 0 <= i < |n.spaces[jd]| && n.spaces[jd][i].physicalPage == f {
      assert s.spaces[jd][i].physicalPage == f;
    }
  }

  /** Replacing a table by one with the same mapping keeps isolation. */
  lemma RetableIsolated(s: System, mem: Ram, id: nat, pt: PageTable)
    requires Isolated(s) && id in s.spaces && SameMapping(s.spaces[id], pt)
    ensures Isolated(s.(mem := mem, spaces := s.spaces[id := pt]))
  {
    hide WellMapped, DisjointTables, Mapped, SameMapping;
    var n := s.(mem := mem, spaces := s.spaces[id := pt]);
    SameMappingSameImage(mem, s.spaces[id], pt);
    SameFrames(s.spaces[id], pt, pt);
    forall jd | jd in s.spaces && jd != id
      ensures DisjointTables(pt, s.spaces[jd]) && DisjointTables(s.spaces[jd], pt) {
      SameFrames(s.spaces[id], pt, s.spaces[jd]);
    }
    forall f: nat ensures Mapped(n, f) <==> Mapped(s, f) { RetableMapped(s, n, id, f); }
  }

  lemma StepIsolated(s: System, a: Action)
    requires Isolated(s)
    ensures Isolated(Step(s, a))
  {
    if Enabled(s, a) {
      match a
      case Create(id, file, chosen) => CreateIsolated(s, id, file, chosen);
      case FreeFrames(id) => FreeIsolated(s, id);
      case Read(id, addr, size) =>
        TranslateSucceeds(s.spaces[id], addr, size, false);
        var r := ReadMem(s.mem, s.spaces[id], addr, size);
        if r.Value? { RetableIsolated(s, s.mem, id, r.table); }
      case Write(id, addr, size, value) =>
        TranslateSucceeds(s.spaces[id], addr, size, true);
        var r := WriteMem(s.mem, s.spaces[id], addr, size, value);
        if r.Memory? { RetableIsolated(s, r.mem, id, r.table); }
    }
  }

  lemma {:induction false} RunIsolated(mem: Ram, trace: Trace)
    ensures Isolated(Exec(mem, trace))
  {
    if trace != [] {
      RunIsolated(mem, trace[..|trace| - 1]);
      StepIsolated(Exec(mem, trace[..|trace| - 1]), trace[|trace| - 1]);
    }
  }

  // ---- Refinement: each space is a private byte array ----

  ghost predicate AllMapped(spaces: map<nat, PageTable>) {
    forall id :: id in spaces ==> WellMapped(spaces[id])
  }

  ghost function ImagesOf(mem: Ram, spaces: map<nat, PageTable>): map<nat, seq<Byte>>
    requires AllMapped(spaces)
  {
    map id | id in spaces :: Image(mem, spaces[id])
  }

  ghost function Images(s: System): map<nat, seq<Byte>>
    requires AllMapped(s.spaces)
  {
    ImagesOf(s.mem, s.spaces)
  }

  /** One table and one image replaced, the other images kept. */
  lemma UpdateImages(mem: Ram, mem2: Ram, spaces: map<nat, PageTable>, id: nat, pt: PageTable)
    requires AllMapped(spaces) && WellMapped(pt)
    requires forall jd :: jd in spaces && jd != id ==> Image(mem2, spaces[jd]) == Image(mem, spaces[jd])
    ensures AllMapped(spaces[id := pt])
    ensures ImagesOf(mem2, spaces[id := pt]) == ImagesOf(mem, spaces)[id := Image(mem2, pt)]
  {}

  /** The abstract machine: no frames, no tables, one byte array per process. */
  function AbstractStep(m: map<nat, seq<Byte>>, a: Action): map<nat, seq<Byte>> {
    match a
    case Create(id, file, _) => if Loadable(file) then m[id := LoadedImage(file)] else m
    case FreeFrames(id) => m - {id}
    case Read(_, _, _) => m
    case Write(id, addr, size, value) =>
      if id in m && ValidSize(size) && Aligned(addr, size) && addr + size <= |m[id]|
      then m[id := Overlay(m[id], addr, Encode(value, size))] else m
  }

  lemma StepRefines(s: System, a: Action)
    requires Isolated(s) && Enabled(s, a)
    ensures AllMapped(s.spaces) && AllMapped(Step(s, a).spaces)
    ensures Images(Step(s, a)) == AbstractStep(Images(s), a)
  {
    hide CreateStep, ReadStep, WriteStep;
    match a
    case Create(id, file, chosen) => CreateRefines(s, id, file, chosen);
    case FreeFrames(id) => assert FreeStep(s, id).mem == s.mem;
    case Read(id, addr, size) => ReadRefines(s, id, addr, size);
    case Write(id, addr, size, value) => WriteStepRefines(s, id, addr, size, value);
  }

  lemma WriteStepRefines(s: System, id: nat, addr: Word, size: nat, value: Word)
    requires Isolated(s) && Enabled(s, Write(id, addr, size, value))
    ensures AllMapped(s.spaces) && AllMapped(WriteStep(s, id, addr, size, value).spaces)
    ensures Images(WriteStep(s, id, addr, size, value)) == AbstractStep(Images(s), Write(id, addr, size, value))
  {
    assert |Images(s)[id]| == Extent(s.spaces[id]);
    if Aligned(addr, size) && addr + size <= Extent(s.spaces[id]) {
      WriteRefines(s, id, addr, size, value);
    } else {
      TranslateSucceeds(s.spaces[id], addr, size, true);
    }
  }

  /** In every run, each enabled action does to the images what the abstract machine does to its
      byte arrays: a write through one table changes no byte that another space reads. */
  lemma SpacesArePrivateArrays(mem: Ram, trace: Trace, a: Action)
    requires Enabled(Exec(mem, trace), a)
    ensures Isolated(Exec(mem, trace)) && Isolated(Step(Exec(mem, trace), a))
    ensures Images(Step(Exec(mem, trace), a)) == AbstractStep(Images(Exec(mem, trace)), a)
  {
    RunIsolated(mem, trace);
    StepIsolated(Exec(mem, trace), a);
    StepRefines(Exec(mem, trace), a);
    hide Step, Enabled, Exec, Images, AbstractStep;
  }

  lemma CreateRefines(s: System, id: nat, file: seq<Byte>, chosen: seq<nat>)
    requires Isolated(s) && Enabled(s, Create(id, file, chosen))
    ensures AllMapped(CreateStep(s, id, file, chosen).spaces)
    ensures Images(CreateStep(s, id, file, chosen)) == Images(s)[id := LoadedImage(file)]
  {
    var mem, pt := CreateImages(s, file, chosen);
    UpdateImages(s.mem, mem, s.spaces, id, pt);
  }

  lemma ReadRefines(s: System, id: nat, addr: Word, size: nat)
    requires AllMapped(s.spaces) && id in s.spaces && ValidSize(size)
    ensures AllMapped(ReadStep(s, id, addr, size).spaces)
    ensures Images(ReadStep(s, id, addr, size)) == Images(s)
  {
    TranslateSucceeds(s.spaces[id], addr, size, false);
    var r := ReadMem(s.mem, s.spaces[id], addr, size);
    if r.Value? {
      SameMappingSameImage(s.mem, s.spaces[id], r.table);
      UpdateImages(s.mem, s.mem, s.spaces, id, r.table);
    }
  }

  /** A successful write, seen from every space. */
  lemma WriteImages(s: System, id: nat, addr: Word, size: nat, value: Word, jd: nat)
    requires Isolated(s) && id in s.spaces && jd in s.spaces && ValidSize(size)
    requires Aligned(addr, size) && addr + size <= Extent(s.spaces[id])
    ensures var r := WriteMem(s.mem, s.spaces[id], addr, size, value);
      && r.Memory? && SameMapping(s.spaces[id], r.table) && WellMapped(r.table)
      && Image(r.mem, if jd == id then r.table else s.spaces[jd]) ==
         if jd == id then Overlay(Image(s.mem, s.spaces[id]), addr, Encode(value, size)) else Image(s.mem, s.spaces[jd])
  {
    var pt := s.spaces[id];
    TranslateSucceeds(pt, addr, size, true);
    var r := WriteMem(s.mem, pt, addr, size, value);
    WriteChangesImage(s.mem, pt, addr, size, value);
    SameMappingSameImage(r.mem, pt, r.table);
    if jd != id {
      assert DisjointTables(pt, s.spaces[jd]);
      WriteKeepsOtherImage(s.mem, pt, s.spaces[jd], addr, size, value);
    }
  }

  lemma WriteRefines(s: System, id: nat, addr: Word, size: nat, value: Word)
    requires Isolated(s) && id in s.spaces && ValidSize(size)
    requires Aligned(addr, size) && addr + size <= Extent(s.spaces[id])
    ensures AllMapped(WriteStep(s, id, addr, size, value).spaces)
    ensures Images(WriteStep(s, id, addr, size, value))
      == Images(s)[id := Overlay(Images(s)[id], addr, Encode(value, size))]
  {
    var r := WriteMem(s.mem, s.spaces[id], addr, size, value);
    WriteImages(s, id, addr, size, value, id);
    forall jd | jd in s.spaces && jd != id ensures Image(r.mem, s.spaces[jd]) == Image(s.mem, s.spaces[jd]) {
      WriteImages(s, id, addr, size, value, jd);
    }
    UpdateImages(s.mem, r.mem, s.spaces, id, r.table);
  }

  /** Reads see the private array, and reading back returns what was written. */
  lemma ReadBack(mem: Ram, trace: Trace, id: nat, addr: Word, size: nat, value: Word)
    requires id in Exec(mem, trace).spaces && ValidSize(size) && Aligned(addr, size)
    requires addr + size <= Extent(Exec(mem, trace).spaces[id])
    ensures var s := Step(Exec(mem, trace), Write(id, addr, size, value));
      && id in s.spaces
      && ReadMem(s.mem, s.spaces[id], addr, size).Value?
      && ReadMem(s.mem, s.spaces[id], addr, size).value == Truncated(value, size)
  {
    var before := Exec(mem, trace);
    SpacesArePrivateArrays(mem, trace, Write(id, addr, size, value));
    var s := Step(before, Write(id, addr, size, value));
    var was := Image(before.mem, before.spaces[id]);
    assert Images(before)[id] == was;
    assert Images(s)[id] == Overlay(was, addr, Encode(value, size));
    ReadSeesImage(s.mem, s.spaces[id], addr, size);
    assert Overlay(was, addr, Encode(value, size))[addr..addr + size] == Encode(value, size);
    DecodeEncode(value, size);
  }
}
