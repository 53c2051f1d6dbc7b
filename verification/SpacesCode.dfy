/** Machine memory access, the frame provider and the AddrSpace constructor as they are written:
    loops that change main memory, the bit map and the page table in place, each proved against
    the functions of Memory and Spaces. */
module SpacesCode {
  import opened Words
  import opened Memory
  import opened Spaces
  import opened BitMaps

  class Machine {
    const mainMemory: array<Byte>
    var pageTable: PageTable

    ghost predicate Valid() { mainMemory.Length == MEMORY_SIZE }

    ghost function Mem(): Ram
      reads mainMemory
      requires Valid()
    {
      mainMemory[..]
    }

    constructor ()
      ensures Valid() && fresh(mainMemory)
    {
      mainMemory := new Byte[MEMORY_SIZE](_ => 0);
      pageTable := [];
    }

    /** Machine::Translate: on success it also sets the use and dirty bits. */
    method TranslateAddress(virtAddr: Word, size: nat, writing: bool) returns (r: Translation)
      requires Valid() && ValidSize(size)
      modifies this`pageTable
      ensures r == Translate(old(pageTable), virtAddr, size, writing)
      ensures pageTable == if r.Phys? then r.table else old(pageTable)
    {
      if (size == 4 && virtAddr % 4 != 0) || (size == 2 && virtAddr % 2 != 0) {
        return Fault(AddressErrorException);
      }
      var vpn, offset := virtAddr / PAGE_SIZE, virtAddr % PAGE_SIZE;
      if vpn >= |pageTable| {
        return Fault(AddressErrorException);
      } else if !pageTable[vpn].valid {
        return Fault(PageFaultException);
      }
      if pageTable[vpn].readOnly && writing {
        return Fault(ReadOnlyException);
      }
      var pageFrame := pageTable[vpn].physicalPage;
      if pageFrame >= NUM_PHYS_PAGES {
        return Fault(BusErrorException);
      }
      pageTable := pageTable[vpn := pageTable[vpn].(use := true)];
      if writing {
        pageTable := pageTable[vpn := pageTable[vpn].(dirty := true)];
      }
      r := Phys(pageFrame * PAGE_SIZE + offset, pageTable);
    }

    method ReadMemory(addr: Word, size: nat) returns (r: Loaded)
      requires Valid() && ValidSize(size)
      modifies this`pageTable
      ensures r == ReadMem(Mem(), old(pageTable), addr, size)
      ensures pageTable == if r.Value? then r.table else old(pageTable)
    {
      AccessFits(pageTable, addr, size, false);
      var t := TranslateAddress(addr, size, false);
      if t.Fault? {
        return LoadFault(t.exception);
      }
      r := Value(Decode(mainMemory[t.addr..t.addr + size]), t.table);
    }

    method StoreAt(a: nat, b: seq<Byte>)
      requires Valid() && a + |b| <= MEMORY_SIZE
      modifies mainMemory
      ensures Mem() == Overlay(old(Mem()), a, b)
    {
      for k := 0 to |b|
        invariant forall i :: 0 <= i < MEMORY_SIZE ==>
          mainMemory[i] == if a <= i < a + k then b[i - a] else old(mainMemory[i])
      {
        mainMemory[a + k] := b[k];
      }
    }

    method WriteMemory(addr: Word, size: nat, value: Word) returns (r: Stored)
      requires Valid() && ValidSize(size)
      modifies this`pageTable, mainMemory
      ensures r == WriteMem(old(Mem()), old(pageTable), addr, size, value)
      ensures r.Memory? ==> Mem() == r.mem && pageTable == r.table
      ensures r.StoreFault? ==> Mem() == old(Mem()) && pageTable == old(pageTable)
    {
      AccessFits(pageTable, addr, size, true);
      var t := TranslateAddress(addr, size, true);
      if t.Fault? {
        return StoreFault(t.exception);
      }
      StoreAt(t.addr, Encode(value, size));
      r := Memory(mainMemory[..], t.table);
    }
  }

  lemma AccessFits(pt: PageTable, addr: Word, size: nat, writing: bool)
    requires ValidSize(size)
    ensures var t := Translate(pt, addr, size, writing); t.Phys? ==> t.addr + size <= MEMORY_SIZE
  {
    if Translate(pt, addr, size, writing).Phys? { AccessStaysInPage(pt, addr, size, writing); }
  }

  class FrameProvider {
    const bitmap: BitMap
    const machine: Machine
    var locked: bool          // bitmapLock

    ghost predicate Valid() {
      bitmap.Valid() && machine.Valid() && bitmap.numBits == NUM_PHYS_PAGES
        && bitmap.words as object != machine.mainMemory
    }

    ghost function Frames(): (f: seq<bool>)
      reads bitmap.words
      requires Valid()
      ensures |f| == NUM_PHYS_PAGES
    {
      bitmap.Bits()
    }

    constructor (machine: Machine)
      requires machine.Valid()
      ensures Valid() && this.machine == machine && fresh(bitmap) && fresh(bitmap.words)
      ensures Frames() == Boot(machine.Mem()).frames && !locked
    {
      var b := new BitMap(NUM_PHYS_PAGES);
      b.Mark(0);
      this.machine := machine;
      this.bitmap := b;
      this.locked := false;
      assert b.Bits() == seq(NUM_PHYS_PAGES, i => i == 0);
    }

    method NumAvailFrame() returns (n: nat)
      requires Valid() && !locked
      modifies this`locked
      ensures n == CountClear(Frames()) && !locked
    {
      locked := true;
      n := bitmap.NumClear();
      locked := false;
    }

    /** The first loop of GetEmptyFrame. */
    method CollectFree() returns (emptyFrames: seq<nat>)
      requires Valid()
      ensures forall f :: f in emptyFrames <==> 0 <= f < NUM_PHYS_PAGES && !Frames()[f]
    {
      emptyFrames := [];
      for i := 0 to NUM_PHYS_PAGES
        invariant forall f :: f in emptyFrames <==> 0 <= f < i && !Frames()[f]
      {
        var taken := bitmap.Test(i);
        if !taken {
          emptyFrames := emptyFrames + [i];
        }
      }
    }

    /** bzero of one frame. */
    method ZeroFrame(nFrame: nat)
      requires Valid() && nFrame < NUM_PHYS_PAGES
      modifies machine.mainMemory
      ensures machine.Mem() == ZeroFrames(old(machine.Mem()), [nFrame])
    {
      ghost var was := machine.mainMemory[..];
      for k := 0 to PAGE_SIZE
        invariant forall a :: 0 <= a < MEMORY_SIZE ==>
          machine.mainMemory[a] == if nFrame * PAGE_SIZE <= a < nFrame * PAGE_SIZE + k then 0 else was[a]
      {
        machine.mainMemory[nFrame * PAGE_SIZE + k] := 0;
      }
      assert machine.Mem() == ZeroFrames(was, [nFrame]);
    }

    /** Picks an arbitrary free frame, marks it and zeroes it. When there is none it returns without
        releasing the lock. */
    method GetEmptyFrame() returns (nFrame: int)
      requires Valid() && !locked
      modifies this`locked, bitmap.words, machine.mainMemory
      ensures nFrame == -1 <==> CountClear(old(Frames())) == 0
      ensures nFrame == -1 ==> locked && Frames() == old(Frames()) && machine.Mem() == old(machine.Mem())
      ensures nFrame != -1 ==>
        && !locked && 0 <= nFrame < NUM_PHYS_PAGES && !old(Frames())[nFrame]
        && Frames() == old(Frames())[nFrame := true]
        && machine.Mem() == ZeroFrames(old(machine.Mem()), [nFrame])
    {
      locked := true;
      var emptyFrames := CollectFree();
      CountClearZero(Frames());
      if emptyFrames == [] {
        assert forall f :: 0 <= f < NUM_PHYS_PAGES && !Frames()[f] ==> f in emptyFrames;
        return -1;
      }
      var choice :| 0 <= choice < |emptyFrames|;
      nFrame := emptyFrames[choice];
      assert emptyFrames[choice] in emptyFrames;
      hide BitsOf, ZeroFrames, CountClear;
      bitmap.Mark(nFrame);
      ZeroFrame(nFrame);
      locked := false;
    }

    method ReleaseFrame(nFrame: nat)
      requires Valid() && nFrame < NUM_PHYS_PAGES
      modifies bitmap.words
      ensures Frames() == old(Frames())[nFrame := false]
    {
      bitmap.Clear(nFrame);
    }
  }

  /** Taking one more frame. */
  lemma TakeFrame(frames: seq<bool>, mem: Ram, chosen: seq<nat>, f: nat)
    requires |frames| == NUM_PHYS_PAGES && FreshFrames(frames, chosen)
    requires f < NUM_PHYS_PAGES && !MarkAll(frames, chosen)[f]
    ensures FreshFrames(frames, chosen + [f])
    ensures MarkAll(frames, chosen + [f]) == MarkAll(frames, chosen)[f := true]
    ensures ZeroFrames(ZeroFrames(mem, chosen), [f]) == ZeroFrames(mem, chosen + [f])
    ensures FreshTable(chosen + [f]) == FreshTable(chosen) + [Entry(|chosen|, f, true, false, false, false)]
    ensures CountClear(MarkAll(frames, chosen + [f])) == CountClear(MarkAll(frames, chosen)) - 1
  {
    CountClearUpdate(MarkAll(frames, chosen), f, true);
    assert forall g :: g in chosen + [f] <==> g in chosen || g == f;
  }

  /** The loop of the constructor that maps every page to a frame. */
  method MapPages(provider: FrameProvider, numPages: nat) returns (pageTable: PageTable, ghost chosen: seq<nat>)
    requires provider.Valid() && !provider.locked && CountClear(provider.Frames()) >= numPages
    modifies provider`locked, provider.bitmap.words, provider.machine.mainMemory
    ensures !provider.locked && |chosen| == numPages && FreshFrames(old(provider.Frames()), chosen)
    ensures provider.Frames() == MarkAll(old(provider.Frames()), chosen)
    ensures provider.machine.Mem() == ZeroFrames(old(provider.machine.Mem()), chosen)
    ensures pageTable == FreshTable(chosen)
  {
    pageTable, chosen := [], [];
    ghost var frames, mem := provider.Frames(), provider.machine.Mem();
    assert MarkAll(frames, []) == frames && ZeroFrames(mem, []) == mem;
    for i := 0 to numPages
      invariant !provider.locked && |chosen| == i && FreshFrames(frames, chosen)
      invariant provider.Frames() == MarkAll(frames, chosen)
      invariant provider.machine.Mem() == ZeroFrames(mem, chosen)
      invariant pageTable == FreshTable(chosen)
      invariant CountClear(provider.Frames()) == CountClear(frames) - i
    {
      var frame := provider.GetEmptyFrame();
      TakeFrame(frames, mem, chosen, frame);
      pageTable := pageTable + [Entry(i, frame, true, false, false, false)];
      chosen := chosen + [frame];
    }
  }

  /** The two segments, one after the other, through the new table. */
  method LoadProgram(machine: Machine, executable: seq<Byte>, pageTable: PageTable) returns (after: PageTable)
    requires machine.Valid() && Loadable(executable)
    requires WellMapped(pageTable) && |pageTable| == NumPages(HeaderOf(executable))
    modifies machine.mainMemory, machine`pageTable
    ensures var h := HeaderOf(executable);
      var (mem1, pt1) := LoadSegment(old(machine.Mem()), pageTable, executable, h.code);
      (machine.Mem(), after) == LoadSegment(mem1, pt1, executable, h.initData)
    ensures machine.pageTable == old(machine.pageTable) && machine.Valid()
  {
    var noffH := HeaderOf(executable);
    after := pageTable;
    LoadSegmentImage(machine.Mem(), pageTable, executable, noffH.code);
    if noffH.code.size > 0 {
      after := ReadAtVirtual(machine, executable, noffH.code, after);
    }
    if noffH.initData.size > 0 {
      after := ReadAtVirtual(machine, executable, noffH.initData, after);
    }
  }

  class AddrSpace {
    var pageTable: PageTable
    var isCreated: bool

    /** The constructor: the page table and frames, then the two segments. It either finds too
        few frames and changes nothing, or performs one Create step of the model, with frames
        chosen anywhere in memory. */
    constructor (executable: seq<Byte>, provider: FrameProvider, ghost id: nat, ghost others: map<nat, PageTable>)
      requires provider.Valid() && !provider.locked && Loadable(executable) && id !in others
      modifies provider`locked, provider.bitmap.words, provider.machine.mainMemory, provider.machine`pageTable
      ensures isCreated <==> CountClear(old(provider.Frames())) >= NumPages(HeaderOf(executable))
      ensures !isCreated ==>
        provider.Frames() == old(provider.Frames()) && provider.machine.Mem() == old(provider.machine.Mem())
      ensures isCreated ==> exists chosen ::
        && Enabled(System(old(provider.machine.Mem()), old(provider.Frames()), others), Create(id, executable, chosen))
        && System(provider.machine.Mem(), provider.Frames(), others[id := pageTable]) ==
           Step(System(old(provider.machine.Mem()), old(provider.Frames()), others), Create(id, executable, chosen))
      ensures isCreated ==> WellMapped(pageTable) && Image(provider.machine.Mem(), pageTable) == LoadedImage(executable)
      ensures provider.machine.pageTable == old(provider.machine.pageTable) && !provider.locked
    {
      var noffH := HeaderOf(executable);
      var numPages := NumPages(noffH);
      pageTable := [];
      isCreated := false;
      new;
      var avail := provider.NumAvailFrame();
      if avail < numPages {
        return;
      }
      ghost var frames, mem := provider.Frames(), provider.machine.Mem();
      ghost var chosen: seq<nat>;
      pageTable, chosen := MapPages(provider, numPages);
      FreshTableImage(mem, frames, chosen);
      ghost var loaded, table := LoadedIntoZeros(provider.machine.Mem(), pageTable, executable);
      hide LoadedImage, Image, WellMapped;
      pageTable := LoadProgram(provider.machine, executable, pageTable);
      hide LoadSegment, FreshTable, ZeroFrames, MarkAll, Loadable, BitsOf, CountClear;
      isCreated := true;
      assert Enabled(System(mem, frames, others), Create(id, executable, chosen));
    }

    /** AddrSpace::FreeFrames releases every valid frame. */
    method ReleaseFrames(provider: FrameProvider)
      requires provider.Valid() && WellMapped(pageTable)
      modifies provider.bitmap.words
      ensures provider.Frames() == ClearAll(old(provider.Frames()), pageTable)
    {
      ghost var frames := provider.Frames();
      assert ClearAll(frames, []) == frames;
      for i := 0 to |pageTable|
        invariant provider.Frames() == ClearAll(frames, pageTable[..i])
      {
        if pageTable[i].valid {
          provider.ReleaseFrame(pageTable[i].physicalPage);
        }
        ClearOneMore(frames, pageTable, i);
      }
      assert pageTable[..|pageTable|] == pageTable;
    }
  }

  lemma ClearOneMore(frames: seq<bool>, pt: PageTable, i: nat)
    requires i < |pt| && pt[i].physicalPage < |frames|
    ensures ClearAll(frames, pt[..i + 1]) == ClearAll(frames, pt[..i])[pt[i].physicalPage := false]
  {
    var shorter, longer := pt[..i], pt[..i + 1];
    assert longer == shorter + [pt[i]] && longer[i] == pt[i];
    var a, b := ClearAll(frames, longer), ClearAll(frames, shorter)[pt[i].physicalPage := false];
    forall f | 0 <= f < |frames| ensures a[f] == b[f] {
      if k :| 0 <= k < |shorter| && shorter[k].physicalPage == f {
        assert longer[k].physicalPage == f;
      }
      if k :| 0 <= k < |longer| && longer[k].physicalPage == f {
        assert k == i || shorter[k].physicalPage == f;
      }
    }
  }

  /** One pass of the loop of ReadAtVirtual. */
  method StoreNextByte(machine: Machine, virtualAddr: nat, buf: seq<Byte>, i: nat, ghost mem: Ram,
    ghost pageTable: PageTable)
    requires machine.Valid() && i < |buf| && virtualAddr + |buf| <= W
    requires (machine.Mem(), machine.pageTable) == StoreBytes(mem, pageTable, virtualAddr, buf[..i])
    modifies machine.mainMemory, machine`pageTable
    ensures machine.Valid() && (machine.Mem(), machine.pageTable)
      == StoreBytes(mem, pageTable, virtualAddr, buf[..i + 1])
  {
    hide StoreBytes, WriteMem;
    ghost var before := (machine.Mem(), machine.pageTable);
    var r := machine.WriteMemory(virtualAddr + i, 1, buf[i]);
    assert buf[..i + 1][..i] == buf[..i];
    StoreBytesNext(mem, pageTable, virtualAddr, buf[..i + 1], before, r);
  }

  /** ReadAtVirtual: installs the new page table, writes byte after byte, and puts the old page
      table back. */
  method ReadAtVirtual(machine: Machine, executable: seq<Byte>, seg: Segment, pageTable: PageTable)
    returns (after: PageTable)
    requires machine.Valid() && seg.size > 0
    requires WellMapped(pageTable) && seg.virtualAddr + seg.size <= Extent(pageTable) <= W
    modifies machine.mainMemory, machine`pageTable
    ensures (machine.Mem(), after) == LoadSegment(old(machine.Mem()), pageTable, executable, seg)
    ensures machine.pageTable == old(machine.pageTable)
  {
    var buf := Slice(executable, seg.inFileAddr, seg.size);
    var oldTable := machine.pageTable;
    machine.pageTable := pageTable;
    ghost var mem := machine.Mem();
    assert StoreBytes(mem, pageTable, seg.virtualAddr, buf[..0]) == (mem, pageTable);
    hide StoreBytes;
    for i := 0 to |buf|
      invariant machine.Valid() && (machine.Mem(), machine.pageTable)
        == StoreBytes(mem, pageTable, seg.virtualAddr, buf[..i])
    {
      StoreNextByte(machine, seg.virtualAddr, buf, i, mem, pageTable);
    }
    assert buf[..|buf|] == buf;
    after := machine.pageTable;
    machine.pageTable := oldTable;
  }
}
