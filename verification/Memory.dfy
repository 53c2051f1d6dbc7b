/** Address translation and memory access of machine/translate.cc with a linear page table, and
    what a set of page tables with disjoint frames means: each is a private byte array. */
module Memory {
  import opened Words

  const PAGE_SIZE: nat := 128
  const NUM_PHYS_PAGES: nat := 256
  const MEMORY_SIZE: nat := 32768

  type Byte = x: int | 0 <= x < 256

  datatype Exception =
    | PageFaultException | ReadOnlyException | BusErrorException | AddressErrorException
    | SyscallException | OverflowException | IllegalInstrException

  datatype Entry = Entry(virtualPage: nat, physicalPage: nat, valid: bool, readOnly: bool, use: bool, dirty: bool)

  type PageTable = seq<Entry>

  datatype Translation = Phys(addr: nat, table: PageTable) | Fault(exception: Exception)

  predicate Aligned(virtAddr: nat, size: nat) {
    !((size == 4 && virtAddr % 4 != 0) || (size == 2 && virtAddr % 2 != 0))
  }

  /** Machine::Translate, page-table branch; sets the use and dirty bits. */
  function Translate(pt: PageTable, virtAddr: Word, size: nat, writing: bool): Translation {
    if !Aligned(virtAddr, size) then Fault(AddressErrorException) else
    var vpn := virtAddr / PAGE_SIZE;
    var offset := virtAddr % PAGE_SIZE;
    if vpn >= |pt| then Fault(AddressErrorException)
    else if !pt[vpn].valid then Fault(PageFaultException)
    else if pt[vpn].readOnly && writing then Fault(ReadOnlyException)
    else if pt[vpn].physicalPage >= NUM_PHYS_PAGES then Fault(BusErrorException)
    else Phys(pt[vpn].physicalPage * PAGE_SIZE + offset,
              pt[vpn := pt[vpn].(use := true, dirty := pt[vpn].dirty || writing)])
  }

  // ---- Little-endian values of 1, 2 and 4 bytes ----

  predicate ValidSize(size: nat) { size == 1 || size == 2 || size == 4 }

  /** The bytes that WriteMem stores. */
  function Encode(value: Word, size: nat): (b: seq<Byte>)
    requires ValidSize(size)
    ensures |b| == size
  {
    match size
    case 1 => [value % 256]
    case 2 => [value % 256, value / 0x100 % 256]
    case _ => [value % 256, value / 0x100 % 256, value / 0x10000 % 256, value / 0x1000000]
  }

  /** The value that ReadMem delivers; a single byte is a signed char. */
  function Decode(b: seq<Byte>): Word
    requires ValidSize(|b|)
  {
    var low: int := b[0];
    if |b| == 1 then (if low >= 128 then 0xffff_ff00 + low else low)
    else if |b| == 2 then low + 0x100 * (b[1] as int)
    else low + 0x100 * (b[1] as int) + 0x10000 * (b[2] as int) + 0x1000000 * (b[3] as int)
  }

  /** The part of a value that a store of this size keeps. */
  function Truncated(value: Word, size: nat): Word
    requires ValidSize(size)
  {
    if size == 4 then value
    else if size == 2 then value % 0x10000
    else if value % 256 >= 128 then 0xffff_ff00 + value % 256 else value % 256
  }

  lemma DecodeEncode(value: Word, size: nat)
    requires ValidSize(size)
    ensures Decode(Encode(value, size)) == Truncated(value, size)
  {
    FourDigits(value);
  }

  /** Dividing by 256 step by step. */
  lemma FourDigits(v: Word)
    ensures v == v % 256 + 0x100 * (v / 0x100 % 256) + 0x10000 * (v / 0x10000 % 256) + 0x1000000 * (v / 0x1000000)
    ensures v % 0x10000 == v % 256 + 0x100 * (v / 0x100 % 256)
    ensures v / 0x1000000 < 256
  {
    var a, b, c := v / 0x100, v / 0x10000, v / 0x1000000;
    assert v == 0x100 * a + v % 0x100;
    assert v == 0x10000 * b + v % 0x10000;
    assert v == 0x1000000 * c + v % 0x1000000;
    assert a == 0x100 * b + (v % 0x10000) / 0x100;
    assert a % 256 == (v % 0x10000) / 0x100;
    assert b == 0x100 * c + (v % 0x1000000) / 0x10000;
    assert b % 256 == (v % 0x1000000) / 0x10000;
  }

  /** The weight of byte k: the lowest address holds the lowest eight bits. */
  function Weight(k: nat): nat { if k == 0 then 1 else 256 * Weight(k - 1) }

  lemma Weights()
    ensures Weight(0) == 1 && Weight(1) == 0x100 && Weight(2) == 0x1_0000 && Weight(3) == 0x100_0000
  {}

  lemma WeightPositive(k: nat)
    ensures Weight(k) >= 1
  {}

  /** Byte k of a value. */
  function ByteOf(value: nat, k: nat): Byte {
    WeightPositive(k);
    value / Weight(k) % 256
  }

  /** What is stored at the k-th address of an access. */
  lemma EncodeAt(value: Word, size: nat, k: nat)
    requires ValidSize(size) && k < size
    ensures Encode(value, size)[k] == ByteOf(value, k)
  {
    Weights();
    FourDigits(value);
  }

  lemma DigitsOf(b0: Byte, b1: Byte, b2: Byte, b3: Byte)
    ensures var v: int := b0 as int + 0x100 * b1 + 0x1_0000 * b2 + 0x100_0000 * b3;
      v % 256 == b0 && v / 0x100 % 256 == b1 && v / 0x1_0000 % 256 == b2 && v / 0x100_0000 % 256 == b3
  {
    var v: int := b0 as int + 0x100 * b1 + 0x1_0000 * b2 + 0x100_0000 * b3;
    assert v / 0x100 == b1 as int + 0x100 * b2 + 0x1_0000 * b3;
    assert v / 0x1_0000 == b2 as int + 0x100 * b3;
    assert v / 0x100_0000 == b3;
  }

  /** What is read comes from the k-th address. */
  lemma DecodeAt(b: seq<Byte>, k: nat)
    requires ValidSize(|b|) && k < |b|
    ensures ByteOf(Decode(b), k) == b[k]
  {
    Weights();
    hide Weight;
    if |b| == 2 { DigitsOf(b[0], b[1], 0, 0); }
    if |b| == 4 { DigitsOf(b[0], b[1], b[2], b[3]); }
  }

  /** The four bytes from an offset on, lowest first, are the number n. */
  predicate Little(b: seq<Byte>, at: nat, n: int) {
    at + 4 <= |b| && n == (b[at] as int) + 0x100 * (b[at + 1] as int)
      + 0x10000 * (b[at + 2] as int) + 0x100_0000 * (b[at + 3] as int)
  }

  // ---- ReadMem and WriteMem ----

  type Ram = m: seq<Byte> | |m| == 32768 witness seq(32768, i => 0)

  datatype Loaded = Value(value: Word, table: PageTable) | LoadFault(exception: Exception)
  datatype Stored = Memory(mem: Ram, table: PageTable) | StoreFault(exception: Exception)

  function Overlay(s: seq<Byte>, at: nat, b: seq<Byte>): (r: seq<Byte>)
    requires at + |b| <= |s|
    ensures |r| == |s|
  {
    s[..at] + b + s[at + |b|..]
  }

  lemma OverlayAt(s: seq<Byte>, at: nat, b: seq<Byte>, i: nat)
    requires at + |b| <= |s| && i < |s|
    ensures Overlay(s, at, b)[i] == if at <= i < at + |b| then b[i - at] else s[i]
  {}

  lemma OffsetFits(virtAddr: nat, size: nat)
    requires ValidSize(size) && Aligned(virtAddr, size)
    ensures virtAddr % PAGE_SIZE + size <= PAGE_SIZE
  {
    var q, r := virtAddr / 128, virtAddr % 128;
    if size == 4 {
      var m := virtAddr / 4;
      assert r == 4 * (m - 32 * q);
    } else if size == 2 {
      var m := virtAddr / 2;
      assert r == 2 * (m - 64 * q);
    }
  }

  /** The frames of main memory hold whole pages, so an aligned access stays inside its page. */
  lemma AccessStaysInPage(pt: PageTable, virtAddr: Word, size: nat, writing: bool)
    requires ValidSize(size) && Translate(pt, virtAddr, size, writing).Phys?
    ensures virtAddr % PAGE_SIZE + size <= PAGE_SIZE
    ensures Translate(pt, virtAddr, size, writing).addr + size <= MEMORY_SIZE
  {
    OffsetFits(virtAddr, size);
    hide Aligned;
  }

  function ReadMem(mem: Ram, pt: PageTable, virtAddr: Word, size: nat): Loaded
    requires ValidSize(size)
  {
    match Translate(pt, virtAddr, size, false)
    case Fault(e) => LoadFault(e)
    case Phys(a, table) =>
      AccessStaysInPage(pt, virtAddr, size, false);
      Value(Decode(mem[a..a + size]), table)
  }

  function WriteMem(mem: Ram, pt: PageTable, virtAddr: Word, size: nat, value: Word): Stored
    requires ValidSize(size)
  {
    match Translate(pt, virtAddr, size, true)
    case Fault(e) => StoreFault(e)
    case Phys(a, table) =>
      AccessStaysInPage(pt, virtAddr, size, true);
      Memory(Overlay(mem, a, Encode(value, size)), table)
  }

  // ---- A page table as a byte array ----

  /** Every entry is valid, writable and maps a real frame, and no frame is mapped twice. */
  ghost predicate WellMapped(pt: PageTable) {
    && (forall i :: 0 <= i < |pt| ==> pt[i].valid && !pt[i].readOnly && pt[i].physicalPage < NUM_PHYS_PAGES)
    && (forall i, j :: 0 <= i < j < |pt| ==> pt[i].physicalPage != pt[j].physicalPage)
  }

  ghost predicate DisjointTables(p: PageTable, q: PageTable) {
    forall i, j :: 0 <= i < |p| && 0 <= j < |q| ==> p[i].physicalPage != q[j].physicalPage
  }

  /** The tables differ at most in use and dirty bits. */
  ghost predicate SameMapping(p: PageTable, q: PageTable) {
    |p| == |q| && forall i :: 0 <= i < |p| ==> p[i].(use := q[i].use, dirty := q[i].dirty) == q[i]
  }

  /** Which check fails first, and what a successful translation leaves: the page keeps its place, and of the
      bits only use and dirty of this page change. */
  lemma TranslateVerdict(pt: PageTable, virtAddr: Word, size: nat, writing: bool)
    requires ValidSize(size)
    ensures var t, page := Translate(pt, virtAddr, size, writing), virtAddr / 128;
      if virtAddr % size != 0 || virtAddr >= 128 * |pt| then t == Fault(AddressErrorException)
      else if !pt[page].valid then t == Fault(PageFaultException)
      else if writing && pt[page].readOnly then t == Fault(ReadOnlyException)
      else if pt[page].physicalPage > 255 then t == Fault(BusErrorException)
      else
        && t.Phys? && t.addr / 128 == pt[page].physicalPage && t.addr % 128 == virtAddr % 128
        && SameMapping(pt, t.table)
        && forall i :: 0 <= i < |pt| ==>
          && t.table[i].use == (pt[i].use || i == page)
          && t.table[i].dirty == (pt[i].dirty || (writing && i == page))
  {}

  datatype Access = Access(virtAddr: Word, size: nat, writing: bool)

  /** An access that the table allows; use and dirty bits play no part in it. */
  predicate Allowed(pt: PageTable, a: Access)
    requires ValidSize(a.size)
  {
    && a.virtAddr % a.size == 0 && a.virtAddr < 128 * |pt|
    && var e := pt[a.virtAddr / 128];
      e.valid && !(a.writing && e.readOnly) && e.physicalPage < 256
  }

  function AfterAccesses(pt: PageTable, accesses: seq<Access>): PageTable
    decreases |accesses|
  {
    if accesses == [] then pt
    else
      var a := accesses[0];
      match Translate(pt, a.virtAddr, a.size, a.writing)
      case Fault(_) => AfterAccesses(pt, accesses[1..])
      case Phys(_, table) => AfterAccesses(table, accesses[1..])
  }

  ghost predicate ValidSizes(accesses: seq<Access>) { forall k :: 0 <= k < |accesses| ==> ValidSize(accesses[k].size) }

  ghost predicate Touched(pt: PageTable, accesses: seq<Access>, page: nat, writing: bool)
    requires ValidSizes(accesses)
  {
    exists k :: 0 <= k < |accesses| && Allowed(pt, accesses[k]) && accesses[k].virtAddr / 128 == page
      && (writing ==> accesses[k].writing)
  }

  lemma TouchedSplits(pt: PageTable, accesses: seq<Access>, page: nat, writing: bool)
    requires ValidSizes(accesses) && accesses != []
    ensures Touched(pt, accesses, page, writing) <==>
      Touched(pt, [accesses[0]], page, writing) || Touched(pt, accesses[1..], page, writing)
  {
    var rest := accesses[1..];
    assert forall k :: 0 <= k < |rest| ==> rest[k] == accesses[k + 1];
    assert [accesses[0]][0] == accesses[0];
    if Touched(pt, accesses, page, writing) {
      var k :| 0 <= k < |accesses| && Allowed(pt, accesses[k]) && accesses[k].virtAddr / 128 == page
        && (writing ==> accesses[k].writing);
      assert k > 0 ==> accesses[k] == rest[k - 1];
    }
  }

  lemma TouchedMapping(pt: PageTable, pt2: PageTable, accesses: seq<Access>, page: nat, writing: bool)
    requires ValidSizes(accesses) && SameMapping(pt, pt2)
    ensures Touched(pt, accesses, page, writing) == Touched(pt2, accesses, page, writing)
  {
    forall k | 0 <= k < |accesses| ensures Allowed(pt, accesses[k]) == Allowed(pt2, accesses[k]) {}
  }

  /** Over any sequence of accesses the mapping stays, a use bit is set exactly for the pages that an allowed access
      touched, and a dirty bit exactly for those that an allowed write touched. */
  lemma {:induction false} BitsRecordAccesses(pt: PageTable, accesses: seq<Access>)
    requires ValidSizes(accesses)
    ensures var after := AfterAccesses(pt, accesses);
      && SameMapping(pt, after)
      && forall page :: 0 <= page < |pt| ==>
        && after[page].use == (pt[page].use || Touched(pt, accesses, page, false))
        && after[page].dirty == (pt[page].dirty || Touched(pt, accesses, page, true))
    decreases |accesses|
  {
    if accesses != [] {
      var a, rest := accesses[0], accesses[1..];
      var t := Translate(pt, a.virtAddr, a.size, a.writing);
      var next := if t.Phys? then t.table else pt;
      TranslateVerdict(pt, a.virtAddr, a.size, a.writing);
      BitsRecordAccesses(next, rest);
      forall page | 0 <= page < |pt| ensures
        var after := AfterAccesses(pt, accesses);
        && after[page].use == (pt[page].use || Touched(pt, accesses, page, false))
        && after[page].dirty == (pt[page].dirty || Touched(pt, accesses, page, true)) {
        TouchedSplits(pt, accesses, page, false);
        TouchedSplits(pt, accesses, page, true);
        TouchedMapping(pt, next, rest, page, false);
        TouchedMapping(pt, next, rest, page, true);
        OneTouches(pt, a, page);
      }
    }
  }

  lemma OneTouches(pt: PageTable, a: Access, page: nat)
    requires ValidSize(a.size) && page < |pt|
    ensures Touched(pt, [a], page, false) == (Allowed(pt, a) && a.virtAddr / 128 == page)
    ensures Touched(pt, [a], page, true) == (Allowed(pt, a) && a.virtAddr / 128 == page && a.writing)
  {
    assert [a][0] == a;
  }

  function Extent(pt: PageTable): nat { |pt| * PAGE_SIZE }

  ghost function PhysOf(pt: PageTable, v: nat): (a: nat)
    requires WellMapped(pt) && v < Extent(pt)
    ensures a < MEMORY_SIZE
  {
    pt[v / PAGE_SIZE].physicalPage * PAGE_SIZE + v % PAGE_SIZE
  }

  /** The virtual memory that a program running with this page table sees. */
  ghost function Image(mem: Ram, pt: PageTable): (s: seq<Byte>)
    requires WellMapped(pt)
    ensures |s| == Extent(pt)
  {
    seq(Extent(pt), v requires 0 <= v < Extent(pt) => mem[PhysOf(pt, v)])
  }

  lemma PhysInjective(pt: PageTable, v: nat, w: nat)
    requires WellMapped(pt) && v < Extent(pt) && w < Extent(pt) && PhysOf(pt, v) == PhysOf(pt, w)
    ensures v == w
  {
    assert v / PAGE_SIZE < |pt| && w / PAGE_SIZE < |pt|;
    assert pt[v / PAGE_SIZE].physicalPage == pt[w / PAGE_SIZE].physicalPage;
  }

  /** A byte mapped by another table lies outside the frame that an access touches. */
  lemma ApartFromAccess(pt: PageTable, other: PageTable, virtAddr: Word, size: nat, v: nat)
    requires WellMapped(pt) && WellMapped(other) && DisjointTables(pt, other) && v < Extent(other)
    requires ValidSize(size) && Translate(pt, virtAddr, size, true).Phys?
    ensures var a := Translate(pt, virtAddr, size, true).addr; !(a <= PhysOf(other, v) < a + size)
  {
    AccessStaysInPage(pt, virtAddr, size, true);
    assert pt[virtAddr / PAGE_SIZE].physicalPage != other[v / PAGE_SIZE].physicalPage;
  }

  /** An access succeeds exactly when it is aligned and inside the space. */
  lemma TranslateSucceeds(pt: PageTable, virtAddr: Word, size: nat, writing: bool)
    requires WellMapped(pt) && ValidSize(size)
    ensures Translate(pt, virtAddr, size, writing).Phys? <==> Aligned(virtAddr, size) && virtAddr + size <= Extent(pt)
    ensures Translate(pt, virtAddr, size, writing).Phys? ==>
      && Translate(pt, virtAddr, size, writing).addr == PhysOf(pt, virtAddr)
      && SameMapping(pt, Translate(pt, virtAddr, size, writing).table)
      && (forall v :: virtAddr <= v < virtAddr + size ==> PhysOf(pt, v) == PhysOf(pt, virtAddr) + (v - virtAddr))
  {
    assert virtAddr % 128 % 4 == virtAddr % 4;
    assert virtAddr % 128 % 2 == virtAddr % 2;
    if Translate(pt, virtAddr, size, writing).Phys? {
      AccessStaysInPage(pt, virtAddr, size, writing);
      forall v | virtAddr <= v < virtAddr + size
        ensures v / PAGE_SIZE == virtAddr / PAGE_SIZE && v % PAGE_SIZE == virtAddr % PAGE_SIZE + (v - virtAddr)
      {}
    }
  }

  lemma SameMappingSameImage(mem: Ram, p: PageTable, q: PageTable)
    requires WellMapped(p) && SameMapping(p, q)
    ensures WellMapped(q) && Image(mem, q) == Image(mem, p)
    ensures forall r :: DisjointTables(p, r) ==> DisjointTables(q, r)
  {
    assert forall i :: 0 <= i < |p| ==>
      p[i].physicalPage == q[i].physicalPage && p[i].valid == q[i].valid && p[i].readOnly == q[i].readOnly;
    forall v | 0 <= v < Extent(p) ensures Image(mem, q)[v] == Image(mem, p)[v] {
      assert v / PAGE_SIZE < |p|;
    }
  }

  lemma ImageSlice(mem: Ram, pt: PageTable, virtAddr: nat, size: nat, a: nat)
    requires WellMapped(pt) && virtAddr + size <= Extent(pt) && a + size <= MEMORY_SIZE
    requires forall v :: virtAddr <= v < virtAddr + size ==> PhysOf(pt, v) == a + (v - virtAddr)
    ensures mem[a..a + size] == Image(mem, pt)[virtAddr..virtAddr + size]
  {
    var got, want := mem[a..a + size], Image(mem, pt)[virtAddr..virtAddr + size];
    forall k | 0 <= k < size ensures got[k] == want[k] {
      assert PhysOf(pt, virtAddr + k) == a + k;
    }
  }

  /** The physical bytes of an access are the bytes of the image. */
  lemma AccessSlice(mem: Ram, pt: PageTable, virtAddr: Word, size: nat, writing: bool)
    requires WellMapped(pt) && ValidSize(size) && Aligned(virtAddr, size) && virtAddr + size <= Extent(pt)
    ensures var t := Translate(pt, virtAddr, size, writing);
      t.Phys? && t.addr + size <= MEMORY_SIZE && mem[t.addr..t.addr + size] == Image(mem, pt)[virtAddr..virtAddr + size]
  {
    TranslateSucceeds(pt, virtAddr, size, writing);
    AccessStaysInPage(pt, virtAddr, size, writing);
    ImageSlice(mem, pt, virtAddr, size, PhysOf(pt, virtAddr));
  }

  /** A read delivers the bytes of the image. */
  lemma ReadSeesImage(mem: Ram, pt: PageTable, virtAddr: Word, size: nat)
    requires WellMapped(pt) && ValidSize(size) && Aligned(virtAddr, size) && virtAddr + size <= Extent(pt)
    ensures ReadMem(mem, pt, virtAddr, size).Value?
    ensures ReadMem(mem, pt, virtAddr, size).value == Decode(Image(mem, pt)[virtAddr..virtAddr + size])
  {
    AccessSlice(mem, pt, virtAddr, size, false);
  }

  /** A write replaces exactly those bytes of its own image... */
  lemma WriteChangesImage(mem: Ram, pt: PageTable, virtAddr: Word, size: nat, value: Word)
    requires WellMapped(pt) && ValidSize(size) && Aligned(virtAddr, size) && virtAddr + size <= Extent(pt)
    ensures WriteMem(mem, pt, virtAddr, size, value).Memory?
    ensures Image(WriteMem(mem, pt, virtAddr, size, value).mem, pt)
      == Overlay(Image(mem, pt), virtAddr, Encode(value, size))
  {
    TranslateSucceeds(pt, virtAddr, size, true);
    var after := WriteMem(mem, pt, virtAddr, size, value).mem;
    var a := PhysOf(pt, virtAddr);
    var b := Encode(value, size);
    var want := Overlay(Image(mem, pt), virtAddr, b);
    forall v | 0 <= v < Extent(pt) ensures Image(after, pt)[v] == want[v] {
      OverlayAt(mem, a, b, PhysOf(pt, v));
      OverlayAt(Image(mem, pt), virtAddr, b, v);
      if a <= PhysOf(pt, v) < a + size {
        var k := PhysOf(pt, v) - a;
        PhysInjective(pt, v, virtAddr + k);
      }
    }
  }

  /** ... and no byte of the image of a table with other frames. */
  lemma WriteKeepsOtherImage(mem: Ram, pt: PageTable, other: PageTable, virtAddr: Word, size: nat, value: Word)
    requires WellMapped(pt) && WellMapped(other) && DisjointTables(pt, other) && ValidSize(size)
    ensures var r := WriteMem(mem, pt, virtAddr, size, value); r.Memory? ==> Image(r.mem, other) == Image(mem, other)
  {
    TranslateSucceeds(pt, virtAddr, size, true);
    var r := WriteMem(mem, pt, virtAddr, size, value);
    if r.Memory? {
      var a := PhysOf(pt, virtAddr);
      var b := Encode(value, size);
      forall v | 0 <= v < Extent(other) ensures Image(r.mem, other)[v] == Image(mem, other)[v] {
        OverlayAt(mem, a, b, PhysOf(other, v));
        ApartFromAccess(pt, other, virtAddr, size, v);
      }
    }
  }

  /** A byte read at the k-th address of a stored value gives bits 8k to 8k + 7 of it. */
  lemma StoredByteOrder(mem: Ram, pt: PageTable, virtAddr: Word, size: nat, value: Word, k: nat)
    requires WellMapped(pt) && ValidSize(size) && Aligned(virtAddr, size) && virtAddr + size <= Extent(pt) && k < size
    ensures var w := WriteMem(mem, pt, virtAddr, size, value);
      w.Memory? && var r := ReadMem(w.mem, w.table, virtAddr + k, 1); r.Value? && r.value % 256 == ByteOf(value, k)
  {
    hide Encode, Decode;
    var w := WriteMem(mem, pt, virtAddr, size, value);
    TranslateSucceeds(pt, virtAddr, size, true);
    WriteChangesImage(mem, pt, virtAddr, size, value);
    SameMappingSameImage(w.mem, pt, w.table);
    ReadSeesImage(w.mem, w.table, virtAddr + k, 1);
    OverlayAt(Image(mem, pt), virtAddr, Encode(value, size), virtAddr + k);
    EncodeAt(value, size, k);
    DecodeAt(Image(w.mem, w.table)[virtAddr + k..virtAddr + k + 1], 0);
    Weights();
  }

  /** The k-th byte of a value that is read lies at the k-th address. */
  lemma LoadedByteOrder(mem: Ram, pt: PageTable, virtAddr: Word, size: nat, k: nat)
    requires WellMapped(pt) && ValidSize(size) && Aligned(virtAddr, size) && virtAddr + size <= Extent(pt) && k < size
    ensures var r := ReadMem(mem, pt, virtAddr, size);
      r.Value? && ByteOf(r.value, k) == Image(mem, pt)[virtAddr + k]
  {
    ReadSeesImage(mem, pt, virtAddr, size);
    DecodeAt(Image(mem, pt)[virtAddr..virtAddr + size], k);
  }
}
