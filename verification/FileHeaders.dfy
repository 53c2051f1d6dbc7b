/** Allocating and freeing the sectors of a file (filesys/filehdr.cc), and the free map kept as a
    file on the same disk (userprog/bitmap.cc). */
module FileHeaders {
  import opened Words
  import opened Memory
  import opened Storage
  import opened Multiplier
  import opened BitMaps
  import opened OpenFiles

  // ---- What allocation does to the free map ----

  datatype Allocation = Allocation(bits: seq<bool>, sectors: seq<nat>)

  /** Find, n times. */
  function TakeSectors(bits: seq<bool>, n: nat): (a: Allocation)
    ensures |a.bits| == |bits|
  {
    if n == 0 then Allocation(bits, [])
    else
      var a := TakeSectors(bits, n - 1);
      var s := FirstClear(a.bits);
      if s == -1 then a else Allocation(a.bits[s := true], a.sectors + [s])
  }

  function ClearAll(bits: seq<bool>, sectors: seq<nat>): (r: seq<bool>)
    requires Below(sectors, |bits|)
    ensures |r| == |bits|
  {
    if sectors == [] then bits
    else
      ClearAll(bits, sectors[..|sectors| - 1])[sectors[|sectors| - 1] := false]
  }

  /** The sectors are different, were clear, and are exactly those marked since. */
  ghost predicate Took(bits: seq<bool>, a: Allocation)
    requires |a.bits| == |bits|
  {
    && Distinct(a.sectors) && Below(a.sectors, |bits|)
    && (forall k :: 0 <= k < |a.sectors| ==> !bits[a.sectors[k]])
    && (forall i :: 0 <= i < |bits| ==> (a.bits[i] <==> bits[i] || i in a.sectors))
  }

  lemma TookOneMore(bits: seq<bool>, a: Allocation, s: nat)
    requires |a.bits| == |bits| && Took(bits, a) && s < |bits| && !a.bits[s]
    ensures Took(bits, Allocation(a.bits[s := true], a.sectors + [s]))
  {
    assert s !in a.sectors && !bits[s];
    var b := Allocation(a.bits[s := true], a.sectors + [s]);
    forall i | 0 <= i < |bits| ensures b.bits[i] <==> bits[i] || i in b.sectors {
      assert i in b.sectors <==> i in a.sectors || i == s;
    }
  }

  lemma TakeOneMore(bits: seq<bool>, n: nat)
    requires 0 < n <= CountClear(bits)
    requires var a := TakeSectors(bits, n - 1);
      |a.sectors| == n - 1 && Took(bits, a) && CountClear(a.bits) == CountClear(bits) - (n - 1)
    ensures var a := TakeSectors(bits, n);
      |a.sectors| == n && Took(bits, a) && CountClear(a.bits) == CountClear(bits) - n
  {
    hide CountClear, Took, FirstClear;
    var a := TakeSectors(bits, n - 1);
    CountClearZero(a.bits);
    var s := FirstClear(a.bits);
    CountClearUpdate(a.bits, s, true);
    TookOneMore(bits, a, s);
  }

  /** When there are enough clear bits, allocation takes n different sectors that were clear, marks
      exactly those, and leaves n fewer clear. */
  lemma {:induction false} TakeSectorsTakes(bits: seq<bool>, n: nat)
    requires n <= CountClear(bits)
    ensures var a := TakeSectors(bits, n);
      |a.sectors| == n && Took(bits, a) && CountClear(a.bits) == CountClear(bits) - n
  {
    if n > 0 {
      TakeSectorsTakes(bits, n - 1);
      TakeOneMore(bits, n);
    }
  }

  /** Freeing clears the given sectors and nothing else. */
  lemma {:induction false} ClearAllAt(bits: seq<bool>, sectors: seq<nat>, i: nat)
    requires Below(sectors, |bits|) && i < |bits|
    ensures ClearAll(bits, sectors)[i] <==> bits[i] && i !in sectors
  {
    if sectors != [] {
      var n := |sectors| - 1;
      assert sectors == sectors[..n] + [sectors[n]];
      ClearAllAt(bits, sectors[..n], i);
    }
  }

  /** Freeing what was allocated restores the free map. */
  lemma TakeThenClear(bits: seq<bool>, n: nat)
    requires n <= CountClear(bits)
    ensures Below(TakeSectors(bits, n).sectors, |bits|)
         && ClearAll(TakeSectors(bits, n).bits, TakeSectors(bits, n).sectors) == bits
  {
    TakeSectorsTakes(bits, n);
    var a := TakeSectors(bits, n);
    forall i | 0 <= i < |bits| ensures ClearAll(a.bits, a.sectors)[i] == bits[i] {
      ClearAllAt(a.bits, a.sectors, i);
    }
  }

  // ---- class FileHeader ----

  predicate AllMarked(bits: seq<bool>, sectors: seq<nat>) {
    forall k :: 0 <= k < |sectors| ==> sectors[k] < |bits| && bits[sectors[k]]
  }

  class FileHeader {
    var numBytes: Word
    var numSectors: Word
    var dataSectors: seq<Word>

    ghost function View(): Header
      reads this
    {
      Header(numBytes, numSectors, dataSectors)
    }

    ghost predicate Valid()
      reads this
    {
      WellSized(View())
    }

    /** There is no constructor in the source: the fields hold whatever was there. */
    constructor (junk: Header)
      requires WellSized(junk)
      ensures Valid()
    {
      numBytes, numSectors, dataSectors := junk.numBytes, junk.numSectors, junk.dataSectors;
    }

    method FindSector(freeMap: BitMap, i: nat, ghost bits: seq<bool>)
      requires Valid() && freeMap.Valid() && freeMap.numBits == NUM_SECTORS && i < NUM_DIRECT && i < CountClear(bits)
      requires freeMap.Bits() == TakeSectors(bits, i).bits && dataSectors[..i] == TakeSectors(bits, i).sectors
      modifies this`dataSectors, freeMap.words
      ensures Valid() && freeMap.Bits() == TakeSectors(bits, i + 1).bits
        && dataSectors[..i + 1] == TakeSectors(bits, i + 1).sectors
    {
      hide BitsOf, CountClear;
      assert FirstClear(freeMap.Bits()) != -1 by {
        TakeSectorsTakes(bits, i);
        CountClearZero(freeMap.Bits());
      }
      ghost var front := dataSectors[..i];
      var s := freeMap.Find();
      dataSectors := dataSectors[i := s];
      assert dataSectors[..i + 1] == front + [s];
    }

    /** The loop of Allocate. */
    method FindSectors(freeMap: BitMap, n: nat)
      requires Valid() && freeMap.Valid() && n <= NUM_DIRECT && n <= CountClear(freeMap.Bits())
        && freeMap.numBits == NUM_SECTORS
      modifies this`dataSectors, freeMap.words
      ensures Valid() && freeMap.Bits() == TakeSectors(old(freeMap.Bits()), n).bits
      ensures dataSectors[..n] == TakeSectors(old(freeMap.Bits()), n).sectors
    {
      ghost var bits := freeMap.Bits();
      hide BitsOf, CountClear;
      for i := 0 to n
        invariant Valid() && freeMap.Bits() == TakeSectors(bits, i).bits
          && dataSectors[..i] == TakeSectors(bits, i).sectors
      {
        FindSector(freeMap, i, bits);
      }
    }

    /** There is no check against MaxFileSize: when the disk has room for a larger file, the loop would
        run past the end of dataSectors. */
    method Allocate(freeMap: BitMap, fileSize: nat) returns (ok: bool)
      requires Valid() && freeMap.Valid() && freeMap.numBits == NUM_SECTORS && fileSize < 0x8000_0000
      requires fileSize <= MAX_FILE_SIZE || DivRoundUp(fileSize, SECTOR_SIZE) > CountClear(freeMap.Bits())
      modifies this, freeMap.words
      ensures Valid()
      ensures ok <==> DivRoundUp(fileSize, SECTOR_SIZE) <= CountClear(old(freeMap.Bits()))
      ensures ok ==>
        var a := TakeSectors(old(freeMap.Bits()), DivRoundUp(fileSize, SECTOR_SIZE));
        freeMap.Bits() == a.bits && numSectors <= NUM_DIRECT && MetaOf(View()) == Meta(fileSize, a.sectors)
      ensures !ok ==> freeMap.Bits() == old(freeMap.Bits())
    {
      numBytes := fileSize;
      numSectors := DivRoundUp(fileSize, SECTOR_SIZE);
      var clear := freeMap.NumClear();
      if clear < numSectors { return false; }
      FindSectors(freeMap, numSectors);
      return true;
    }

    /** The ASSERT in the loop holds for every sector, because none occurs twice. */
    method Deallocate(freeMap: BitMap)
      requires Valid() && freeMap.Valid() && freeMap.numBits == NUM_SECTORS
      requires numSectors <= NUM_DIRECT && Distinct(MetaOf(View()).data)
        && AllMarked(freeMap.Bits(), MetaOf(View()).data)
      modifies freeMap.words
      ensures freeMap.Bits() == ClearAll(old(freeMap.Bits()), MetaOf(View()).data)
    {
      ghost var data, bits := MetaOf(View()).data, freeMap.Bits();
      hide BitsOf;
      for i := 0 to numSectors
        invariant freeMap.Bits() == ClearAll(bits, data[..i])
      {
        var s := dataSectors[i];
        assert s == data[i] && s in data && s !in data[..i];
        ClearAllAt(bits, data[..i], s);
        var marked := freeMap.Test(s);
        assert marked;
        freeMap.Clear(s);
        assert data[..i + 1][..i] == data[..i];
      }
      assert data[..|data|] == data;
    }

    method FetchFrom(disk: SynchDisk, sector: nat)
      requires WellFormed(disk.sectors) && sector < NUM_SECTORS
      modifies this
      ensures Valid() && View() == DecodeHeader(disk.sectors[sector])
    {
      var data := disk.ReadSector(sector);
      var h := DecodeHeader(data);
      numBytes, numSectors, dataSectors := h.numBytes, h.numSectors, h.dataSectors;
    }

    method WriteBack(disk: SynchDisk, sector: nat)
      requires Valid() && WellFormed(disk.sectors) && sector < NUM_SECTORS
      modifies disk
      ensures WellFormed(disk.sectors) && disk.sectors == old(disk.sectors)[sector := disk.sectors[sector]]
      ensures DecodeHeader(disk.sectors[sector]) == View()
    {
      HeaderRoundTrip(View());
      disk.WriteSector(sector, EncodeHeader(Header(numBytes, numSectors, dataSectors)));
    }
  }

  // ---- The free map as a file ----

  const MAP_FILE_SIZE: nat := 128   // NumSectors / BitsInByte

  /** The bits that the free map file stands for. */
  function MapBits(content: seq<Byte>): (bits: seq<bool>)
    requires |content| == MAP_FILE_SIZE
    ensures |bits| == NUM_SECTORS
  {
    BitsOf(BytesToWords(content), NUM_SECTORS)
  }

  lemma WordBits(b: seq<Byte>, k: nat)
    requires |b| == 4 && k < 32
    ensures TestBit(Decode(b), k) == TestBit(b[k / 8], k % 8)
  {
    var b0: nat, b1: nat, b2: nat, b3: nat := b[0], b[1], b[2], b[3];
    assert Pow2(8) == 256;
    hide Pow2, TestBit;
    DigitsSplit(b1 + 0x100 * b2 + 0x1_0000 * b3, b0, 8, k);
    if k >= 8 { DigitsSplit(b2 + 0x100 * b3, b1, 8, k - 8); }
    if k >= 16 { DigitsSplit(b3, b2, 8, k - 16); }
  }

  /** Sector i is marked by bit i % 8 of byte i / 8 of the free map file. */
  lemma MapLayout(content: seq<Byte>, i: nat)
    requires |content| == 128 && i < 1024
    ensures MapBits(content)[i] == TestBit(content[i / 8], i % 8)
  {
    var j := i / 32;
    WordBits(content[4 * j..4 * j + 4], i % 32);
    assert i / 8 == 4 * j + i % 32 / 8 && i % 32 % 8 == i % 8;
  }

  /** BitMap::FetchFrom. */
  method FetchMap(freeMap: BitMap, file: OpenFile)
    requires freeMap.Valid() && freeMap.numBits == NUM_SECTORS
    requires file.Valid() && file.hdr.numBytes == MAP_FILE_SIZE
    modifies freeMap.words
    ensures freeMap.Bits() == MapBits(file.Content())
  {
    var data := file.ReadAt(MAP_FILE_SIZE, 0);
    assert data == file.Content();
    var ws := BytesToWords(data);
    for i := 0 to |ws|
      invariant forall k :: 0 <= k < i ==> freeMap.words[k] == ws[k]
    {
      freeMap.words[i] := ws[i];
    }
    assert freeMap.words[..] == ws;
  }

  /** BitMap::WriteBack. */
  method WriteMap(freeMap: BitMap, file: OpenFile)
    requires freeMap.Valid() && freeMap.numBits == NUM_SECTORS
    requires file.Valid() && file.hdr.numBytes == MAP_FILE_SIZE
    modifies file.disk
    ensures file.Valid() && MapBits(file.Content()) == freeMap.Bits()
    ensures forall s :: 0 <= s < NUM_SECTORS && s !in MetaOf(file.hdr).data ==>
      file.disk.sectors[s] == old(file.disk.sectors[s])
  {
    var bytes := WordsToBytes(freeMap.words[..]);
    WordsRoundTrip(freeMap.words[..]);
    var n := file.WriteAt(bytes, MAP_FILE_SIZE, 0);
    assert file.Content() == bytes;
  }
}
