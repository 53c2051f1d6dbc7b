/** The fixed-size directory of filesys/directory.cc: a table of entries found by the first nine
    characters of their names. */
module Directories {
  import opened Words
  import opened Memory
  import opened Storage
  import opened OpenFiles

  const NUM_DIR_ENTRIES: nat := 10
  const DIRECTORY_FILE_SIZE: nat := 200
  const DOT: seq<Byte> := ['.' as Byte]
  const DOT_DOT: seq<Byte> := ['.' as Byte, '.' as Byte]

  // ---- Names ----

  /** The character at index i of a C string. */
  function CharAt(s: seq<Byte>, i: nat): Byte { if i < |s| then s[i] else 0 }

  /** n characters of a C string from an index on, filled up with zeros behind its end. */
  function PaddedFrom(s: seq<Byte>, from: nat, n: nat): (r: seq<Byte>)
    ensures |r| == n
    decreases n
  {
    if n == 0 then []
    else if CharAt(s, from) == 0 then seq(n, _ => 0)
    else [CharAt(s, from)] + PaddedFrom(s, from + 1, n - 1)
  }

  /** What strncpy stores, and what strncmp compares. */
  function Key(name: seq<Byte>): (k: seq<Byte>)
    ensures |k| == NAME_MAX
  {
    PaddedFrom(name, 0, NAME_MAX)
  }

  lemma {:induction false} PaddedTwice(front: seq<Byte>, s: seq<Byte>, from: nat, n: nat, rest: seq<Byte>)
    ensures PaddedFrom(front + PaddedFrom(s, from, n) + rest, |front|, n) == PaddedFrom(s, from, n)
    decreases n
  {
    var c := CharAt(s, from);
    if n > 0 && c != 0 {
      PaddedTwice(front + [c], s, from + 1, n - 1, rest);
      assert front + PaddedFrom(s, from, n) + rest == front + [c] + PaddedFrom(s, from + 1, n - 1) + rest;
    }
  }

  lemma PaddedStep(a: seq<Byte>, b: seq<Byte>, from: nat, n: nat)
    requires n > 0
    ensures PaddedFrom(a, from, n) == PaddedFrom(b, from, n) <==>
      CharAt(a, from) == CharAt(b, from)
        && (CharAt(a, from) != 0 ==> PaddedFrom(a, from + 1, n - 1) == PaddedFrom(b, from + 1, n - 1))
  {
    var x, y := PaddedFrom(a, from, n), PaddedFrom(b, from, n);
    assert x[0] == CharAt(a, from) && y[0] == CharAt(b, from);
    assert CharAt(a, from) != 0 ==> x[1..] == PaddedFrom(a, from + 1, n - 1);
    assert CharAt(b, from) != 0 ==> y[1..] == PaddedFrom(b, from + 1, n - 1);
  }

  /** The character of a name at i, or 0 at its end. */
  lemma {:induction false} PaddedAt(s: seq<Byte>, from: nat, n: nat, i: nat)
    requires i < n && forall k :: from <= k < from + i && k < |s| ==> s[k] != 0
    requires from + i <= |s|
    ensures PaddedFrom(s, from, n)[i] == if from + i < |s| then s[from + i] else 0
    decreases n
  {
    if i > 0 { PaddedAt(s, from + 1, n - 1, i - 1); }
  }

  lemma {:induction false} PaddedBehind(s: seq<Byte>, from: nat, n: nat, e: nat, i: nat)
    requires from <= e <= |s| && e - from <= i < n && (e == |s| || s[e] == 0)
    requires forall k :: from <= k < e ==> s[k] != 0
    ensures PaddedFrom(s, from, n)[i] == 0
    decreases n
  {
    if from < e { PaddedBehind(s, from + 1, n - 1, e, i - 1); }
  }

  /** What is stored for a name: its characters up to the first zero, cut off at nine, and zeros. */
  lemma KeyCharacters(name: seq<Byte>, e: nat, i: nat)
    requires e <= |name| && (e == |name| || name[e] == 0) && (forall k :: 0 <= k < e ==> name[k] != 0) && i < 9
    ensures Key(name)[i] == if i < e then name[i] else 0
  {
    if i < e { PaddedAt(name, 0, NAME_MAX, i); } else { PaddedBehind(name, 0, NAME_MAX, e, i); }
  }

  /** Two names are the same to the directory if and only if they agree, character by character, up to
      and with the end of one of them, or in nine characters. Here e and f are where they end. */
  lemma SameKeyIff(a: seq<Byte>, e: nat, b: seq<Byte>, f: nat)
    requires e <= |a| && (e == |a| || a[e] == 0) && (forall k :: 0 <= k < e ==> a[k] != 0)
    requires f <= |b| && (f == |b| || b[f] == 0) && (forall k :: 0 <= k < f ==> b[k] != 0)
    ensures Key(a) == Key(b) <==>
      (e == f || (e >= 9 && f >= 9)) && (forall i :: 0 <= i < 9 && i < e && i < f ==> a[i] == b[i])
  {
    forall i | 0 <= i < 9
      ensures Key(a)[i] == (if i < e then a[i] else 0) && Key(b)[i] == (if i < f then b[i] else 0) {
      KeyCharacters(a, e, i);
      KeyCharacters(b, f, i);
    }
    hide Key;
    if e < f && e < 9 { assert Key(a)[e] != Key(b)[e]; }
    if f < e && f < 9 { assert Key(a)[f] != Key(b)[f]; }
    assert Key(a) == Key(b) <==> forall i :: 0 <= i < 9 ==> Key(a)[i] == Key(b)[i];
  }

  /** !strncmp(a, b, FileNameMaxLen). */
  method SameName(a: seq<Byte>, b: seq<Byte>) returns (same: bool)
    ensures same <==> Key(a) == Key(b)
  {
    for i := 0 to NAME_MAX
      invariant Key(a) == Key(b) <==> PaddedFrom(a, i, NAME_MAX - i) == PaddedFrom(b, i, NAME_MAX - i)
    {
      PaddedStep(a, b, i, NAME_MAX - i);
      if CharAt(a, i) != CharAt(b, i) { return false; }
      if CharAt(a, i) == 0 { return true; }
    }
    return true;
  }

  // ---- What the operations do to a table ----

  type Table = seq<DirEntry>

  predicate InUse(e: DirEntry) { e.inUse != 0 }
  function KeyOf(e: DirEntry): seq<Byte> { Key(e.name) }

  /** strncpy leaves the byte behind the nine characters alone. */
  function WithName(e: DirEntry, name: seq<Byte>): DirEntry
    requires WellFormedEntry(e)
  {
    e.(name := Key(name) + e.name[NAME_MAX..])
  }

  function NewEntry(e: DirEntry, name: seq<Byte>, isDirectory: bool, sector: Word): (r: DirEntry)
    requires WellFormedEntry(e)
    ensures WellFormedEntry(r) && InUse(r) && r.sector == sector && (r.isDirectory != 0 <==> isDirectory)
    ensures KeyOf(r) == Key(name)
  {
    PaddedTwice([], name, 0, NAME_MAX, e.name[NAME_MAX..]);
    assert [] + Key(name) + e.name[NAME_MAX..] == Key(name) + e.name[NAME_MAX..];
    WithName(e.(inUse := 1, isDirectory := if isDirectory then 1 else 0, sector := sector), name)
  }

  /** The first entry in use with this key, or -1. */
  function FindFrom(t: Table, key: seq<Byte>, from: nat): (r: int)
    requires from <= |t|
    ensures r == -1 || from <= r < |t|
    ensures r >= 0 ==> InUse(t[r]) && KeyOf(t[r]) == key && forall i :: from <= i < r ==>
      !(InUse(t[i]) && KeyOf(t[i]) == key)
    ensures r == -1 <==> forall i :: from <= i < |t| ==> !(InUse(t[i]) && KeyOf(t[i]) == key)
    decreases |t| - from
  {
    if from == |t| then -1
    else if InUse(t[from]) && KeyOf(t[from]) == key then from
    else FindFrom(t, key, from + 1)
  }

  function Lookup(t: Table, name: seq<Byte>): (r: int)
    ensures -1 <= r < |t|
    ensures r >= 0 ==> InUse(t[r]) && KeyOf(t[r]) == Key(name)
    ensures r == -1 <==> forall i :: 0 <= i < |t| ==> !(InUse(t[i]) && KeyOf(t[i]) == Key(name))
  {
    FindFrom(t, Key(name), 0)
  }

  /** The use flag and the ten characters of name of entry i in a directory file. */
  function UseFlag(b: seq<Byte>, i: nat): Byte
    requires 20 * i < |b|
  {
    b[20 * i]
  }

  function StoredName(b: seq<Byte>, i: nat): seq<Byte>
    requires 20 * i + 18 <= |b|
  {
    b[20 * i + 8..20 * i + 18]
  }

  lemma EntryOnBytes(b: seq<Byte>, i: nat)
    requires |b| == 200 && i < 10
    ensures var e := DecodeTable(b)[i]; e.inUse == UseFlag(b, i) && e.name == StoredName(b, i)
  {
    EntryLayout(b, i);
    hide DecodeTable;
    var x, y := DecodeTable(b)[i].name, StoredName(b, i);
    assert |x| == |y| && forall k :: 0 <= k < |x| ==> x[k] == y[k];
  }

  /** Lookup on the bytes of the directory file: the first of the ten entries whose use flag is not zero and whose
      characters are the same name to the directory as the given one. */
  lemma LookupOnBytes(b: seq<Byte>, name: seq<Byte>)
    requires |b| == 200
    ensures var r := Lookup(DecodeTable(b), name);
      && -1 <= r < 10
      && (r >= 0 ==> UseFlag(b, r) != 0 && Key(StoredName(b, r)) == Key(name))
      && forall i :: 0 <= i < 10 && (r == -1 || i < r) ==> UseFlag(b, i) == 0 || Key(StoredName(b, i)) != Key(name)
  {
    hide DecodeTable, Key, UseFlag, StoredName;
    var t := DecodeTable(b);
    forall i | 0 <= i < 10 ensures t[i].inUse == UseFlag(b, i) && t[i].name == StoredName(b, i) {
      EntryOnBytes(b, i);
    }
    assert Lookup(t, name) == FindFrom(t, Key(name), 0);
  }

  /** The first entry not in use, or -1. */
  function FreeFrom(t: Table, from: nat): (r: int)
    requires from <= |t|
    ensures r == -1 || from <= r < |t|
    ensures r >= 0 ==> !InUse(t[r]) && forall i :: from <= i < r ==> InUse(t[i])
    ensures r == -1 <==> forall i :: from <= i < |t| ==> InUse(t[i])
    decreases |t| - from
  {
    if from == |t| then -1 else if !InUse(t[from]) then from else FreeFrom(t, from + 1)
  }

  function FreeSlot(t: Table): (r: int)
    ensures -1 <= r < |t|
    ensures r >= 0 ==> !InUse(t[r])
    ensures r == -1 <==> forall i :: 0 <= i < |t| ==> InUse(t[i])
  {
    FreeFrom(t, 0)
  }

  ghost predicate DistinctKeys(t: Table) {
    forall i, j :: 0 <= i < j < |t| && InUse(t[i]) && InUse(t[j]) ==> KeyOf(t[i]) != KeyOf(t[j])
  }

  /** With distinct keys, the entry with a given key is the one that is found. */
  lemma LookupUnique(t: Table, name: seq<Byte>, i: nat)
    requires DistinctKeys(t) && i < |t| && InUse(t[i]) && KeyOf(t[i]) == Key(name)
    ensures Lookup(t, name) == i
  {
    assert Lookup(t, name) != -1;
  }

  /** A new name goes into a free entry: afterwards no two entries share a key, the new name is
      found there, and every other name is found where it was. */
  lemma AddKeepsLookup(t: Table, i: nat, e: DirEntry, name: seq<Byte>, other: seq<Byte>)
    requires DistinctKeys(t) && Lookup(t, name) == -1 && i < |t| && !InUse(t[i]) && InUse(e) && KeyOf(e) == Key(name)
    ensures DistinctKeys(t[i := e]) && Lookup(t[i := e], name) == i
    ensures Key(other) != Key(name) ==> Lookup(t[i := e], other) == Lookup(t, other)
  {
    var u := t[i := e];
    forall j, k | 0 <= j < k < |u| && InUse(u[j]) && InUse(u[k]) ensures KeyOf(u[j]) != KeyOf(u[k]) {
      assert j != i ==> InUse(t[j]);
      assert k != i ==> InUse(t[k]);
    }
    LookupUnique(u, name, i);
    var r := Lookup(t, other);
    if Key(other) != Key(name) && r != -1 { LookupUnique(u, other, r); }
  }

  /** Taking an entry out of use makes its name unknown and leaves the other names alone. */
  lemma RemoveKeepsLookup(t: Table, i: nat, name: seq<Byte>, other: seq<Byte>)
    requires DistinctKeys(t) && Lookup(t, name) == i
    ensures var u := t[i := t[i].(inUse := 0)];
      && DistinctKeys(u) && Lookup(u, name) == -1
      && (Key(other) != Key(name) ==> Lookup(u, other) == Lookup(t, other))
  {
    var u := t[i := t[i].(inUse := 0)];
    forall j, k | 0 <= j < k < |u| && InUse(u[j]) && InUse(u[k]) ensures KeyOf(u[j]) != KeyOf(u[k]) {
      assert InUse(t[j]) && InUse(t[k]);
    }
    forall j | 0 <= j < |u| ensures !(InUse(u[j]) && KeyOf(u[j]) == Key(name)) {
      assert j < i ==> !(InUse(t[j]) && KeyOf(t[j]) == KeyOf(t[i]));
      assert i < j ==> !(InUse(t[j]) && KeyOf(t[i]) == KeyOf(t[j]));
    }
    var r := Lookup(t, other);
    if Key(other) != Key(name) && r != -1 { LookupUnique(u, other, r); }
  }

  // ---- class Directory ----

  const BLANK_ENTRY: DirEntry := DirEntry(0, [0, 0, 0], 0, [0, 0, 0, 0, 0, 0, 0, 0, 0, 0], 0, 0)

  function BlankTable(): (t: Table)
    ensures |t| == NUM_DIR_ENTRIES && WellFormedTable(t)
  {
    seq(NUM_DIR_ENTRIES, _ => BLANK_ENTRY)
  }

  class Directory {
    var table: Table

    ghost predicate Valid()
      reads this
    {
      |table| == NUM_DIR_ENTRIES && WellFormedTable(table)
    }

    /** The new table holds garbage, but no entry is in use. */
    constructor (junk: Table)
      requires |junk| == NUM_DIR_ENTRIES && WellFormedTable(junk)
      ensures Valid() && forall i :: 0 <= i < |table| ==> !InUse(table[i])
    {
      table := junk;
      new;
      for i := 0 to NUM_DIR_ENTRIES
        invariant Valid() && forall k :: 0 <= k < i ==> !InUse(table[k])
      {
        table := table[i := table[i].(inUse := 0)];
      }
    }

    method FetchFrom(file: OpenFile)
      requires file.Valid() && file.hdr.numBytes == DIRECTORY_FILE_SIZE
      modifies this
      ensures Valid() && table == DecodeTable(file.Content())
    {
      var bytes := file.ReadAt(DIRECTORY_FILE_SIZE, 0);
      assert bytes == file.Content();
      table := DecodeTable(bytes);
    }

    method WriteBack(file: OpenFile)
      requires Valid() && file.Valid() && file.hdr.numBytes == DIRECTORY_FILE_SIZE
      modifies file.disk
      ensures file.Valid() && DecodeTable(file.Content()) == table
      ensures forall s :: 0 <= s < NUM_SECTORS && s !in MetaOf(file.hdr).data ==>
        file.disk.sectors[s] == old(file.disk.sectors[s])
    {
      var bytes := EncodeTable(table);
      TableRoundTrip(table);
      var n := file.WriteAt(bytes, DIRECTORY_FILE_SIZE, 0);
      assert file.Content() == bytes;
    }

    method FindIndex(name: seq<Byte>) returns (r: int)
      requires Valid()
      ensures r == Lookup(table, name)
    {
      for i := 0 to NUM_DIR_ENTRIES
        invariant forall k :: 0 <= k < i ==> !(InUse(table[k]) && KeyOf(table[k]) == Key(name))
        invariant FindFrom(table, Key(name), i) == Lookup(table, name)
      {
        var same := SameName(table[i].name, name);
        if InUse(table[i]) && same { return i; }
      }
      return -1;
    }

    method Find(name: seq<Byte>) returns (sector: int)
      requires Valid()
      ensures sector == if Lookup(table, name) == -1 then -1 else table[Lookup(table, name)].sector
    {
      var i := FindIndex(name);
      if i != -1 { return table[i].sector; }
      return -1;
    }

    method Add(name: seq<Byte>, isDirectory: bool, i: nat, sector: Word)
      requires Valid() && i < NUM_DIR_ENTRIES
      modifies this
      ensures Valid() && table == old(table)[i := NewEntry(old(table)[i], name, isDirectory, sector)]
    {
      table := table[i := NewEntry(table[i], name, isDirectory, sector)];
    }

    method AddFile(name: seq<Byte>, sector: Word) returns (ok: bool)
      requires Valid()
      modifies this
      ensures Valid()
      ensures ok <==> Lookup(old(table), name) == -1 && FreeSlot(old(table)) != -1
      ensures table == if ok then old(table)[FreeSlot(old(table)) :=
        NewEntry(old(table)[FreeSlot(old(table))], name, false, sector)] else old(table)
    {
      var known := FindIndex(name);
      if known != -1 { return false; }
      for i := 0 to NUM_DIR_ENTRIES
        invariant table == old(table) && FreeFrom(table, i) == FreeSlot(table)
      {
        if !InUse(table[i]) {
          Add(name, false, i, sector);
          return true;
        }
      }
      return false;
    }

    method AddSpecialDir(sector: Word, parent: Word) returns (ok: bool)
      requires Valid()
      modifies this
      ensures Valid() && (ok <==> !InUse(old(table)[0]) && !InUse(old(table)[1]))
      ensures table == if ok then old(table)[0 := NewEntry(old(table)[0], DOT, true, sector)]
                                            [1 := NewEntry(old(table)[1], DOT_DOT, true, parent)] else old(table)
    {
      if InUse(table[0]) || InUse(table[1]) { return false; }
      Add(DOT, true, 0, sector);
      Add(DOT_DOT, true, 1, parent);
      return true;
    }

    method Remove(name: seq<Byte>) returns (ok: bool)
      requires Valid()
      modifies this
      ensures Valid() && (ok <==> Lookup(old(table), name) != -1)
      ensures table == if ok then old(table)[Lookup(old(table), name) :=
        old(table)[Lookup(old(table), name)].(inUse := 0)] else old(table)
    {
      var i := FindIndex(name);
      if i == -1 { return false; }
      table := table[i := table[i].(inUse := 0)];
      return true;
    }
  }
}
