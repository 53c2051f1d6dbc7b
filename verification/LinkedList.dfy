/** The singly linked list of threads/list.cc and the sequence it stands for. */
module LinkedList {

  /** What one list element carries: its sort key and its item. */
  datatype Entry<T> = Entry(key: int, item: T)

  // ---- The specification: insertion into a sequence ----

  /** The new entry goes in front of the first entry with a greater key. */
  function InsertSorted<T>(s: seq<Entry<T>>, e: Entry<T>): (r: seq<Entry<T>>)
    ensures |r| == |s| + 1
  {
    if s == [] then [e]
    else if e.key < s[0].key then [e] + s
    else [s[0]] + InsertSorted(s[1..], e)
  }

  ghost predicate Sorted<T>(s: seq<Entry<T>>) {
    forall i, j :: 0 <= i < j < |s| ==> s[i].key <= s[j].key
  }

  /** Where the entry lands: everything in front has a key that is not greater, and what follows
      directly has a greater one. */
  lemma {:induction false} InsertAt<T>(s: seq<Entry<T>>, e: Entry<T>, k: nat)
    requires k <= |s| && (forall i :: 0 <= i < k ==> s[i].key <= e.key) && (k < |s| ==> e.key < s[k].key)
    ensures InsertSorted(s, e) == s[..k] + [e] + s[k..]
  {
    if k > 0 {
      InsertAt(s[1..], e, k - 1);
      assert s[..k] == [s[0]] + s[1..][..k - 1];
      assert s[k..] == s[1..][k - 1..];
    }
  }

  /** Every insertion has such a place. */
  lemma {:induction false} InsertPlace<T>(s: seq<Entry<T>>, e: Entry<T>) returns (k: nat)
    ensures k <= |s| && (forall i :: 0 <= i < k ==> s[i].key <= e.key) && (k < |s| ==> e.key < s[k].key)
    ensures InsertSorted(s, e) == s[..k] + [e] + s[k..]
  {
    k := 0;
    while k < |s| && s[k].key <= e.key
      invariant k <= |s| && forall i :: 0 <= i < k ==> s[i].key <= e.key
    {
      k := k + 1;
    }
    InsertAt(s, e, k);
  }

  lemma SpliceEntries<X>(s: seq<X>, x: X, k: nat)
    requires k <= |s|
    ensures multiset(s[..k] + [x] + s[k..]) == multiset(s) + multiset{x}
  {
    assert s == s[..k] + s[k..];
  }

  /** The same entries and the new one, whether or not the list was sorted. */
  lemma InsertKeepsEntries<T>(s: seq<Entry<T>>, e: Entry<T>)
    ensures multiset(InsertSorted(s, e)) == multiset(s) + multiset{e}
  {
    var k := InsertPlace(s, e);
    SpliceEntries(s, e, k);
  }

  /** Insertion into a sorted list keeps it sorted and puts the new entry behind every entry whose
      key is not greater, so entries with equal keys leave in the order they came. */
  lemma InsertSortedStable<T>(s: seq<Entry<T>>, e: Entry<T>)
    requires Sorted(s)
    ensures Sorted(InsertSorted(s, e))
    ensures exists k :: 0 <= k <= |s| && InsertSorted(s, e) == s[..k] + [e] + s[k..] &&
                        forall i :: 0 <= i < |s| ==> (i < k <==> s[i].key <= e.key)
  {
    var k := InsertPlace(s, e);
    forall i | 0 <= i < |s| ensures i < k <==> s[i].key <= e.key {
      assert k < i ==> s[k].key <= s[i].key;
    }
  }

  // ---- The linked structure ----

  class ListElement<T> {
    var next: ListElement?<T>
    const key: int
    const item: T

    constructor (item: T, key: int)
      ensures this.item == item && this.key == key && next == null
    {
      this.item, this.key, next := item, key, null;
    }
  }

  datatype Option<T> = None | Some(value: T)

  class List<T> {
    var first: ListElement?<T>
    var last: ListElement?<T>
    ghost var nodes: seq<ListElement<T>>

    /** nodes is the chain from first to last. */
    ghost predicate Valid()
      reads this, nodes
    {
      && (first == null <==> nodes == [])
      && (nodes != [] ==> first == nodes[0] && last == nodes[|nodes| - 1] && nodes[|nodes| - 1].next == null)
      && (forall i :: 0 <= i < |nodes| - 1 ==> nodes[i].next == nodes[i + 1])
      && (forall i, j :: 0 <= i < j < |nodes| ==> nodes[i] != nodes[j])
    }

    ghost function Contents(): (s: seq<Entry<T>>)
      reads this
      ensures |s| == |nodes|
      ensures forall i :: 0 <= i < |s| ==> s[i] == Entry(nodes[i].key, nodes[i].item)
    {
      seq(|nodes|, i requires 0 <= i < |nodes| reads this => Entry(nodes[i].key, nodes[i].item))
    }

    constructor ()
      ensures Valid() && Contents() == [] && nodes == []
    {
      first, last, nodes := null, null, [];
    }

    predicate IsEmpty()
      requires Valid()
      reads this, nodes
      ensures IsEmpty() <==> Contents() == []
    {
      first == null
    }

    /** Put e behind the last element. */
    method LinkLast(e: ListElement<T>)
      requires Valid() && e !in nodes && e.next == null
      modifies this, nodes
      ensures Valid() && nodes == old(nodes) + [e]
      ensures Contents() == old(Contents()) + [Entry(e.key, e.item)]
    {
      if first == null {
        first := e;
      } else {
        last.next := e;
      }
      last := e;
      nodes := nodes + [e];
    }

    /** Put e in front of the first element. */
    method LinkFirst(e: ListElement<T>)
      requires Valid() && e !in nodes && e.next == null
      modifies this, e
      ensures Valid() && nodes == [e] + old(nodes)
      ensures Contents() == [Entry(e.key, e.item)] + old(Contents())
    {
      if first == null {
        last := e;
      } else {
        e.next := first;
      }
      first := e;
      nodes := [e] + nodes;
    }

    /** Put e between element number k - 1, which is ptr, and element number k. */
    method LinkAfter(ptr: ListElement<T>, e: ListElement<T>, ghost k: nat)
      requires Valid() && e !in nodes && e.next == null
      requires 0 < k < |nodes| && nodes[k - 1] == ptr
      modifies this`nodes, ptr, e
      ensures Valid() && nodes == old(nodes)[..k] + [e] + old(nodes)[k..]
      ensures Contents() == old(Contents())[..k] + [Entry(e.key, e.item)] + old(Contents())[k..]
    {
      e.next := ptr.next;
      ptr.next := e;
      nodes := nodes[..k] + [e] + nodes[k..];
    }

    method Append(item: T)
      requires Valid()
      modifies this, nodes
      ensures Valid() && fresh(set n | n in nodes && n !in old(nodes))
      ensures Contents() == old(Contents()) + [Entry(0, item)]
    {
      var element := new ListElement(item, 0);
      LinkLast(element);
    }

    method Prepend(item: T)
      requires Valid()
      modifies this, nodes
      ensures Valid() && fresh(set n | n in nodes && n !in old(nodes))
      ensures Contents() == [Entry(0, item)] + old(Contents())
    {
      var element := new ListElement(item, 0);
      LinkFirst(element);
    }

    /** Walks from the front: ptr is the last element in front of the first greater key. */
    method FindPlace(sortKey: int) returns (ptr: ListElement<T>, ghost k: nat)
      requires Valid() && first != null && first.key <= sortKey
      ensures 0 < k <= |nodes| && nodes[k - 1] == ptr
      ensures forall i :: 0 <= i < k ==> nodes[i].key <= sortKey
      ensures k < |nodes| ==> sortKey < nodes[k].key
      ensures k < |nodes| <==> ptr.next != null
      ensures ptr.key <= sortKey && (ptr.next != null ==> sortKey < ptr.next.key)
    {
      ptr, k := first, 1;
      while ptr.next != null && ptr.next.key <= sortKey
        invariant 0 < k <= |nodes| && nodes[k - 1] == ptr
        invariant forall i :: 0 <= i < k ==> nodes[i].key <= sortKey
        decreases |nodes| - k
      {
        assert k < |nodes| && nodes[k] == ptr.next;
        ptr, k := ptr.next, k + 1;
      }
      assert k < |nodes| ==> nodes[k - 1].next == nodes[k - 1 + 1];
    }

    /** Puts the element into its place among elements that are not all greater. */
    method LinkInside(e: ListElement<T>)
      requires Valid() && e !in nodes && e.next == null && first != null && first.key <= e.key
      modifies this, nodes, e
      ensures Valid() && (forall n :: n in nodes ==> n == e || n in old(nodes))
      ensures Contents() == InsertSorted(old(Contents()), Entry(e.key, e.item))
    {
      var ptr, k := FindPlace(e.key);
      InsertAt(Contents(), Entry(e.key, e.item), k);
      if ptr.next != null {
        LinkAfter(ptr, e, k);
      } else {
        LinkLast(e);
      }
    }

    method SortedInsert(item: T, sortKey: int)
      requires Valid()
      modifies this, nodes
      ensures Valid() && fresh(set n | n in nodes && n !in old(nodes))
      ensures Contents() == InsertSorted(old(Contents()), Entry(sortKey, item))
    {
      var element := new ListElement(item, sortKey);
      if first == null || sortKey < first.key {
        LinkFirst(element);
      } else {
        LinkInside(element);
      }
    }

    /** Unlinks the first element; its key goes to the caller as well. */
    method SortedRemove() returns (r: Option<Entry<T>>)
      requires Valid()
      modifies this
      ensures Valid() && (forall n :: n in nodes ==> n in old(nodes))
      ensures r.None? <==> old(Contents()) == []
      ensures Contents() == if r.None? then [] else old(Contents())[1..]
      ensures r.Some? ==> r.value == old(Contents())[0]
    {
      if first == null { return None; }
      r := Some(Entry(first.key, first.item));
      if first == last {
        assert |nodes| == 1;
        first, last := null, null;
      } else {
        assert |nodes| > 1 && nodes[0].next == nodes[0 + 1];
        first := first.next;
      }
      nodes := nodes[1..];
    }

    method Remove() returns (r: Option<T>)
      requires Valid()
      modifies this
      ensures Valid() && (forall n :: n in nodes ==> n in old(nodes))
      ensures r == if old(Contents()) == [] then None else Some(old(Contents())[0].item)
      ensures Contents() == if r.None? then [] else old(Contents())[1..]
    {
      var e := SortedRemove();
      r := if e.None? then None else Some(e.value.item);
    }
  }
}
