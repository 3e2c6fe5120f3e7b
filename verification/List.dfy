/**
 * The singly linked list of the kernel (threads/list.cc): heap nodes relinked
 * through `next`, with pointers to the first and the last node.
 */
module Lists {
  import opened Options

  /** What one node stores: the item and its sort key. */
  datatype Entry<T> = Entry(item: T, key: int)

  ghost predicate Sorted<T>(s: seq<Entry<T>>) {
    forall i, j :: 0 <= i < j < |s| ==> s[i].key <= s[j].key
  }

  /** The list after a sorted insertion: `e` goes just before the first larger key. */
  function Inserted<T>(s: seq<Entry<T>>, e: Entry<T>): (r: seq<Entry<T>>) {
    if s == [] || e.key < s[0].key then [e] + s else [s[0]] + Inserted(s[1..], e)
  }

  /** A sequence with one more element at position `k`. */
  function Spliced<X>(s: seq<X>, k: nat, x: X): (r: seq<X>)
    requires k <= |s|
  {
    s[..k] + [x] + s[k..]
  }

  lemma SplicedAt<X>(s: seq<X>, k: nat, x: X)
    requires k <= |s|
    ensures |Spliced(s, k, x)| == |s| + 1 && Spliced(s, k, x)[k] == x
    ensures forall i :: 0 <= i < k ==> Spliced(s, k, x)[i] == s[i]
    ensures forall i :: k < i <= |s| ==> Spliced(s, k, x)[i] == s[i - 1]
  {
  }

  lemma SplicedDistinct<X>(s: seq<X>, k: nat, x: X)
    requires k <= |s| && x !in s && forall i, j :: 0 <= i < j < |s| ==> s[i] != s[j]
    ensures var r := Spliced(s, k, x); forall i, j :: 0 <= i < j < |r| ==> r[i] != r[j]
  {
  }

  /** Where the insertion loop stops is where the specification puts the entry. */
  lemma {:induction false} InsertedAt<T>(s: seq<Entry<T>>, e: Entry<T>, k: nat)
    requires k <= |s|
    requires forall j :: 0 <= j < k ==> s[j].key <= e.key
    requires k < |s| ==> e.key < s[k].key
    ensures Inserted(s, e) == Spliced(s, k, e)
  {
    if k > 0 {
      InsertedAt(s[1..], e, k - 1);
      assert s[..k] == [s[0]] + s[1..][..k - 1];
    }
  }

  /** The position at which a sorted insertion places a key: how many entries precede it. */
  function Place<T>(s: seq<Entry<T>>, key: int): (k: nat)
    ensures k <= |s|
    ensures forall j :: 0 <= j < k ==> s[j].key <= key
    ensures k < |s| ==> key < s[k].key
  {
    if s == [] || key < s[0].key then 0 else 1 + Place(s[1..], key)
  }

  /** Insertion adds exactly one entry and keeps all the others. */
  lemma InsertAddsOne<T>(s: seq<Entry<T>>, e: Entry<T>)
    ensures multiset(Inserted(s, e)) == multiset(s) + multiset{e}
    ensures |Inserted(s, e)| == |s| + 1
  {
    hide Inserted;
    var k := Place(s, e.key);
    InsertedAt(s, e, k);
    var front, back := s[..k], s[k..];
    assert s == front + back;
  }

  /**
   * On a sorted list the new entry lands after every key up to its own and
   * before every larger one, the others keep their order, and the list stays
   * sorted.
   */
  lemma InsertKeepsSorted<T>(s: seq<Entry<T>>, e: Entry<T>)
    requires Sorted(s)
    ensures Sorted(Inserted(s, e))
    ensures Inserted(s, e) == Spliced(s, Place(s, e.key), e)
    ensures forall j :: 0 <= j < |s| ==> (s[j].key <= e.key <==> j < Place(s, e.key))
  {
    hide Inserted;
    var k := Place(s, e.key);
    InsertedAt(s, e, k);
    forall j | 0 <= j < |s|
      ensures s[j].key <= e.key <==> j < k
    {
      assert k <= j ==> s[k].key <= s[j].key;
    }
  }

  /** The head of a sorted list has a minimum key, and what remains is sorted. */
  lemma HeadIsMinimum<T>(s: seq<Entry<T>>)
    requires Sorted(s) && s != []
    ensures forall e :: e in s ==> s[0].key <= e.key
    ensures Sorted(s[1..]) && multiset(s) == multiset(s[1..]) + multiset{s[0]}
  {
    assert s == [s[0]] + s[1..];
  }

  /** The entries with one key, in list order. */
  function WithKey<T>(s: seq<Entry<T>>, k: int): (r: seq<Entry<T>>) {
    if s == [] then [] else (if s[0].key == k then [s[0]] else []) + WithKey(s[1..], k)
  }

  /** A sorted insertion queues the entry behind those of the same key and moves no others. */
  lemma {:induction false} InsertIsStable<T>(s: seq<Entry<T>>, e: Entry<T>, k: int)
    requires Sorted(s)
    ensures WithKey(Inserted(s, e), k) == WithKey(s, k) + if e.key == k then [e] else []
  {
    if s == [] || e.key < s[0].key {
      WithKeyCons(e, s, k);
      if e.key == k {
        NoneWithKey(s, k);
      }
    } else {
      InsertIsStable(s[1..], e, k);
      WithKeyCons(s[0], Inserted(s[1..], e), k);
      WithKeyCons(s[0], s[1..], k);
      assert s == [s[0]] + s[1..];
    }
  }

  lemma WithKeyCons<T>(e: Entry<T>, s: seq<Entry<T>>, k: int)
    ensures WithKey([e] + s, k) == (if e.key == k then [e] else []) + WithKey(s, k)
  {
    assert ([e] + s)[1..] == s;
  }

  lemma {:induction false} NoneWithKey<T>(s: seq<Entry<T>>, k: int)
    requires forall e :: e in s ==> e.key != k
    ensures WithKey(s, k) == []
  {
    if s != [] {
      NoneWithKey(s[1..], k);
    }
  }

  /** A list built only by sorted insertions. */
  function InsertAll<T>(xs: seq<Entry<T>>): (r: seq<Entry<T>>) {
    if xs == [] then [] else Inserted(InsertAll(xs[..|xs| - 1]), xs[|xs| - 1])
  }

  /** It is a sorted permutation of what was inserted, in insertion order among equal keys. */
  lemma {:induction false} InsertAllSorts<T>(xs: seq<Entry<T>>, k: int)
    ensures Sorted(InsertAll(xs)) && multiset(InsertAll(xs)) == multiset(xs)
    ensures WithKey(InsertAll(xs), k) == WithKey(xs, k)
  {
    if xs != [] {
      var front, e := xs[..|xs| - 1], xs[|xs| - 1];
      InsertAllSorts(front, k);
      InsertKeepsSorted(InsertAll(front), e);
      InsertAddsOne(InsertAll(front), e);
      InsertIsStable(InsertAll(front), e, k);
      assert xs == front + [e];
      WithKeySnoc(front, e, k);
    }
  }

  lemma {:induction false} WithKeySnoc<T>(s: seq<Entry<T>>, e: Entry<T>, k: int)
    ensures WithKey(s + [e], k) == WithKey(s, k) + if e.key == k then [e] else []
  {
    if s != [] {
      WithKeySnoc(s[1..], e, k);
      assert (s + [e])[1..] == s[1..] + [e];
    }
  }

  class ListElement<T> {
    var next: ListElement?<T>
    var key: int
    var item: T

    constructor (itemPtr: T, sortKey: int)
      ensures item == itemPtr && key == sortKey && next == null
    {
      item := itemPtr;
      key := sortKey;
      next := null;
    }
  }

  class List<T> {
    var first: ListElement?<T>
    var last: ListElement?<T>
    /** The nodes in list order. */
    ghost var spine: seq<ListElement<T>>

    /** `first` reaches every node once through `next`, ending at `last`. */
    ghost predicate Valid()
      reads this, spine
    {
      && (first == null <==> spine == [])
      && (last == null <==> spine == [])
      && (spine != [] ==>
            && first == spine[0]
            && last == spine[|spine| - 1]
            && spine[|spine| - 1].next == null)
      && (forall i :: 0 <= i < |spine| - 1 ==> spine[i].next != null && spine[i].next == spine[i + 1])
      && (forall i, j :: 0 <= i < j < |spine| ==> spine[i] != spine[j])
    }

    ghost function Contents(): (s: seq<Entry<T>>)
      reads this, spine
      ensures |s| == |spine|
    {
      seq(|spine|, i requires 0 <= i < |spine| reads this, spine => Entry(spine[i].item, spine[i].key))
    }

    constructor ()
      ensures Valid() && Contents() == [] && spine == []
    {
      first := null;
      last := null;
      spine := [];
    }

    method IsEmpty() returns (empty: bool)
      requires Valid()
      ensures empty <==> Contents() == []
    {
      empty := first == null;
    }

    /** Makes an unlinked node the last one. */
    method LinkLast(element: ListElement<T>)
      requires Valid() && element !in spine && element.next == null
      modifies this, spine
      ensures Valid() && spine == old(spine) + [element]
      ensures Contents() == old(Contents()) + [old(Entry(element.item, element.key))]
    {
      if first == null {
        first := element;
        last := element;
      } else {
        last.next := element;
        last := element;
      }
      spine := spine + [element];
    }

    /** Makes an unlinked node the first one. */
    method LinkFirst(element: ListElement<T>)
      requires Valid() && element !in spine && element.next == null
      modifies this, element
      ensures Valid() && spine == [element] + old(spine)
      ensures Contents() == [old(Entry(element.item, element.key))] + old(Contents())
    {
      if first == null {
        first := element;
        last := element;
      } else {
        element.next := first;
        first := element;
      }
      spine := [element] + spine;
    }

    method Append(item: T)
      requires Valid()
      modifies this, spine
      ensures Valid()
      ensures Contents() == old(Contents()) + [Entry(item, 0)]
      ensures forall i :: 0 <= i < |spine| ==> spine[i] in old(spine) || fresh(spine[i])
    {
      var element := new ListElement(item, 0);
      LinkLast(element);
    }

    method Prepend(item: T)
      requires Valid()
      modifies this
      ensures Valid()
      ensures Contents() == [Entry(item, 0)] + old(Contents())
      ensures forall i :: 0 <= i < |spine| ==> spine[i] in old(spine) || fresh(spine[i])
    {
      var element := new ListElement(item, 0);
      LinkFirst(element);
    }

    /** The two pointer writes that put `element` between node `i` and the next one. */
    method LinkAfter(ptr: ListElement<T>, element: ListElement<T>, ghost i: nat)
      requires Valid() && i < |spine| - 1 && ptr == spine[i] && element !in spine
      modifies this, ptr, element
      ensures Valid() && spine == Spliced(old(spine), i + 1, element)
      ensures Contents() == Spliced(old(Contents()), i + 1, old(Entry(element.item, element.key)))
    {
      ghost var was, nodes := Contents(), spine;
      element.next := ptr.next;
      ptr.next := element;
      spine := Spliced(spine, i + 1, element);
      hide Spliced;
      SplicedAt(nodes, i + 1, element);
      SplicedAt(was, i + 1, Entry(element.item, element.key));
      SplicedDistinct(nodes, i + 1, element);
    }

    /** On any list: the item goes just before the first larger key. */
    method SortedInsert(item: T, sortKey: int)
      requires Valid()
      modifies this, spine
      ensures Valid()
      ensures Contents() == Inserted(old(Contents()), Entry(item, sortKey))
      ensures forall i :: 0 <= i < |spine| ==> spine[i] in old(spine) || fresh(spine[i])
    {
      hide Inserted, Place;
      var element := new ListElement(item, sortKey);
      ghost var was := Contents();
      if first == null || sortKey < first.key {
        LinkFirst(element);
        InsertedAt(was, Entry(item, sortKey), 0);
      } else {
        var ptr := first;
        ghost var i := 0;
        while ptr.next != null
          invariant 0 <= i < |spine| && ptr == spine[i]
          invariant Valid() && Contents() == was && spine == old(spine)
          invariant element !in spine && element.next == null
          invariant element.item == item && element.key == sortKey
          invariant forall j :: 0 <= j <= i ==> was[j].key <= sortKey
          decreases |spine| - i
        {
          if sortKey < ptr.next.key {
            LinkAfter(ptr, element, i);
            InsertedAt(was, Entry(item, sortKey), i + 1);
            return;
          }
          ptr := ptr.next;
          i := i + 1;
        }
        assert i == |spine| - 1;
        LinkLast(element);
        InsertedAt(was, Entry(item, sortKey), |was|);
      }
    }

    /** Takes the first entry off; `None` when the list is empty. */
    method SortedRemove() returns (r: Option<Entry<T>>)
      requires Valid()
      modifies this
      ensures Valid()
      ensures r.None? <==> old(Contents()) == []
      ensures r.None? ==> Contents() == []
      ensures r.Some? ==> old(Contents()) == [r.value] + Contents()
      ensures forall i :: 0 <= i < |spine| ==> spine[i] in old(spine)
    {
      if first == null {
        return None;
      }
      var element := first;
      assert old(Contents())[0] == Entry(element.item, element.key);
      assert first == last <==> |spine| == 1;
      r := Some(Entry(element.item, element.key));
      if first == last {
        first := null;
        last := null;
      } else {
        first := element.next;
      }
      spine := spine[1..];
    }

    method Remove() returns (r: Option<T>)
      requires Valid()
      modifies this
      ensures Valid()
      ensures r.None? <==> old(Contents()) == []
      ensures r.None? ==> Contents() == []
      ensures r.Some? ==> Contents() == old(Contents())[1..] && r.value == old(Contents())[0].item
      ensures forall i :: 0 <= i < |spine| ==> spine[i] in old(spine)
    {
      var e := SortedRemove();
      r := if e.None? then None else Some(e.value.item);
    }
  }
}
