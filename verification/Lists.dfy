/** Singly linked lists, and lists kept in order. */
module Lists {

  class ListElement<T> {
    var next: ListElement?<T>
    const item: T

    constructor (item: T)
      ensures this.item == item && next == null
    {
      this.item := item;
      next := null;
    }
  }

  /** A list without the first occurrence of x. */
  function Without<T(==)>(s: seq<T>, x: T): seq<T> {
    if s == [] then []
    else if s[0] == x then s[1..]
    else [s[0]] + Without(s[1..], x)
  }

  lemma {:induction false} WithoutAt<T>(s: seq<T>, x: T, i: nat)
    requires i < |s| && s[i] == x && x !in s[..i]
    ensures Without(s, x) == s[..i] + s[i + 1..]
  {
    if i == 0 {
      assert s[..0] + s[1..] == s[1..];
    } else {
      assert s[0] == s[..i][0] && s[1..][..i - 1] == s[..i][1..];
      WithoutAt(s[1..], x, i - 1);
      assert s[..i] + s[i + 1..] == [s[0]] + (s[1..][..i - 1] + s[1..][i..]);
    }
  }

  ghost predicate NoDuplicates<T>(s: seq<T>) {
    forall i, j | 0 <= i < j < |s| :: s[i] != s[j]
  }

  lemma DistinctInsert<T>(s: seq<T>, i: nat, x: T)
    requires NoDuplicates(s) && x !in s && i <= |s|
    ensures NoDuplicates(s[..i] + [x] + s[i..])
  {
    var r := s[..i] + [x] + s[i..];
    forall a, b | 0 <= a < b < |r| ensures r[a] != r[b] {
      assert r[a] == if a < i then s[a] else if a == i then x else s[a - 1];
      assert r[b] == if b < i then s[b] else if b == i then x else s[b - 1];
    }
  }

  lemma DistinctRemove<T>(s: seq<T>, i: nat)
    requires NoDuplicates(s) && i < |s|
    ensures NoDuplicates(s[..i] + s[i + 1..])
  {
    var r := s[..i] + s[i + 1..];
    forall a, b | 0 <= a < b < |r| ensures r[a] != r[b] {
      assert r[a] == s[if a < i then a else a + 1];
      assert r[b] == s[if b < i then b else b + 1];
    }
  }

  // -------------------------------------------------------------- order

  /** Where SortedList puts an item: before the first one greater than it. */
  function Inserted<T>(s: seq<T>, item: T, compare: (T, T) -> int): (r: seq<T>) {
    if s == [] then [item]
    else if compare(item, s[0]) < 0 then [item] + s
    else [s[0]] + Inserted(s[1..], item, compare)
  }

  lemma {:induction false} InsertedAt<T>(s: seq<T>, item: T, compare: (T, T) -> int, i: nat)
    requires i <= |s| && (forall j | 0 <= j < i :: compare(item, s[j]) >= 0) && (i < |s| ==> compare(item, s[i]) < 0)
    ensures Inserted(s, item, compare) == s[..i] + [item] + s[i..]
  {
    if i > 0 {
      InsertedAt(s[1..], item, compare, i - 1);
      assert s[..i] + [item] + s[i..] == [s[0]] + (s[1..][..i - 1] + [item] + s[1..][i - 1..]);
    }
  }

  /** compare orders all items, some of them perhaps equally. */
  ghost predicate TotalOrder<T(!new)>(compare: (T, T) -> int) {
    && (forall x, y :: compare(x, y) >= 0 <==> compare(y, x) <= 0)
    && (forall x, y, z :: compare(x, y) <= 0 && compare(y, z) <= 0 ==> compare(x, z) <= 0)
  }

  ghost predicate Sorted<T>(s: seq<T>, compare: (T, T) -> int) {
    forall i, j | 0 <= i < j < |s| :: compare(s[i], s[j]) <= 0
  }

  /** The place of a new item in a sorted list. */
  function Place<T>(s: seq<T>, item: T, compare: (T, T) -> int): (i: nat)
    ensures i <= |s| && (forall j | 0 <= j < i :: compare(item, s[j]) >= 0) && (i < |s| ==> compare(item, s[i]) < 0)
  {
    if s == [] || compare(item, s[0]) < 0 then 0 else 1 + Place(s[1..], item, compare)
  }

  /** Inserting keeps the list sorted, adds just the item, and puts it behind all its equals
      while leaving the order of the others as it was. */
  lemma InsertedStaysSorted<T(!new)>(s: seq<T>, item: T, compare: (T, T) -> int)
    requires TotalOrder(compare) && Sorted(s, compare)
    ensures Sorted(Inserted(s, item, compare), compare)
    ensures multiset(Inserted(s, item, compare)) == multiset(s) + multiset{item}
    ensures var i := Place(s, item, compare);
            && Inserted(s, item, compare) == s[..i] + [item] + s[i..]
            && forall j | i <= j < |s| :: compare(item, s[j]) < 0
  {
    hide TotalOrder, Inserted, Sorted, Place;
    var i := Place(s, item, compare);
    InsertedAt(s, item, compare, i);
    assert s == s[..i] + s[i..];
    forall j | i <= j < |s| ensures compare(item, s[j]) < 0 {
      if i < j {
        SortedAt(s, compare, i, j);
        StaysGreater(compare, item, s[i], s[j]);
      }
    }
    forall j | 0 <= j < i ensures compare(s[j], item) <= 0 {
      Flip(compare, item, s[j]);
    }
    SpliceSorted(s, i, item, compare);
  }

  lemma SpliceSorted<T>(s: seq<T>, i: nat, item: T, compare: (T, T) -> int)
    requires i <= |s| && Sorted(s, compare)
    requires forall j | 0 <= j < i :: compare(s[j], item) <= 0
    requires forall j | i <= j < |s| :: compare(item, s[j]) <= 0
    ensures Sorted(s[..i] + [item] + s[i..], compare)
  {
    var r := s[..i] + [item] + s[i..];
    forall a, b | 0 <= a < b < |r| ensures compare(r[a], r[b]) <= 0 {
      assert r[a] == if a < i then s[a] else if a == i then item else s[a - 1];
      assert r[b] == if b < i then s[b] else if b == i then item else s[b - 1];
    }
  }

  lemma SortedAt<T>(s: seq<T>, compare: (T, T) -> int, i: nat, j: nat)
    requires Sorted(s, compare) && i < j < |s|
    ensures compare(s[i], s[j]) <= 0
  {
  }

  lemma Flip<T(!new)>(compare: (T, T) -> int, x: T, y: T)
    requires TotalOrder(compare)
    ensures compare(x, y) >= 0 <==> compare(y, x) <= 0
  {
  }

  lemma StaysGreater<T(!new)>(compare: (T, T) -> int, x: T, y: T, z: T)
    requires TotalOrder(compare) && compare(x, y) < 0 && compare(y, z) <= 0
    ensures compare(x, z) < 0
  {
  }

  ghost function Items<T>(s: seq<ListElement<T>>): (r: seq<T>)
    ensures |r| == |s| && forall i | 0 <= i < |s| :: r[i] == s[i].item
  {
    seq(|s|, i requires 0 <= i < |s| => s[i].item)
  }

  lemma InsertIndex<T>(s: seq<T>, k: nat, x: T)
    requires k <= |s|
    ensures var r := s[..k] + [x] + s[k..];
            |r| == |s| + 1 && forall j | 0 <= j < |r| :: r[j] == if j < k then s[j] else if j == k then x else s[j - 1]
  {
  }

  lemma ItemsInsert<T>(s: seq<ListElement<T>>, k: nat, e: ListElement<T>)
    requires k <= |s|
    ensures Items(s[..k] + [e] + s[k..]) == Items(s)[..k] + [e.item] + Items(s)[k..]
  {
  }

  lemma ItemsRemove<T>(s: seq<ListElement<T>>, k: nat)
    requires k < |s|
    ensures Items(s[..k] + s[k + 1..]) == Items(s)[..k] + Items(s)[k + 1..]
  {
  }

  class List<T(==)> {
    var first: ListElement?<T>
    var last: ListElement?<T>
    var numInList: int
    ghost var spine: seq<ListElement<T>>

    /** The elements reached from first by following next, with last the end of them. */
    ghost predicate Linked()
      reads this, spine
    {
      && numInList == |spine|
      && (forall i, j | 0 <= i < |spine| && 0 <= j < |spine| && spine[i] == spine[j] :: i == j)
      && (forall i, j | 0 <= i < j < |spine| && j == i + 1 :: spine[i].next == spine[j])
      && first == (if spine == [] then null else spine[0])
      && last == (if spine == [] then null else spine[|spine| - 1])
      && (last != null ==> last.next == null)
    }

    /** A linked list in which, as Append and Insert insist, no item occurs twice. */
    ghost predicate Valid()
      reads this, spine
    {
      Linked() && NoDuplicates(Contents())
    }

    ghost function Contents(): (s: seq<T>)
      reads this
      ensures |s| == |spine|
    {
      Items(spine)
    }

    lemma Ends()
      requires Linked()
      ensures numInList == |spine| && first == (if spine == [] then null else spine[0])
    {
    }

    lemma NextIs(i: nat)
      requires Linked() && i < |spine|
      ensures spine[i].next == if i + 1 < |spine| then spine[i + 1] else null
    {
    }

    constructor ()
      ensures Valid() && Contents() == [] && spine == []
    {
      first, last, numInList, spine := null, null, 0, [];
    }

    predicate IsEmpty()
      requires Valid()
      reads this, spine
      ensures IsEmpty() <==> Contents() == []
    {
      numInList == 0
    }

    method IsInList(item: T) returns (found: bool)
      requires Valid()
      ensures found <==> item in Contents()
    {
      var ptr := first;
      ghost var i := 0;
      while ptr != null
        invariant 0 <= i <= |spine| && ptr == (if i < |spine| then spine[i] else null)
        invariant item !in Contents()[..i]
        decreases |spine| - i
      {
        if item == ptr.item {
          assert Contents()[i] == item;
          return true;
        }
        ptr := ptr.next;
        i := i + 1;
      }
      return false;
    }

    method Append(item: T)
      requires Valid() && item !in Contents()
      modifies this, spine
      ensures Valid() && Contents() == old(Contents()) + [item]
      ensures forall e | e in spine :: e in old(spine) || fresh(e)
    {
      var element := new ListElement(item);
      if IsEmpty() {
        first := element;
        last := element;
      } else {
        last.next := element;
        last := element;
      }
      numInList := numInList + 1;
      spine := spine + [element];
      assert Linked() && Contents() == old(Contents()) + [item];
    }

    method Prepend(item: T)
      requires Valid() && item !in Contents()
      modifies this, spine
      ensures Valid() && Contents() == [item] + old(Contents())
      ensures forall e | e in spine :: e in old(spine) || fresh(e)
    {
      var element := new ListElement(item);
      if IsEmpty() {
        first := element;
        last := element;
      } else {
        element.next := first;
        first := element;
      }
      numInList := numInList + 1;
      spine := [element] + spine;
      assert Linked() && Contents() == [item] + old(Contents());
    }

    method RemoveFront() returns (thing: T)
      requires Valid() && Contents() != []
      modifies this
      ensures Valid() && [thing] + Contents() == old(Contents())
      ensures spine == old(spine)[1..]
    {
      var element := first;
      thing := first.item;
      if first == last {
        first := null;
        last := null;
      } else {
        first := element.next;
      }
      numInList := numInList - 1;
      spine := spine[1..];
      assert Linked() && Contents() == old(Contents())[1..];
    }

    /** Taking the i-th element out, given the one before it. */
    method Unlink(prev: ListElement<T>, ptr: ListElement<T>, ghost i: nat)
      requires Valid() && 0 < i < |spine| && prev == spine[i - 1] && ptr == spine[i]
      modifies this, spine
      ensures Valid() && spine == old(spine)[..i] + old(spine)[i + 1..]
      ensures Contents() == old(Contents())[..i] + old(Contents())[i + 1..]
    {
      ghost var was := spine;
      DistinctRemove(Contents(), i);
      ItemsRemove(was, i);
      NextIs(i);
      hide Items, NoDuplicates;
      prev.next := ptr.next;
      if prev.next == null {
        last := prev;
      }
      numInList := numInList - 1;
      spine := was[..i] + was[i + 1..];
      assert forall k | 0 <= k < |was| && k != i - 1 :: was[k].next == old(was[k].next);
    }

    method Remove(item: T)
      requires Valid() && item in Contents()
      modifies this, spine
      ensures Valid() && Contents() == Without(old(Contents()), item) && item !in Contents()
      ensures forall e | e in spine :: e in old(spine)
    {
      ghost var was := Contents();
      if item == first.item {
        var removed := RemoveFront();
      } else {
        var prev := first;
        var ptr := first.next;
        ghost var i := 1;
        while ptr != null
          invariant 1 <= i <= |spine| && prev == spine[i - 1] && ptr == (if i < |spine| then spine[i] else null)
          invariant item !in was[..i] && Valid() && Contents() == was && spine == old(spine)
          decreases |spine| - i
        {
          if item == ptr.item {
            WithoutAt(was, item, i);
            Unlink(prev, ptr, i);
            return;
          }
          prev := ptr;
          ptr := ptr.next;
          i := i + 1;
        }
        assert false;
      }
    }

    /** Linking a new element in as the k-th, after ptr, which is not the last. */
    method LinkAfter(ptr: ListElement<T>, element: ListElement<T>, ghost k: nat)
      requires Valid() && 0 < k < |spine| && ptr == spine[k - 1] && element !in spine && element.item !in Contents()
      modifies this, spine, element
      ensures Valid() && spine == old(spine)[..k] + [element] + old(spine)[k..]
      ensures Contents() == old(Contents())[..k] + [element.item] + old(Contents())[k..]
    {
      ghost var was := spine;
      DistinctInsert(Contents(), k, element.item);
      ItemsInsert(was, k, element);
      InsertIndex(was, k, element);
      hide Items, NoDuplicates;
      element.next := ptr.next;
      ptr.next := element;
      numInList := numInList + 1;
      ghost var s := was[..k] + [element] + was[k..];
      assert forall j | 0 <= j < |was| && j != k - 1 :: was[j].next == old(was[j].next);
      forall i, j | 0 <= i < j < |s| && j == i + 1 ensures s[i].next == s[j] {
        assert s[i] == if i < k then was[i] else if i == k then element else was[i - 1];
      }
      spine := s;
    }

    /** SortedList's Insert. */
    method Insert(item: T, compare: (T, T) -> int)
      requires Valid() && item !in Contents()
      modifies this, spine
      ensures Valid() && Contents() == Inserted(old(Contents()), item, compare)
      ensures forall e | e in spine :: e in old(spine) || fresh(e)
    {
      hide NoDuplicates, Inserted, Linked;
      Ends();
      ghost var was := Contents();
      if IsEmpty() || compare(item, first.item) < 0 {
        InsertedAt(was, item, compare, 0);
        Prepend(item);
        return;
      }
      var element := new ListElement(item);
      var ptr := first;
      ghost var i := 0;
      NextIs(0);
      while ptr.next != null
        invariant 0 <= i < |spine| && ptr == spine[i] && element.next == null && element.item == item
        invariant Valid() && Contents() == was && spine == old(spine) && element !in spine
        invariant ptr.next == if i + 1 < |spine| then spine[i + 1] else null
        invariant forall j | 0 <= j <= i :: compare(item, was[j]) >= 0
        decreases |spine| - i
      {
        if compare(item, ptr.next.item) < 0 {
          InsertedAt(was, item, compare, i + 1);
          LinkAfter(ptr, element, i + 1);
          return;
        }
        ptr := ptr.next;
        i := i + 1;
        NextIs(i);
      }
      InsertedAt(was, item, compare, |was|);
      Append(item);
    }
  }

  /** Stepping through a list. */
  class ListIterator<T(==)> {
    const list: List<T>
    var current: ListElement?<T>
    ghost var index: nat

    ghost predicate Valid()
      reads this, list, list.spine
    {
      && list.Linked() && index <= |list.spine|
      && current == if index < |list.spine| then list.spine[index] else null
    }

    constructor (list: List<T>)
      requires list.Linked()
      ensures Valid() && this.list == list && index == 0
    {
      this.list := list;
      current, index := list.first, 0;
    }

    predicate IsDone()
      requires Valid()
      reads this, list, list.spine
      ensures IsDone() <==> index == |list.Contents()|
    {
      current == null
    }

    function Item(): (item: T)
      requires Valid() && !IsDone()
      reads this, list, list.spine
      ensures item == list.Contents()[index]
    {
      current.item
    }

    method Next()
      requires Valid() && !IsDone()
      modifies this
      ensures Valid() && index == old(index) + 1
    {
      list.NextIs(index);
      current, index := current.next, index + 1;
    }
  }
}
