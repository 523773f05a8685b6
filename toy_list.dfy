// The toy singly linked List of mini_container_list_toy.h for int values.
// The chain from front_ is tracked by the ghost sequence `items`; display
// returns the visited values instead of writing them to a stream.

module ToyList {

  /** ListItem: a value and the next item (null at the end). */
  class ListItem {
    var value: int
    var next: ListItem?

    constructor (value: int, next: ListItem?)
      ensures this.value == value && this.next == next
    {
      this.value := value;
      this.next := next;
    }

    method SetValue(value: int)
      modifies this
      ensures this.value == value && next == old(next)
    {
      this.value := value;
    }

    method SetNext(next: ListItem?)
      modifies this
      ensures this.next == next && value == old(value)
    {
      this.next := next;
    }
  }

  class List {
    var front: ListItem?
    /** end_: always null, the position after the last item. */
    var end: ListItem?
    var size: int
    ghost var items: seq<ListItem>
    /** The values from front_ to end_. */
    ghost var Contents: seq<int>
    ghost var Repr: set<object>

    /** The items are distinct, each links to the next, the last to null,
        Contents lists their values and size_ counts them. */
    ghost predicate Valid()
      reads this, Repr
    {
      this in Repr && end == null && size == |items| == |Contents| &&
      (forall i :: 0 <= i < |items| ==> items[i] in Repr) &&
      (forall i, j :: 0 <= i < j < |items| ==> items[i] != items[j]) &&
      front == (if items == [] then null else items[0]) &&
      (forall i {:trigger items[i].next} :: 0 <= i < |items| - 1 ==> items[i].next == items[i + 1]) &&
      (items != [] ==> items[|items| - 1].next == null) &&
      (forall i :: 0 <= i < |items| ==> items[i].value == Contents[i])
    }

    /** front_ = end_ = null, size_ = 0. */
    constructor ()
      ensures Valid() && Contents == [] && fresh(Repr)
    {
      front := null;
      end := null;
      size := 0;
      items := [];
      Contents := [];
      Repr := {this};
    }

    /** insert_front(value): a new item in front of the old chain. */
    method InsertFront(value: int)
      requires Valid()
      modifies this
      ensures Valid() && Contents == [value] + old(Contents)
      ensures fresh(Repr - old(Repr))
    {
      var item := new ListItem(value, front);
      front := item;
      size := size + 1;
      items := [item] + items;
      Contents := [value] + Contents;
      Repr := Repr + {item};
    }

    /** insert_end(value): walks to the last item and links a new one after
        it.  The walk dereferences front_, so the list must not be empty. */
    method InsertEnd(value: int)
      requires Valid() && Contents != []
      modifies Repr
      ensures Valid() && Contents == old(Contents) + [value]
      ensures fresh(Repr - old(Repr))
    {
      var item := new ListItem(value, null);
      var last := front;
      ghost var i := 0;
      while last.next != end
        invariant 0 <= i < |items| && last == items[i]
        decreases |items| - i
      {
        last := last.next;
        i := i + 1;
      }
      assert i == |items| - 1;
      last.SetNext(item);
      end := item.next;
      size := size + 1;
      items := items + [item];
      Contents := Contents + [value];
      Repr := Repr + {item};
    }

    /** display(): the values visited from front_ up to end_, in order. */
    method Display() returns (out: seq<int>)
      requires Valid()
      ensures out == Contents
    {
      out := [];
      var ptr := front;
      ghost var i := 0;
      while ptr != end
        invariant 0 <= i <= |items| && ptr == (if i < |items| then items[i] else null)
        invariant out == Contents[..i]
        decreases |items| - i
      {
        out := out + [ptr.value];
        ptr := ptr.next;
        i := i + 1;
      }
    }

    /** find(begin, end, value) over the items: the first item holding
        value, or the end (null) when there is none. */
    method Find(value: int) returns (it: ListItem?, ghost idx: int)
      requires Valid()
      ensures it == null <==> value !in Contents
      ensures it != null ==> 0 <= idx < |items| && it == items[idx] && it.value == value
      ensures it != null ==> value !in Contents[..idx]
    {
      it := front;
      idx := 0;
      while it != end && it.value != value
        invariant 0 <= idx <= |items| && it == (if idx < |items| then items[idx] else null)
        invariant value !in Contents[..idx]
        decreases |items| - idx
      {
        assert Contents[..idx + 1] == Contents[..idx] + [it.value];
        it := it.next;
        idx := idx + 1;
      }
      if it == null {
        assert Contents[..idx] == Contents;
      } else {
        assert Contents[idx] == value;
      }
    }
  }

  /** The unit test's five rounds of insert_front(i), insert_end(i + 2). */
  method Build() returns (list: List)
    ensures fresh(list.Repr) && list.Valid()
    ensures list.Contents == [4, 3, 2, 1, 0, 2, 3, 4, 5, 6]
  {
    list := new List();
    var i := 0;
    while i < 5
      invariant 0 <= i <= 5 && list.Valid() && fresh(list.Repr)
      invariant list.Contents == Round(i)
    {
      RoundStep(list, i);
      i := i + 1;
    }
    assert Round(5) == [4, 3, 2, 1, 0, 2, 3, 4, 5, 6];
  }

  /** The unit test: display after the five rounds, then the searches for
      3 (found) and 7 (not found). */
  method Scenario() returns (shown: seq<int>, found3: bool, found7: bool)
    ensures shown == [4, 3, 2, 1, 0, 2, 3, 4, 5, 6] && found3 && !found7
  {
    var list := Build();
    shown := list.Display();
    assert shown[1] == 3;
    assert 7 !in shown by {
      forall k | 0 <= k < |shown| ensures shown[k] != 7 {
      }
    }
    var it3, _ := list.Find(3);
    found3 := it3 != null;
    var it7, _ := list.Find(7);
    found7 := it7 != null;
  }

  /** One round of the unit test: insert_front(i), insert_end(i + 2). */
  method RoundStep(list: List, i: nat)
    requires list.Valid() && list.Contents == Round(i)
    modifies list.Repr
    ensures list.Valid() && list.Contents == Round(i + 1)
    ensures fresh(list.Repr - old(list.Repr))
  {
    list.InsertFront(i);
    list.InsertEnd(i + 2);
  }

  /** The values after `r` rounds of the unit test. */
  function Round(r: nat): seq<int>
  {
    if r == 0 then [] else [r - 1] + Round(r - 1) + [r + 1]
  }
}
