module Options {
  datatype Option<T> = None | Some(value: T)
}

/** code/threads/list.cc: a singly linked list of items with sort keys, refined to
    a sequence. */
module Lists {
  import opened Options

  datatype Item<T> = Item(value: T, key: int)

  // ----- the sequence operations the list refines -----

  /** Where SortedInsert puts a key: before the first larger one, so after its equals. */
  function InsertAt<T>(s: seq<Item<T>>, key: int): (i: nat)
    ensures i <= |s|
    ensures forall j :: 0 <= j < i ==> s[j].key <= key
    ensures i < |s| ==> key < s[i].key
  {
    if s == [] || key < s[0].key then 0 else 1 + InsertAt(s[1..], key)
  }

  function Insert<T>(s: seq<T>, at: nat, x: T): (r: seq<T>)
    requires at <= |s|
    ensures |r| == |s| + 1
    ensures forall i :: 0 <= i < |r| ==> r[i] == if i < at then s[i] else if i == at then x else s[i - 1]
  {
    s[..at] + [x] + s[at..]
  }

  function Inserted<T>(s: seq<Item<T>>, x: Item<T>): (r: seq<Item<T>>)
    ensures |r| == |s| + 1
  {
    Insert(s, InsertAt(s, x.key), x)
  }

  /** The position of the first item equal to `x`, or the length when there is none. */
  function FirstMatch<T(==)>(s: seq<Item<T>>, x: T): (i: nat)
    ensures i <= |s|
    ensures forall j :: 0 <= j < i ==> s[j].value != x
    ensures i < |s| ==> s[i].value == x
  {
    if s == [] || s[0].value == x then 0 else 1 + FirstMatch(s[1..], x)
  }

  /** The items without their keys. */
  function ValuesOf<T>(s: seq<Item<T>>): (v: seq<T>)
    ensures |v| == |s| && forall i :: 0 <= i < |s| ==> v[i] == s[i].value
  {
    seq(|s|, i requires 0 <= i < |s| => s[i].value)
  }

  lemma ValuesAppend<T>(s: seq<Item<T>>, x: Item<T>)
    ensures ValuesOf(s + [x]) == ValuesOf(s) + [x.value]
    ensures s != [] ==> ValuesOf(s[1..]) == ValuesOf(s)[1..]
  {
  }

  ghost predicate Sorted<T>(s: seq<Item<T>>) {
    forall i, j :: 0 <= i < j < |s| ==> s[i].key <= s[j].key
  }

  /** There is only one place before the first larger key. */
  lemma InsertAtUnique<T>(s: seq<Item<T>>, key: int, i: nat)
    requires i <= |s| && (forall j :: 0 <= j < i ==> s[j].key <= key) && (i < |s| ==> key < s[i].key)
    ensures InsertAt(s, key) == i
  {
    var k := InsertAt(s, key);
    assert k < |s| ==> key < s[k].key;
    assert i < |s| ==> key < s[i].key;
  }

  /** Inserting keeps the old items in their order around the new one. */
  lemma InsertedKeeps<T>(s: seq<Item<T>>, x: Item<T>)
    ensures var i := InsertAt(s, x.key);
      Inserted(s, x)[..i] == s[..i] && Inserted(s, x)[i] == x && Inserted(s, x)[i + 1..] == s[i..]
  {
  }

  /** Inserting keeps a sorted list sorted, and the new item goes behind every item
      whose key is not larger. */
  lemma InsertedSorted<T>(s: seq<Item<T>>, x: Item<T>)
    requires Sorted(s)
    ensures Sorted(Inserted(s, x))
    ensures forall j :: 0 <= j < |s| ==> (s[j].key <= x.key <==> j < InsertAt(s, x.key))
  {
    var i, r := InsertAt(s, x.key), Inserted(s, x);
    forall j | 0 <= j < |s| ensures s[j].key <= x.key <==> j < i {
      if i <= j { assert i == j || s[i].key <= s[j].key; }
    }
    InsertedOrder(s, x, i);
  }

  lemma InsertedOrder<T>(s: seq<Item<T>>, x: Item<T>, i: nat)
    requires Sorted(s) && i <= |s|
    requires forall j :: 0 <= j < |s| ==> (s[j].key <= x.key <==> j < i)
    ensures Sorted(Insert(s, i, x))
  {
    var r := Insert(s, i, x);
    forall j, k | 0 <= j < k < |r| ensures r[j].key <= r[k].key {
      if j == i {
        assert x.key <= s[k - 1].key;
      } else if k == i {
        assert s[j].key <= x.key;
      } else {
        var j', k' := if j < i then j else j - 1, if k < i then k else k - 1;
        assert s[j'].key <= s[k'].key;
      }
    }
  }

  // ----- the linked list -----

  class ListElement<T> {
    var next: ListElement?<T>
    const key: int
    const item: T

    constructor (itemPtr: T, sortKey: int)
      ensures next == null && item == itemPtr && key == sortKey
    {
      item, key, next := itemPtr, sortKey, null;
    }
  }

  /** The element behind number `i`, if there is one. */
  ghost function After<T>(spine: seq<ListElement<T>>, i: nat): ListElement?<T>
    requires i < |spine|
  {
    if i + 1 < |spine| then spine[i + 1] else null
  }

  ghost function ItemsOf<T>(spine: seq<ListElement<T>>): (s: seq<Item<T>>)
    ensures |s| == |spine|
    ensures forall i :: 0 <= i < |s| ==> s[i] == Item(spine[i].item, spine[i].key)
  {
    seq(|spine|, i requires 0 <= i < |spine| => Item(spine[i].item, spine[i].key))
  }

  lemma ItemsInsert<T>(spine: seq<ListElement<T>>, at: nat, e: ListElement<T>)
    requires at <= |spine|
    ensures ItemsOf(Insert(spine, at, e)) == Insert(ItemsOf(spine), at, Item(e.item, e.key))
  {
  }

  lemma InsertMembers<T>(s: seq<T>, at: nat, x: T)
    requires at <= |s|
    ensures forall y :: y in Insert(s, at, x) ==> y == x || y in s
  {
  }

  lemma InsertEnds<T>(s: seq<T>, x: T)
    ensures Insert(s, 0, x) == [x] + s && Insert(s, |s|, x) == s + [x]
  {
  }

  ghost predicate Linked<T>(spine: seq<ListElement<T>>)
    reads spine
  {
    Distinct(spine) && forall i :: 0 <= i < |spine| ==> spine[i].next == After(spine, i)
  }

  ghost predicate Distinct<T>(s: seq<ListElement<T>>) {
    forall i, j :: 0 <= i < j < |s| ==> s[i] != s[j]
  }

  lemma DistinctInsert<T>(s: seq<ListElement<T>>, at: nat, e: ListElement<T>)
    requires Distinct(s) && at <= |s| && e !in s
    ensures Distinct(Insert(s, at, e))
  {
  }

  /** Once the element before points at a new one, and the new one at the rest,
      the new one is linked in. */
  lemma LinkedIn<T>(s: seq<ListElement<T>>, at: nat, e: ListElement<T>)
    requires Distinct(s) && at <= |s| && e !in s
    requires forall i :: 0 <= i < |s| && i != at - 1 ==> s[i].next == After(s, i)
    requires at > 0 ==> s[at - 1].next == e
    requires e.next == if at < |s| then s[at] else null
    ensures Linked(Insert(s, at, e))
  {
    var r := Insert(s, at, e);
    DistinctInsert(s, at, e);
    forall i | 0 <= i < |r| ensures r[i].next == After(r, i) {
      if i > at {
        assert s[i - 1].next == After(s, i - 1);
      }
    }
  }

  class List<T(==)> {
    var first: ListElement?<T>
    var last: ListElement?<T>
    var numInList: int
    ghost var spine: seq<ListElement<T>>

    ghost function Nodes(): (n: set<ListElement<T>>)
      reads this
    {
      set e | e in spine
    }

    /** The elements reached from `first` are the spine, without repetition, ending in `last`. */
    ghost predicate Valid()
      reads this, Nodes()
    {
      && first == (if spine == [] then null else spine[0])
      && last == (if spine == [] then null else spine[|spine| - 1])
      && numInList == |spine|
      && Linked(spine)
    }

    /** What is on the list, front first. */
    ghost function Contents(): (s: seq<Item<T>>)
      reads this
    {
      ItemsOf(spine)
    }

    /** The same without the keys, which only sorted lists use. */
    ghost function Values(): (v: seq<T>)
      reads this
    {
      ValuesOf(Contents())
    }

    /** Everything but the spine knows that `e` is now number `at`. */
    ghost predicate PointedIn(e: ListElement<T>, at: nat)
      reads this, spine, e
    {
      && at <= |spine| && Distinct(spine) && e !in spine
      && (forall i :: 0 <= i < |spine| && i != at - 1 ==> spine[i].next == After(spine, i))
      && (at > 0 ==> spine[at - 1].next == e)
      && e.next == (if at < |spine| then spine[at] else null)
      && first == (if at == 0 then e else spine[0])
      && last == (if at == |spine| then e else spine[|spine| - 1])
      && numInList == |spine| + 1
    }

    ghost method Respine(s: seq<ListElement<T>>)
      requires Linked(s) && numInList == |s|
      requires first == (if s == [] then null else s[0]) && last == (if s == [] then null else s[|s| - 1])
      modifies this`spine
      ensures Valid() && spine == s
    {
      spine := s;
    }

    ghost method LinkIn(e: ListElement<T>, at: nat)
      requires PointedIn(e, at)
      modifies this`spine
      ensures Valid() && Contents() == Insert(old(Contents()), at, Item(e.item, e.key))
      ensures forall x :: x in spine ==> x == e || x in old(spine)
    {
      LinkedIn(spine, at, e);
      ItemsInsert(spine, at, e);
      InsertMembers(spine, at, e);
      Respine(Insert(spine, at, e));
    }

    constructor ()
      ensures Valid() && Contents() == [] && Values() == [] && Nodes() == {}
    {
      first, last, numInList, spine := null, null, 0, [];
    }

    method IsEmpty() returns (empty: bool)
      requires Valid()
      ensures empty <==> Contents() == []
    {
      empty := first == null;
    }

    method Append(item: T)
      requires Valid()
      modifies this, Nodes()
      ensures Valid() && fresh(Nodes() - old(Nodes()))
      ensures Contents() == old(Contents()) + [Item(item, 0)] && Values() == old(Values()) + [item]
    {
      ValuesAppend(Contents(), Item(item, 0));
      var element := new ListElement(item, 0);
      InsertEnds(Contents(), Item(item, 0));
      if first == null {
        LinkFirst(element);
      } else {
        LinkBehind(last, element, |spine|);
      }
    }

    method Prepend(item: T)
      requires Valid()
      modifies this, Nodes()
      ensures Valid() && fresh(Nodes() - old(Nodes()))
      ensures Contents() == [Item(item, 0)] + old(Contents())
    {
      var element := new ListElement(item, 0);
      InsertEnds(Contents(), Item(item, 0));
      LinkFirst(element);
    }

    /** Walks to the first larger key and links the new element in before it. */
    method SortedInsert(item: T, sortKey: int)
      requires Valid()
      modifies this, Nodes()
      ensures Valid() && fresh(Nodes() - old(Nodes()))
      ensures Contents() == Inserted(old(Contents()), Item(item, sortKey))
    {
      hide InsertAt;
      var element := new ListElement(item, sortKey);
      if first == null || sortKey < first.key {
        LinkFirst(element);
      } else {
        var ptr := WalkTo(sortKey);
        LinkBehind(ptr, element, InsertAt(Contents(), sortKey));
      }
    }

    method LinkFirst(element: ListElement<T>)
      requires Valid() && element !in spine && element.next == null
      modifies this, element
      ensures Valid() && Contents() == Insert(old(Contents()), 0, Item(element.item, element.key))
      ensures forall e :: e in spine ==> e in old(spine) || e == element
    {
      if first == null {
        first := element;
        last := element;
      } else {
        element.next := first;
        first := element;
      }
      numInList := numInList + 1;
      LinkIn(element, 0);
    }

    method LinkBehind(ptr: ListElement<T>, element: ListElement<T>, ghost at: nat)
      requires Valid() && element !in spine && element.next == null
      requires 0 < at <= |spine| && ptr == spine[at - 1]
      modifies this, Nodes(), element
      ensures Valid() && Contents() == Insert(old(Contents()), at, Item(element.item, element.key))
      ensures forall e :: e in spine ==> e in old(spine) || e == element
    {
      hide Insert, ItemsOf;
      assert ptr.next == After(spine, at - 1);
      if ptr.next != null {
        element.next := ptr.next;
        ptr.next := element;
      } else {
        last.next := element;
        last := element;
      }
      numInList := numInList + 1;
      LinkIn(element, at);
    }

    /** The last element before the first larger key. */
    method WalkTo(sortKey: int) returns (ptr: ListElement<T>)
      requires Valid() && first != null && first.key <= sortKey
      ensures 0 < InsertAt(Contents(), sortKey) && ptr == spine[InsertAt(Contents(), sortKey) - 1]
    {
      hide InsertAt, Distinct, ItemsOf;
      ptr := first;
      ghost var i, at := 0, InsertAt(Contents(), sortKey);
      while ptr.next != null
        invariant 0 <= i < at && ptr == spine[i]
        decreases |spine| - i
      {
        assert ptr.next == After(spine, i);
        if sortKey < ptr.next.key {
          return;
        }
        ptr := ptr.next;
        i := i + 1;
      }
      assert After(spine, i) == null;
    }

    /** Takes the front element off, with its key; nothing when the list is empty. */
    method SortedRemove() returns (r: Option<Item<T>>)
      requires Valid()
      modifies this
      ensures Valid() && Nodes() <= old(Nodes())
      ensures r == if old(Contents()) == [] then None else Some(old(Contents())[0])
      ensures Contents() == if old(Contents()) == [] then [] else old(Contents())[1..]
    {
      var element := first;
      if element == null {
        return None;
      }
      if first == last {
        first := null;
        last := null;
      } else {
        first := element.next;
      }
      numInList := numInList - 1;
      forall i | 0 <= i < |spine| - 1 ensures spine[1..][i].next == After(spine[1..], i) {
        assert spine[i + 1].next == After(spine, i + 1);
      }
      spine := spine[1..];
      r := Some(Item(element.item, element.key));
    }

    method Remove() returns (r: Option<T>)
      requires Valid()
      modifies this
      ensures Valid() && Nodes() <= old(Nodes())
      ensures r == if old(Values()) == [] then None else Some(old(Values())[0])
      ensures Contents() == if old(Contents()) == [] then [] else old(Contents())[1..]
      ensures Values() == if old(Values()) == [] then [] else old(Values())[1..]
    {
      if Contents() != [] { ValuesAppend(Contents(), Contents()[0]); }
      var front := SortedRemove();
      r := if front.None? then None else Some(front.value.value);
    }

    /** Unlinks the first element that holds the item, which must be on the list. */
    method RemoveItem(item: T)
      requires Valid() && FirstMatch(Contents(), item) < |Contents()|
      modifies this, Nodes()
      ensures Valid() && Nodes() <= old(Nodes())
      ensures Contents() == Without(old(Contents()), FirstMatch(old(Contents()), item))
    {
      if item == first.item {
        var removed := Remove();
      } else {
        var prev := WalkBefore(item);
        Unlink(prev, FirstMatch(Contents(), item));
      }
    }

    /** The element before the first one that holds the item; the walk always finds it. */
    method WalkBefore(item: T) returns (prev: ListElement<T>)
      requires Valid() && 0 < FirstMatch(Contents(), item) < |Contents()|
      ensures prev == spine[FirstMatch(Contents(), item) - 1]
    {
      hide FirstMatch, Distinct, ItemsOf;
      prev := first;
      var ptr := first.next;
      ghost var i, at := 0, FirstMatch(Contents(), item);
      assert ptr == After(spine, 0);
      while ptr.item != item
        invariant 0 <= i < at && prev == spine[i] && ptr == spine[i + 1]
        decreases |spine| - i
      {
        assert i + 1 != at;
        prev, ptr := ptr, ptr.next;
        i := i + 1;
        assert ptr == After(spine, i);
      }
    }

    method Unlink(prev: ListElement<T>, ghost at: nat)
      requires Valid() && 0 < at < |spine| && prev == spine[at - 1]
      modifies this, Nodes()
      ensures Valid() && Nodes() <= old(Nodes())
      ensures Contents() == Without(old(Contents()), at)
    {
      var ptr := prev.next;
      assert ptr == After(spine, at - 1) && ptr.next == After(spine, at);
      prev.next := ptr.next;
      if prev.next == null {
        last := prev;
      }
      numInList := numInList - 1;
      DropAt(at);
    }

    /** Everything but the spine has forgotten number `at`. */
    ghost predicate PointedOut(at: nat)
      reads this, spine
    {
      && 0 < at < |spine| && Distinct(spine)
      && (forall i :: 0 <= i < |spine| && i != at - 1 ==> spine[i].next == After(spine, i))
      && spine[at - 1].next == After(spine, at)
      && first == spine[0]
      && last == (if at == |spine| - 1 then spine[at - 1] else spine[|spine| - 1])
      && numInList == |spine| - 1
    }

    ghost method DropAt(at: nat)
      requires PointedOut(at)
      modifies this`spine
      ensures Valid() && Contents() == Without(old(Contents()), at)
      ensures forall x :: x in spine ==> x in old(spine)
    {
      LinkedOut(spine, at);
      ItemsWithout(spine, at);
      Respine(Without(spine, at));
    }
  }

  lemma ItemsWithout<T>(spine: seq<ListElement<T>>, at: nat)
    requires at < |spine|
    ensures ItemsOf(Without(spine, at)) == Without(ItemsOf(spine), at)
  {
  }

  /** `s` with number `at` left out. */
  function Without<T>(s: seq<T>, at: nat): (r: seq<T>)
    requires at < |s|
    ensures |r| == |s| - 1
    ensures forall i :: 0 <= i < |r| ==> r[i] == if i < at then s[i] else s[i + 1]
  {
    s[..at] + s[at + 1..]
  }

  lemma LinkedOut<T>(s: seq<ListElement<T>>, at: nat)
    requires Distinct(s) && 0 < at < |s|
    requires forall i :: 0 <= i < |s| && i != at - 1 ==> s[i].next == After(s, i)
    requires s[at - 1].next == After(s, at)
    ensures Linked(Without(s, at))
  {
    var r := Without(s, at);
    forall i | 0 <= i < |r| ensures r[i].next == After(r, i) {
      if i < at - 1 {
        assert s[i].next == After(s, i);
      } else if i > at - 1 {
        assert s[i + 1].next == After(s, i + 1);
      }
    }
  }
}
