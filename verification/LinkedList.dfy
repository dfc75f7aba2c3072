/** The doubly linked list. The empty list is the null list; a list object always has at least one entry. */
module LinkedLists {
  import opened Sequences

  datatype Option<T> = None | Some(value: T)

  /** `struct listent` */
  class ListEnt<T> {
    var next: ListEnt?<T>
    var prev: ListEnt?<T>
    var data: T

    constructor (data: T)
      ensures this.data == data && next == null && prev == null
    {
      this.data, next, prev := data, null, null;
    }
  }

  /** `struct linkedlist`, with the chain of its entries as a ghost field. */
  class LinkedList<T> {
    var count: nat
    var head: ListEnt?<T>
    var tail: ListEnt?<T>
    ghost var spine: seq<ListEnt<T>>

    ghost predicate Valid()
      reads this, spine
    {
      count == |spine| && Linked(spine, head, tail)
    }

    constructor (only: ListEnt<T>)
      ensures count == 1 && head == tail == only && spine == [only]
    {
      count, head, tail, spine := 1, only, only, [only];
    }
  }

  /** A chain of distinct entries whose next and prev fields are mutually inverse, null at the ends. */
  ghost predicate Linked<T>(spine: seq<ListEnt<T>>, head: ListEnt?<T>, tail: ListEnt?<T>)
    reads spine
  {
    && |spine| > 0
    && head == spine[0] && tail == spine[|spine| - 1]
    && (forall i, j :: 0 <= i < j < |spine| ==> spine[i] != spine[j])
    && (forall i {:trigger spine[i].next} :: 0 <= i < |spine| ==> spine[i].next == if i + 1 < |spine| then spine[i + 1] else null)
    && (forall i {:trigger spine[i].prev} :: 0 <= i < |spine| ==> spine[i].prev == if i > 0 then spine[i - 1] else null)
  }

  ghost predicate Ok<T>(list: LinkedList?<T>)
    reads list, Spine(list)
  {
    list != null ==> list.Valid()
  }

  ghost function Spine<T>(list: LinkedList?<T>): (s: seq<ListEnt<T>>)
    reads list
  {
    if list == null then [] else list.spine
  }

  ghost function Footprint<T>(list: LinkedList?<T>): set<object>
    reads list
  {
    if list == null then {} else {list as object} + (set e | e in list.spine :: e as object)
  }

  /** What the list holds, first entry first. */
  ghost function Contents<T>(list: LinkedList?<T>): (s: seq<T>)
    reads list, Spine(list)
    ensures |s| == |Spine(list)|
  {
    DataOf(Spine(list))
  }

  ghost function DataOf<T>(spine: seq<ListEnt<T>>): (s: seq<T>)
    reads spine
    ensures |s| == |spine|
  {
    seq(|spine|, i requires 0 <= i < |spine| reads spine => spine[i].data)
  }

  /** linkedlist_elements */
  function Elements<T>(list: LinkedList?<T>): nat
    reads list
  {
    if list == null then 0 else list.count
  }

  /** linkedlist_append */
  method Append<T>(list: LinkedList?<T>, data: T) returns (r: LinkedList<T>)
    requires Ok(list)
    modifies Footprint(list)
    ensures r.Valid() && fresh(Footprint(r) - old(Footprint(list)))
    ensures list != null ==> r == list
    ensures Contents(r) == old(Contents(list)) + [data]
  {
    var entry := new ListEnt(data);
    if list == null {
      r := new LinkedList(entry);
      return;
    }
    ghost var before := Contents(list);
    assert list.spine[list.count - 1] in list.spine;
    list.tail.next := entry;
    entry.prev := list.tail;
    list.tail := entry;
    list.count := list.count + 1;
    list.spine := list.spine + [entry];
    r := list;
    assert Contents(r) == before + [data];
  }

  /** The three cases of linkedlist_unlink; the only entry leaves a null head beside a dangling tail. */
  method UnlinkHead<T>(list: LinkedList<T>)
    requires Linked(list.spine, list.head, list.tail)
    modifies Footprint(list)
    ensures list.count == old(list.count) && list.tail == old(list.tail)
    ensures Footprint(list) <= old(Footprint(list))
    ensures list.spine == old(list.spine)[1..] && DataOf(list.spine) == old(DataOf(list.spine))[1..]
    ensures if |old(list.spine)| == 1 then list.head == null && list.tail != null
            else Linked(list.spine, list.head, list.tail) && list.head != null && list.tail != null
  {
    ghost var spine := list.spine;
    assert |spine| > 1 ==> spine[1] in spine;
    list.head := list.head.next;
    if list.head != null {
      list.head.prev := null;
    }
    list.spine := spine[1..];
    assert forall e :: e in spine[1..] ==> e in spine;
  }

  method UnlinkTail<T>(list: LinkedList<T>)
    requires Linked(list.spine, list.head, list.tail) && |list.spine| > 1
    modifies Footprint(list)
    ensures list.count == old(list.count)
    ensures Footprint(list) <= old(Footprint(list))
    ensures var n := |old(list.spine)| - 1;
            list.spine == old(list.spine)[..n] && DataOf(list.spine) == old(DataOf(list.spine))[..n]
    ensures Linked(list.spine, list.head, list.tail) && list.head != null && list.tail != null
  {
    ghost var spine := list.spine;
    ghost var n := |spine| - 1;
    assert spine[n - 1] in spine;
    list.tail := list.tail.prev;
    if list.tail != null {
      list.tail.next := null;
    }
    list.spine := spine[..n];
    assert forall e :: e in spine[..n] ==> e in spine;
  }

  /** A chain whose links skip entry k is the chain without it. */
  lemma ChainWithout<T>(spine: seq<ListEnt<T>>, head: ListEnt?<T>, tail: ListEnt?<T>, k: nat)
    requires 0 < k < |spine| - 1 && head == spine[0] && tail == spine[|spine| - 1]
    requires forall i, j :: 0 <= i < j < |spine| ==> spine[i] != spine[j]
    requires forall i {:trigger spine[i].next} :: 0 <= i < |spine| && i != k ==>
               spine[i].next == if i == k - 1 then spine[k + 1] else if i + 1 < |spine| then spine[i + 1] else null
    requires forall i {:trigger spine[i].prev} :: 0 <= i < |spine| && i != k ==>
               spine[i].prev == if i == k + 1 then spine[k - 1] else if i > 0 then spine[i - 1] else null
    ensures Linked(RemoveAt(spine, k), head, tail)
  {
  }

  lemma DataWithout<T>(spine: seq<ListEnt<T>>, k: nat)
    requires k < |spine|
    ensures DataOf(RemoveAt(spine, k)) == RemoveAt(DataOf(spine), k)
  {
  }

  method UnlinkMiddle<T>(list: LinkedList<T>, ent: ListEnt<T>, ghost k: nat)
    requires Linked(list.spine, list.head, list.tail) && 0 < k < |list.spine| - 1 && ent == list.spine[k]
    modifies Footprint(list)
    ensures list.count == old(list.count)
    ensures Footprint(list) <= old(Footprint(list))
    ensures list.spine == RemoveAt(old(list.spine), k) && DataOf(list.spine) == RemoveAt(old(DataOf(list.spine)), k)
    ensures Linked(list.spine, list.head, list.tail) && list.head != null && list.tail != null
  {
    ghost var spine, data := list.spine, DataOf(list.spine);
    assert spine[k - 1] in spine && spine[k + 1] in spine;
    ent.prev.next := ent.next;
    ent.next.prev := ent.prev;
    ChainWithout(spine, list.head, list.tail, k);
    list.spine := RemoveAt(spine, k);
    assert DataOf(spine) == data;
    DataWithout(spine, k);
    assert forall e :: e in list.spine ==> e in spine;
  }

  lemma Position<T>(spine: seq<ListEnt<T>>, head: ListEnt?<T>, tail: ListEnt?<T>, k: nat)
    requires Linked(spine, head, tail) && k < |spine|
    ensures spine[k] == head <==> k == 0
    ensures spine[k] == tail <==> k == |spine| - 1
  {
  }

  lemma RemoveEnds<T>(s: seq<T>)
    requires |s| > 0
    ensures RemoveAt(s, 0) == s[1..] && RemoveAt(s, |s| - 1) == s[..|s| - 1]
  {
  }

  /** The three-way branch of linkedlist_unlink. */
  method TakeOut<T>(list: LinkedList<T>, ent: ListEnt<T>, ghost k: nat)
    requires Linked(list.spine, list.head, list.tail) && k < |list.spine| && ent == list.spine[k]
    modifies Footprint(list)
    ensures list.count == old(list.count)
    ensures Footprint(list) <= old(Footprint(list))
    ensures list.spine == RemoveAt(old(list.spine), k) && DataOf(list.spine) == RemoveAt(old(DataOf(list.spine)), k)
    ensures list.tail != null
    ensures if |old(list.spine)| == 1 then list.head == null else Linked(list.spine, list.head, list.tail) && list.head != null
  {
    hide Linked, DataOf, RemoveAt;
    Position(list.spine, list.head, list.tail, k);
    RemoveEnds(list.spine);
    RemoveEnds(DataOf(list.spine));
    if ent == list.head {
      UnlinkHead(list);
    } else if ent == list.tail {
      UnlinkTail(list);
    } else {
      UnlinkMiddle(list, ent, k);
    }
  }

  /** linkedlist_unlink. The list object is given up with its last entry. */
  method Unlink<T>(list: LinkedList?<T>, ent: ListEnt?<T>, ghost k: nat) returns (r: LinkedList?<T>)
    requires Ok(list)
    requires list != null && ent != null ==> k < |list.spine| && ent == list.spine[k]
    modifies Footprint(list)
    ensures Ok(r) && (r == null || r == list) && Footprint(r) <= old(Footprint(list))
    ensures list == null || ent == null ==> r == list && Contents(r) == old(Contents(list))
    ensures list != null && ent != null ==>
              (r == null <==> |old(list.spine)| == 1) && Contents(r) == RemoveAt(old(Contents(list)), k)
  {
    if list == null {
      return null;
    }
    if ent == null {
      return list;
    }
    hide Linked, DataOf, RemoveAt;
    TakeOut(list, ent, k);
    r := list;
    if (list.head == null && list.tail != null) || (list.head != null && list.tail == null) {
      r := null;
    }
    if r != null {
      r.count := r.count - 1;
    }
  }

  /** linkedlist_exists: the first entry whose data match, and its position. */
  method Exists<T>(list: LinkedList?<T>, matches: T -> bool) returns (ent: ListEnt?<T>, ghost k: nat)
    requires Ok(list)
    ensures ent == null ==> forall i :: 0 <= i < |Contents(list)| ==> !matches(Contents(list)[i])
    ensures ent != null ==> k < |Spine(list)| && ent == list.spine[k] && matches(ent.data) && ent.data == Contents(list)[k]
    ensures ent != null ==> forall i :: 0 <= i < k ==> !matches(Contents(list)[i])
  {
    k := 0;
    if list == null {
      return null, 0;
    }
    ent := list.head;
    while ent != null
      invariant k <= |list.spine|
      invariant ent == if k < |list.spine| then list.spine[k] else null
      invariant forall i :: 0 <= i < k ==> !matches(Contents(list)[i])
      decreases |list.spine| - k
    {
      if matches(ent.data) {
        return ent, k;
      }
      ent := ent.next;
      k := k + 1;
    }
  }

  /** linkedlist_getfirst */
  method GetFirst<T>(list: LinkedList?<T>) returns (r: LinkedList?<T>, data: Option<T>)
    requires Ok(list)
    modifies Footprint(list)
    ensures Ok(r) && Footprint(r) <= old(Footprint(list))
    ensures list == null ==> r == null && data == None
    ensures list != null ==> data == Some(old(Contents(list))[0]) && Contents(r) == old(Contents(list))[1..]
  {
    if list == null {
      return null, None;
    }
    data := Some(list.head.data);
    r := Unlink(list, list.head, 0);
  }

  /** linkedlist_getlast */
  method GetLast<T>(list: LinkedList?<T>) returns (r: LinkedList?<T>, data: Option<T>)
    requires Ok(list)
    modifies Footprint(list)
    ensures Ok(r) && Footprint(r) <= old(Footprint(list))
    ensures list == null ==> r == null && data == None
    ensures list != null ==> var s := old(Contents(list)); data == Some(s[|s| - 1]) && Contents(r) == s[..|s| - 1]
  {
    if list == null {
      return null, None;
    }
    data := Some(list.tail.data);
    r := Unlink(list, list.tail, list.count - 1);
  }

  /** The position of the first match, or the length. */
  function FirstMatch<T>(s: seq<T>, matches: T -> bool): (k: nat)
    ensures k <= |s|
    ensures k < |s| ==> matches(s[k])
    ensures forall i :: 0 <= i < k ==> !matches(s[i])
  {
    if |s| == 0 || matches(s[0]) then 0 else 1 + FirstMatch(s[1..], matches)
  }

  lemma FirstMatchUnique<T>(s: seq<T>, matches: T -> bool, k: nat)
    requires k <= |s| && (k < |s| ==> matches(s[k])) && forall i :: 0 <= i < k ==> !matches(s[i])
    ensures k == FirstMatch(s, matches)
  {
  }

  function RemoveFirst<T>(s: seq<T>, matches: T -> bool): seq<T> {
    var k := FirstMatch(s, matches);
    if k < |s| then RemoveAt(s, k) else s
  }

  /** The first entry that matches goes, whatever stands before and after it stays in order; without a match nothing goes. */
  lemma RemoveFirstMeaning<T>(before: seq<T>, x: T, after: seq<T>, matches: T -> bool)
    requires forall i :: 0 <= i < |before| ==> !matches(before[i])
    ensures matches(x) ==> RemoveFirst(before + [x] + after, matches) == before + after
    ensures RemoveFirst(before, matches) == before
  {
    FirstMatchUnique(before, matches, |before|);
    if matches(x) {
      FirstMatchUnique(before + [x] + after, matches, |before|);
    }
  }

  /** linkedlist_get: `save` is written only when an entry matched. */
  method Get<T>(list: LinkedList?<T>, matches: T -> bool) returns (r: LinkedList?<T>, save: Option<T>)
    requires Ok(list)
    modifies Footprint(list)
    ensures Ok(r) && Footprint(r) <= old(Footprint(list))
    ensures var s := old(Contents(list)); var k := FirstMatch(s, matches);
            Contents(r) == RemoveFirst(s, matches) && save == if k < |s| then Some(s[k]) else None
  {
    var ent, k := Exists(list, matches);
    save := None;
    r := list;
    if ent != null {
      FirstMatchUnique(Contents(list), matches, k);
      save := Some(ent.data);
      r := Unlink(list, ent, k);
    } else {
      FirstMatchUnique(Contents(list), matches, |Contents(list)|);
    }
  }

  /** linkedlist_delete */
  method Delete<T>(list: LinkedList?<T>, matches: T -> bool) returns (r: LinkedList?<T>)
    requires Ok(list)
    modifies Footprint(list)
    ensures Ok(r) && Footprint(r) <= old(Footprint(list))
    ensures Contents(r) == RemoveFirst(old(Contents(list)), matches)
  {
    var ent, k := Exists(list, matches);
    r := list;
    if ent != null {
      FirstMatchUnique(Contents(list), matches, k);
      r := Unlink(list, ent, k);
    } else {
      FirstMatchUnique(Contents(list), matches, |Contents(list)|);
    }
  }
}
