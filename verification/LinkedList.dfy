/** The doubly linked list of the GPS utilities, and the sequence it stands for. */
module LinkedList {
  import opened Basics

  datatype Error =
    | Success
    | FailureGeneral
    | InvalidParameter
    | InvalidHandle
    | UnavailableResource

  /** A `void *` to caller data; 0 is NULL. */
  type Pointer = nat

  const NULL: Pointer := 0

  /** What an element holds: the data and whether a dealloc function came with it. */
  datatype Item = Item(data: Pointer, dealloc: bool)

  class Element {
    var next: Element?
    var prev: Element?
    const item: Item

    constructor (item: Item)
      ensures next == null && prev == null && this.item == item
    {
      this.item := item;
      next, prev := null, null;
    }
  }

  /** The node at an offset, or NULL past either end. */
  ghost function NodeAt(nodes: seq<Element>, i: int): Element? {
    if 0 <= i < |nodes| then nodes[i] else null
  }

  ghost function Items(nodes: seq<Element>): (s: seq<Item>)
    ensures |s| == |nodes| && forall i | 0 <= i < |nodes| :: s[i] == nodes[i].item
  {
    seq(|nodes|, i requires 0 <= i < |nodes| => nodes[i].item)
  }

  // ----- The sequence view, head first -----

  /** The offset of the first item whose data is accepted, or the length. */
  function FirstMatch(items: seq<Item>, equal: Pointer -> bool): (k: nat)
    ensures k <= |items|
    ensures forall i | 0 <= i < k :: !equal(items[i].data)
    ensures k < |items| ==> equal(items[k].data)
  {
    if items == [] || equal(items[0].data) then 0 else 1 + FirstMatch(items[1..], equal)
  }

  /** The data of the items that have a dealloc function, head first. */
  function Deallocs(items: seq<Item>): (r: seq<Pointer>)
    ensures |r| <= |items|
  {
    if items == [] then []
    else (if items[0].dealloc then [items[0].data] else []) + Deallocs(items[1..])
  }

  lemma DeallocsStep(item: Item, rest: seq<Item>)
    ensures Deallocs([]) == []
    ensures Deallocs([item] + rest) == (if item.dealloc then [item.data] else []) + Deallocs(rest)
  {
    assert ([item] + rest)[1..] == rest;
  }

  class List {
    var head: Element?
    var tail: Element?
    ghost var nodes: seq<Element>

    /** Both chains of links run through exactly `nodes`, in opposite directions. */
    ghost predicate Valid()
      reads this, nodes
    {
      && (forall i, j | 0 <= i < j < |nodes| :: nodes[i] != nodes[j])
      && head == NodeAt(nodes, 0) && tail == NodeAt(nodes, |nodes| - 1)
      && (forall i {:trigger nodes[i].next} | 0 <= i < |nodes| :: nodes[i].next == NodeAt(nodes, i + 1))
      && (forall i {:trigger nodes[i].prev} | 0 <= i < |nodes| :: nodes[i].prev == NodeAt(nodes, i - 1))
    }

    ghost function Contents(): (s: seq<Item>)
      reads this
      ensures |s| == |nodes|
    {
      Items(nodes)
    }

    /** `linked_list_init` */
    constructor ()
      ensures Valid() && Contents() == []
    {
      head, tail := null, null;
      nodes := [];
    }
  }

  /** New elements go to the head. `memory` says whether the allocation succeeds. */
  method Add(list: List?, data: Pointer, dealloc: bool, memory: bool) returns (rv: Error)
    requires list != null ==> list.Valid()
    modifies list, if list != null then list.nodes else []
    ensures rv == if list == null then InvalidHandle
                  else if data == NULL then InvalidParameter
                  else if !memory then FailureGeneral
                  else Success
    ensures list != null ==>
              && list.Valid()
              && list.Contents() == (if rv == Success then [Item(data, dealloc)] + old(list.Contents())
                                     else old(list.Contents()))
  {
    if list == null {
      return InvalidHandle;
    }
    if data == NULL {
      return InvalidParameter;
    }
    if !memory {
      return FailureGeneral;
    }
    var elem := new Element(Item(data, dealloc));
    var tmp := list.head;
    list.head := elem;
    elem.next := tmp;
    if tmp != null {
      tmp.prev := elem;
    } else {
      list.tail := elem;
    }
    list.nodes := [elem] + list.nodes;
    return Success;
  }

  /**
   * The element at the tail, the oldest one, leaves. `wanted` says whether the caller passes a
   * result variable, and `before` what that holds; an error leaves it alone.
   */
  method Remove(list: List?, wanted: bool, before: Pointer) returns (rv: Error, data: Pointer)
    requires list != null ==> list.Valid()
    modifies list, if list != null then list.nodes else []
    ensures rv == if list == null then InvalidHandle
                  else if !wanted then InvalidParameter
                  else if old(list.Contents()) == [] then UnavailableResource
                  else Success
    ensures list != null ==> list.Valid()
    ensures rv != Success ==> data == before && (list != null ==> list.Contents() == old(list.Contents()))
    ensures rv == Success ==> old(list.Contents()) != [] &&
                              var s := old(list.Contents());
                              data == s[|s| - 1].data && list.Contents() == s[..|s| - 1]
  {
    data := before;
    if list == null {
      return InvalidHandle, data;
    }
    if !wanted {
      return InvalidParameter, data;
    }
    if list.tail == null {
      return UnavailableResource, data;
    }
    var tmp := list.tail;
    list.tail := tmp.prev;
    if list.tail != null {
      list.tail.next := null;
    } else {
      list.head := list.tail;
    }
    ghost var was := list.nodes;
    list.nodes := was[..|was| - 1];
    forall i {:trigger list.nodes[i].next} | 0 <= i < |list.nodes|
      ensures list.nodes[i].next == NodeAt(list.nodes, i + 1)
    {
      assert old(was[i].next) == NodeAt(was, i + 1);
    }
    data := tmp.item.data;
    return Success, data;
  }

  /** Every element leaves, head first; those with a dealloc function have it called once. */
  method Flush(list: List?) returns (rv: Error, calls: seq<Pointer>)
    requires list != null ==> list.Valid()
    modifies list
    ensures rv == if list == null then InvalidHandle else Success
    ensures list != null ==> list.Valid() && list.Contents() == [] && calls == Deallocs(old(list.Contents()))
  {
    calls := [];
    if list == null {
      return InvalidHandle, calls;
    }
    ghost var nodes, all := list.nodes, list.Contents();
    ghost var i := 0;
    assert all[0..] == all;
    while list.head != null
      invariant 0 <= i <= |nodes| && list.head == NodeAt(nodes, i)
      invariant forall k {:trigger nodes[k].next} | 0 <= k < |nodes| :: nodes[k].next == NodeAt(nodes, k + 1)
      invariant calls + Deallocs(all[i..]) == Deallocs(all)
      decreases |nodes| - i
    {
      ghost var rest := Deallocs(all[i + 1..]);
      assert all[i] == list.head.item && all[i..][1..] == all[i + 1..];
      var tmp := list.head.next;
      if list.head.item.dealloc {
        assert calls + ([all[i].data] + rest) == calls + [all[i].data] + rest;
        calls := calls + [list.head.item.data];
      } else {
        assert [] + rest == rest;
      }
      list.head := tmp;
      i := i + 1;
    }
    list.tail := null;
    list.nodes := [];
    return Success, calls;
  }

  method Empty(list: List?) returns (empty: bool)
    requires list != null ==> list.Valid()
    ensures empty == (list == null || list.Contents() == [])
  {
    // for a NULL handle the C function returns an error code, which is non-zero
    empty := list == null || list.head == null;
  }

  /**
   * The first element, from the head, that `equal` accepts is reported through `data` if the
   * caller asked for it (`wanted`), and unlinked if `remove`. Its dealloc function runs only if
   * it was unlinked and its data was not handed out. `before` is what the caller's result
   * variable holds; an empty list leaves it alone.
   */
  method Search(list: List?, wanted: bool, before: Pointer, equal: Option<Pointer -> bool>, remove: bool)
      returns (rv: Error, data: Pointer, calls: seq<Pointer>)
    requires list != null ==> list.Valid()
    modifies list, if list != null then list.nodes else []
    ensures rv == if list == null || equal == None then InvalidHandle
                  else if old(list.Contents()) == [] then UnavailableResource
                  else Success
    ensures list != null ==> list.Valid()
    ensures rv != Success ==>
              (list != null ==> list.Contents() == old(list.Contents())) && data == before && calls == []
    ensures rv == Success ==>
              var s := old(list.Contents());
              var k := FirstMatch(s, equal.value);
              if k == |s| then
                list.Contents() == s && data == (if wanted then NULL else before) && calls == []
              else
                && list.Contents() == (if remove then Without(s, k) else s)
                && data == (if wanted then s[k].data else before)
                && calls == (if remove && !wanted && s[k].dealloc then [s[k].data] else [])
  {
    data, calls := before, [];
    if list == null || equal.None? {
      return InvalidHandle, data, calls;
    }
    if list.tail == null {
      return UnavailableResource, data, calls;
    }
    if wanted {
      data := NULL;
    }
    var accepts := equal.value;
    ghost var s := list.Contents();
    var tmp := list.head;
    ghost var i := 0;
    while tmp != null
      invariant list.Valid() && list.Contents() == s && list.nodes == old(list.nodes)
      invariant 0 <= i <= |s| && tmp == NodeAt(list.nodes, i)
      invariant forall k | 0 <= k < i :: !accepts(s[k].data)
      decreases |s| - i
    {
      if accepts(tmp.item.data) {
        FirstMatchAt(s, accepts, i);
        if wanted {
          data := tmp.item.data;
        }
        if remove {
          Unlink(list, tmp, i);
          if !wanted && tmp.item.dealloc {
            calls := [tmp.item.data];
          }
        }
        return Success, data, calls;
      }
      tmp := tmp.next;
      i := i + 1;
    }
    FirstMatchAt(s, accepts, i);
    return Success, data, calls;
  }

  lemma FirstMatchAt(items: seq<Item>, equal: Pointer -> bool, k: nat)
    requires k <= |items| && forall i | 0 <= i < k :: !equal(items[i].data)
    requires k < |items| ==> equal(items[k].data)
    ensures FirstMatch(items, equal) == k
  {
    assert forall i | 0 <= i < k :: !equal(items[i].data);
  }

  lemma ItemsWithout(nodes: seq<Element>, k: nat)
    requires k < |nodes|
    ensures Items(nodes[..k] + nodes[k + 1..]) == Without(Items(nodes), k)
  {
    var rest := nodes[..k] + nodes[k + 1..];
    forall i | 0 <= i < |rest| ensures Items(rest)[i] == Without(Items(nodes), k)[i] {
      assert rest[i] == nodes[if i < k then i else i + 1];
    }
  }

  /** The part of the search that takes an element out, at the head, the tail or in between. */
  method Unlink(list: List, tmp: Element, ghost k: nat)
    requires list.Valid() && k < |list.nodes| && list.nodes[k] == tmp
    modifies list, list.nodes
    ensures list.Valid() && list.Contents() == Without(old(list.Contents()), k)
    ensures tmp.next == null && tmp.prev == null
  {
    ghost var was := list.nodes;
    Bypass(list, tmp, k);
    assert forall j | 0 <= j < |was| && j != k :: was[j] != tmp;
    tmp.prev, tmp.next := null, null;
    list.nodes := was[..k] + was[k + 1..];
    ItemsWithout(was, k);
    Relinked(list, was, k);
  }

  /** What `Bypass` leaves is a list of the other elements. */
  lemma Relinked(list: List, was: seq<Element>, k: nat)
    requires k < |was| && (forall i, j | 0 <= i < j < |was| :: was[i] != was[j])
    requires list.nodes == was[..k] + was[k + 1..]
    requires list.head == NodeAt(was, if k == 0 then 1 else 0)
    requires list.tail == NodeAt(was, if k == |was| - 1 then k - 1 else |was| - 1)
    requires forall j {:trigger was[j].next} | 0 <= j < |was| && j != k ::
               was[j].next == NodeAt(was, if j == k - 1 then k + 1 else j + 1)
    requires forall j {:trigger was[j].prev} | 0 <= j < |was| && j != k ::
               was[j].prev == NodeAt(was, if j == k + 1 then k - 1 else j - 1)
    ensures list.Valid()
  {
    forall i {:trigger list.nodes[i].next} | 0 <= i < |list.nodes|
      ensures list.nodes[i].next == NodeAt(list.nodes, i + 1)
    {
      NodeAtWithout(was, k, i);
      NodeAtWithout(was, k, i + 1);
    }
    forall i {:trigger list.nodes[i].prev} | 0 <= i < |list.nodes|
      ensures list.nodes[i].prev == NodeAt(list.nodes, i - 1)
    {
      NodeAtWithout(was, k, i);
      NodeAtWithout(was, k, i - 1);
    }
    StillDistinct(was, k);
    NodeAtWithout(was, k, 0);
    NodeAtWithout(was, k, |list.nodes| - 1);
  }

  lemma StillDistinct(nodes: seq<Element>, k: nat)
    requires k < |nodes| && forall i, j | 0 <= i < j < |nodes| :: nodes[i] != nodes[j]
    ensures var rest := nodes[..k] + nodes[k + 1..];
            forall i, j | 0 <= i < j < |rest| :: rest[i] != rest[j]
  {
    var rest := nodes[..k] + nodes[k + 1..];
    assert forall i | 0 <= i < |rest| :: rest[i] == nodes[if i < k then i else i + 1];
  }

  lemma NodeAtWithout(nodes: seq<Element>, k: nat, i: int)
    requires k < |nodes|
    ensures NodeAt(nodes[..k] + nodes[k + 1..], i) == NodeAt(nodes, if i < k then i else i + 1)
  {
  }

  /** The neighbours of an element, or the ends of the list, are linked past it. */
  method Bypass(list: List, tmp: Element, ghost k: nat)
    requires list.Valid() && k < |list.nodes| && list.nodes[k] == tmp
    modifies list`head, list`tail, list.nodes
    ensures var was := list.nodes;
            && list.head == NodeAt(was, if k == 0 then 1 else 0)
            && list.tail == NodeAt(was, if k == |was| - 1 then k - 1 else |was| - 1)
            && (forall j {:trigger was[j].next} | 0 <= j < |was| && j != k ::
                  was[j].next == NodeAt(was, if j == k - 1 then k + 1 else j + 1))
            && (forall j {:trigger was[j].prev} | 0 <= j < |was| && j != k ::
                  was[j].prev == NodeAt(was, if j == k + 1 then k - 1 else j - 1))
  {
    if tmp.prev == null {
      list.head := tmp.next;
    } else {
      tmp.prev.next := tmp.next;
    }
    if tmp.next == null {
      list.tail := tmp.prev;
    } else {
      tmp.next.prev := tmp.prev;
    }
  }

  // ----- What the sequence view promises -----

  /** First in, first out: items added one after the other leave in that order. */
  function AddAll(items: seq<Item>, adds: seq<Item>): (r: seq<Item>)
    ensures |r| == |items| + |adds|
    decreases |adds|
  {
    if adds == [] then items else AddAll([adds[0]] + items, adds[1..])
  }

  lemma {:induction false} AddedLeaveInOrder(items: seq<Item>, adds: seq<Item>, k: nat)
    requires k < |adds|
    ensures var all := AddAll(items, adds);
            all[|adds| - 1 - k] == adds[k] && all[|adds|..] == items
    decreases |adds|
  {
    var rest := adds[1..];
    AddedLandOn([adds[0]] + items, rest);
    var all := AddAll(items, adds);
    assert all[|rest|..] == [adds[0]] + items;
    assert all[|adds|..] == all[|rest|..][1..];
    if k > 0 {
      AddedLeaveInOrder([adds[0]] + items, rest, k - 1);
    }
  }

  lemma {:induction false} AddedLandOn(items: seq<Item>, adds: seq<Item>)
    ensures AddAll(items, adds)[|adds|..] == items
    decreases |adds|
  {
    if adds != [] {
      AddedLandOn([adds[0]] + items, adds[1..]);
      var all := AddAll(items, adds);
      assert all[|adds|..] == all[|adds| - 1..][1..];
    }
  }
}
