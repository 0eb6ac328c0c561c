/**
  The children of an array or object: a doubly linked list hanging from its parent.

  `IsList(parent, nodes)` says that the links of the children spell out `nodes`; the
  list operations are proved to append, remove and update that sequence.
  */
module JsonList {

  class Item {
    var next: Item?
    var prev: Item?
    var child: Item?

    constructor ()
      ensures next == null && prev == null && child == null
    {
      next, prev, child := null, null, null;
    }
  }

  ghost predicate Distinct(nodes: seq<Item>)
  {
    forall i, j | 0 <= i < j < |nodes| :: nodes[i] != nodes[j]
  }

  /** The item at `i`, or null on either side of the list. */
  ghost function Link(nodes: seq<Item>, i: int): Item?
  {
    if 0 <= i < |nodes| then nodes[i] else null
  }

  ghost predicate IsList(parent: Item, nodes: seq<Item>)
    reads parent, nodes
  {
    && parent !in nodes
    && Distinct(nodes)
    && parent.child == Link(nodes, 0)
    && (forall i {:trigger nodes[i].next} | 0 <= i < |nodes| :: nodes[i].next == Link(nodes, i + 1))
    && (forall i {:trigger nodes[i].prev} | 0 <= i < |nodes| :: nodes[i].prev == Link(nodes, i - 1))
  }

  /** The links determine the sequence: a parent has one list of children. */
  lemma ListUnique(parent: Item, a: seq<Item>, b: seq<Item>)
    requires IsList(parent, a) && IsList(parent, b)
    ensures a == b
  {
    ListPrefix(parent, a, b, |a|);
    ListPrefix(parent, b, a, |b|);
  }

  lemma {:induction false} ListPrefix(parent: Item, a: seq<Item>, b: seq<Item>, k: nat)
    requires IsList(parent, a) && IsList(parent, b) && k <= |a|
    ensures k <= |b| && a[..k] == b[..k]
  {
    if k > 0 {
      ListPrefix(parent, a, b, k - 1);
      if k == 1 {
        assert Link(a, 0) == Link(b, 0);
      } else {
        assert a[..k - 1][k - 2] == b[..k - 1][k - 2];
        assert Link(a, k - 1) == a[k - 2].next == b[k - 2].next == Link(b, k - 1);
      }
      assert a[..k] == a[..k - 1] + [a[k - 1]];
      assert b[..k] == b[..k - 1] + [b[k - 1]];
    }
  }

  /** The position an index means: every negative index is the first. */
  function Position(which: int): nat
  {
    if which > 0 then which else 0
  }

  /** cJSON_GetArraySize. */
  method GetArraySize(parent: Item, ghost nodes: seq<Item>) returns (n: nat)
    requires IsList(parent, nodes)
    ensures n == |nodes|
  {
    var c := parent.child;
    n := 0;
    while c != null
      invariant n <= |nodes| && c == Link(nodes, n)
      decreases |nodes| - n
    {
      n, c := n + 1, c.next;
    }
  }

  /** cJSON_GetArrayItem. */
  method GetArrayItem(parent: Item, which: int, ghost nodes: seq<Item>) returns (c: Item?)
    requires IsList(parent, nodes)
    ensures c == Link(nodes, Position(which))
  {
    c := parent.child;
    var left := which;
    ghost var i := 0;
    while c != null && left > 0
      invariant 0 <= i <= |nodes| && c == Link(nodes, i)
      invariant i + Position(left) == Position(which)
      decreases |nodes| - i
    {
      left, c, i := left - 1, c.next, i + 1;
    }
  }

  /** cJSON_AddItemToArray. */
  method AddItemToArray(parent: Item, item: Item, ghost nodes: seq<Item>)
    requires IsList(parent, nodes)
    requires item !in nodes && item != parent && item.next == null && item.prev == null
    modifies parent`child, item`prev, nodes
    ensures IsList(parent, nodes + [item])
    ensures forall x | x in nodes + [item] :: x.child == old(x.child)
  {
    var c := parent.child;
    if c == null {
      parent.child := item;
    } else {
      ghost var i := 0;
      while c.next != null
        invariant 0 <= i < |nodes| && c == nodes[i]
        decreases |nodes| - i
      {
        c, i := c.next, i + 1;
      }
      c.next := item;
      item.prev := c;
    }
  }

  ghost function Without(nodes: seq<Item>, i: nat): seq<Item>
    requires i < |nodes|
  {
    nodes[..i] + nodes[i + 1..]
  }

  lemma WithoutAt(nodes: seq<Item>, i: nat, k: int)
    requires i < |nodes|
    ensures Link(Without(nodes, i), k) == if k < i then Link(nodes, k) else Link(nodes, k + 1)
  {}

  lemma WithoutDistinct(nodes: seq<Item>, i: nat)
    requires i < |nodes| && Distinct(nodes)
    ensures Distinct(Without(nodes, i)) && nodes[i] !in Without(nodes, i)
    ensures forall x | x in Without(nodes, i) :: x in nodes
  {}

  /** The links of `nodes` when they bypass position `i`. */
  ghost predicate Bypassed(parent: Item, nodes: seq<Item>, i: nat)
    requires i < |nodes|
    reads parent, nodes
  {
    && parent.child == Link(nodes, if i == 0 then 1 else 0)
    && (forall j {:trigger nodes[j].next} | 0 <= j < |nodes| && j != i ::
          nodes[j].next == Link(nodes, if j + 1 == i then j + 2 else j + 1))
    && (forall j {:trigger nodes[j].prev} | 0 <= j < |nodes| && j != i ::
          nodes[j].prev == Link(nodes, if j - 1 == i then j - 2 else j - 1))
  }

  lemma BypassedIsList(parent: Item, nodes: seq<Item>, i: nat)
    requires i < |nodes| && parent !in nodes && Distinct(nodes) && Bypassed(parent, nodes, i)
    ensures IsList(parent, Without(nodes, i))
  {
    var rest := Without(nodes, i);
    WithoutDistinct(nodes, i);
    WithoutAt(nodes, i, 0);
    forall k | 0 <= k < |rest|
      ensures rest[k].next == Link(rest, k + 1) && rest[k].prev == Link(rest, k - 1)
    {
      var j := if k < i then k else k + 1;
      assert rest[k] == nodes[j] && j != i;
      WithoutAt(nodes, i, k + 1);
      WithoutAt(nodes, i, k - 1);
    }
  }

  /** cJSON_DetachItemFromArray. */
  method DetachItemFromArray(parent: Item, which: int, ghost nodes: seq<Item>) returns (c: Item?)
    requires IsList(parent, nodes)
    modifies parent`child, nodes
    ensures c == Link(nodes, Position(which))
    ensures c == null ==> IsList(parent, nodes)
    ensures c != null ==> IsList(parent, Without(nodes, Position(which))) && c.next == null && c.prev == null
    ensures forall x | x in nodes :: x.child == old(x.child)
  {
    c := GetArrayItem(parent, which, nodes);
    if c != null {
      Unlink(parent, c, Position(which), nodes);
      BypassedIsList(parent, nodes, Position(which));
    }
  }

  method Unlink(parent: Item, c: Item, ghost i: nat, ghost nodes: seq<Item>)
    requires IsList(parent, nodes) && i < |nodes| && c == nodes[i]
    modifies parent`child, nodes
    ensures Bypassed(parent, nodes, i) && c.next == null && c.prev == null
    ensures forall x | x in nodes :: x.child == old(x.child)
  {
    if c.prev != null {
      c.prev.next := c.next;
    }
    if c.next != null {
      c.next.prev := c.prev;
    }
    if c == parent.child {
      parent.child := c.next;
    }
    c.prev, c.next := null, null;
  }

  /** The links of `nodes` when `item` has the place of position `i`. */
  ghost predicate Replaced(parent: Item, nodes: seq<Item>, i: nat, item: Item)
    requires i < |nodes|
    reads parent, item, nodes
  {
    var first := if i == 0 then item else Link(nodes, 0);
    && parent.child == first
    && item.next == Link(nodes, i + 1) && item.prev == Link(nodes, i - 1)
    && (forall j {:trigger nodes[j].next} | 0 <= j < |nodes| && j != i ::
          nodes[j].next == if j + 1 == i then item else Link(nodes, j + 1))
    && (forall j {:trigger nodes[j].prev} | 0 <= j < |nodes| && j != i ::
          nodes[j].prev == if j - 1 == i then item else Link(nodes, j - 1))
  }

  lemma ReplacedIsList(parent: Item, nodes: seq<Item>, i: nat, item: Item)
    requires i < |nodes| && parent !in nodes && Distinct(nodes) && item !in nodes && item != parent
    requires Replaced(parent, nodes, i, item)
    ensures IsList(parent, nodes[i := item])
  {
    var now := nodes[i := item];
    forall j | 0 <= j < |now|
      ensures now[j].next == Link(now, j + 1) && now[j].prev == Link(now, j - 1)
    {
      assert j != i ==> now[j] == nodes[j];
    }
    assert Distinct(now);
  }

  /** cJSON_ReplaceItemInArray.  The item that is replaced is no longer linked, so that deleting it leaves the list. */
  method ReplaceItemInArray(parent: Item, which: int, item: Item, ghost nodes: seq<Item>)
    requires IsList(parent, nodes)
    requires item !in nodes && item != parent
    modifies parent`child, item`next, item`prev, nodes
    ensures Position(which) < |nodes| ==>
              && IsList(parent, nodes[Position(which) := item])
              && nodes[Position(which)].next == null && nodes[Position(which)].prev == null
    ensures Position(which) >= |nodes| ==> IsList(parent, nodes)
    ensures forall x | x in nodes + [item] :: x.child == old(x.child)
  {
    var c := GetArrayItem(parent, which, nodes);
    if c != null {
      Relink(parent, c, item, Position(which), nodes);
      ReplacedIsList(parent, nodes, Position(which), item);
    }
  }

  method Relink(parent: Item, c: Item, item: Item, ghost i: nat, ghost nodes: seq<Item>)
    requires IsList(parent, nodes) && i < |nodes| && c == nodes[i]
    requires item !in nodes && item != parent
    modifies parent`child, item`next, item`prev, nodes
    ensures Replaced(parent, nodes, i, item) && c.next == null && c.prev == null
    ensures forall x | x in nodes + [item] :: x.child == old(x.child)
  {
    item.next, item.prev := c.next, c.prev;
    if item.next != null {
      item.next.prev := item;
    }
    if c == parent.child {
      parent.child := item;
    } else {
      item.prev.next := item;
    }
    c.next, c.prev := null, null;
  }

  /** Detaching what was just added restores the list. */
  method AddThenDetach(parent: Item, item: Item, ghost nodes: seq<Item>) returns (c: Item?)
    requires IsList(parent, nodes)
    requires item !in nodes && item != parent && item.next == null && item.prev == null
    modifies parent`child, item, nodes
    ensures IsList(parent, nodes) && c == item && item.next == null && item.prev == null
  {
    var n := GetArraySize(parent, nodes);
    AddItemToArray(parent, item, nodes);
    c := DetachItemFromArray(parent, n, nodes + [item]);
    assert Without(nodes + [item], n) == nodes;
  }
}
