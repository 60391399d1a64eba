/** libcbor's item tree: reference-counted items, where building an item gives one reference,
    pushing and getting take another, and the last release also releases an array's children. */
module CborStore {
  import opened Basics
  import opened Cbor

  type Id = nat

  datatype Body = Leaf(item: Item) | Array(slots: nat, children: seq<Id>)

  datatype Cell = Cell(refs: nat, body: Body)

  /** The items not yet freed. */
  type Cells = map<Id, Cell>

  /** The items left by `cbor_decref(id)`, or None when the release reaches an item already freed. */
  function Released(cells: Cells, id: Id): (left: Option<Cells>)
    ensures left.Some? ==> |left.value| <= |cells|
    decreases |cells|, 0, 0
  {
    if id !in cells || cells[id].refs == 0 then None
    else if cells[id].refs > 1 then Some(cells[id := cells[id].(refs := cells[id].refs - 1)])
    else
      var others := cells - {id};
      assert others.Keys == cells.Keys - {id};
      match cells[id].body
      case Leaf(_) => Some(others)
      case Array(_, children) => ReleasedAll(others, children)
  }

  function ReleasedAll(cells: Cells, ids: seq<Id>): (left: Option<Cells>)
    ensures left.Some? ==> |left.value| <= |cells|
    decreases |cells|, 1, |ids|
  {
    if ids == [] then Some(cells)
    else match Released(cells, ids[0])
      case None => None
      case Some(left) => ReleasedAll(left, ids[1..])
  }

  ghost predicate Below(cells: Cells, base: Id) {
    forall id :: id in cells ==> id < base
  }

  function ChildIds(base: Id, count: nat): (ids: seq<Id>)
    ensures |ids| == count && forall i :: 0 <= i < count ==> ids[i] == base + 1 + i
  {
    seq(count, i => base + 1 + i)
  }

  lemma ReleaseShared(cells: Cells, id: Id)
    requires id in cells && cells[id].refs > 1
    ensures Released(cells, id) == Some(cells[id := cells[id].(refs := cells[id].refs - 1)])
  {
  }

  function IdsBetween(lo: Id, hi: Id): (ids: set<Id>)
    ensures forall id :: id in ids <==> lo <= id < hi
    decreases hi - lo
  {
    if hi <= lo then {} else {lo} + IdsBetween(lo + 1, hi)
  }

  function Singles(first: Id, items: seq<Item>, ids: set<Id>): Cells
    requires forall id :: id in ids ==> first <= id < first + |items|
  {
    map id | id in ids :: Cell(1, Leaf(items[id - first]))
  }

  /** The children from the `k`-th on, as items with one owner, added to `cells`. */
  function Leaves(cells: Cells, base: Id, k: nat, items: seq<Item>): Cells
    requires k <= |items|
  {
    cells + Singles(base + 1, items, IdsBetween(base + 1 + k, base + 1 + |items|))
  }

  /** `cells` and an array at `base` that is the only owner of its children, which follow it. */
  function Planted(cells: Cells, base: Id, slots: nat, items: seq<Item>): Cells {
    Leaves(cells, base, 0, items)[base := Cell(1, Array(slots, ChildIds(base, |items|)))]
  }

  lemma PlantedCells(cells: Cells, base: Id, slots: nat, items: seq<Item>)
    requires Below(cells, base)
    ensures var grown := Planted(cells, base, slots, items);
      && base in grown && grown[base] == Cell(1, Array(slots, ChildIds(base, |items|)))
      && (forall id :: base < id <= base + |items| ==>
            id in grown && grown[id] == Cell(1, Leaf(items[id - base - 1])))
      && (base + 1 + |items|) !in grown
  {
  }

  lemma LeavesStep(cells: Cells, base: Id, k: nat, items: seq<Item>)
    requires Below(cells, base) && k < |items|
    ensures var here, id := Leaves(cells, base, k, items), base + 1 + k;
      id in here && here[id] == Cell(1, Leaf(items[k]))
      && here - {id} == Leaves(cells, base, k + 1, items)
  {
  }

  lemma NoLeaves(cells: Cells, base: Id, items: seq<Item>)
    ensures Leaves(cells, base, |items|, items) == cells
  {
  }

  lemma {:induction false} ReleaseLeaves(cells: Cells, base: Id, k: nat, items: seq<Item>)
    requires Below(cells, base) && k <= |items|
    ensures ReleasedAll(Leaves(cells, base, k, items), ChildIds(base, |items|)[k..]) == Some(cells)
    decreases |items| - k
  {
    hide Leaves, ChildIds;
    if k == |items| {
      NoLeaves(cells, base, items);
    } else {
      var here, ids := Leaves(cells, base, k, items), ChildIds(base, |items|)[k..];
      LeavesStep(cells, base, k, items);
      assert Released(here, ids[0]) == Some(Leaves(cells, base, k + 1, items));
      ReleaseLeaves(cells, base, k + 1, items);
      assert ids[1..] == ChildIds(base, |items|)[k + 1..];
    }
  }

  /** One release of the root frees the array and every child, each once, and nothing else. */
  lemma ReleasePlanted(cells: Cells, base: Id, slots: nat, items: seq<Item>)
    requires Below(cells, base)
    ensures Released(Planted(cells, base, slots, items), base) == Some(cells)
  {
    var grown, ids := Planted(cells, base, slots, items), ChildIds(base, |items|);
    assert ids[0..] == ids;
    assert grown - {base} == Leaves(cells, base, 0, items);
    ReleaseLeaves(cells, base, 0, items);
    hide Leaves;
  }

  lemma OneMoreLeaf(cells: Cells, base: Id, items: seq<Item>, item: Item)
    ensures Leaves(cells, base, 0, items)[base + 1 + |items| := Cell(1, Leaf(item))]
         == Leaves(cells, base, 0, items + [item])
  {
  }

  /** Pushing one more leaf, which the array then owns alone, gives the longer planted array. */
  lemma PlantOneMore(cells: Cells, base: Id, slots: nat, items: seq<Item>, item: Item)
    ensures Planted(cells, base, slots, items)[base + 1 + |items| := Cell(1, Leaf(item))]
              [base := Cell(1, Array(slots, ChildIds(base, |items|) + [base + 1 + |items|]))]
         == Planted(cells, base, slots, items + [item])
  {
    var id := base + 1 + |items|;
    assert ChildIds(base, |items|) + [id] == ChildIds(base, |items + [item]|);
    OneMoreLeaf(cells, base, items, item);
    hide Leaves;
  }

  class Store {
    var cells: Cells
    /** Names are never used again, so a freed item stays freed. */
    var next: Id

    ghost predicate Valid()
      reads this
    {
      Below(cells, next)
    }

    constructor ()
      ensures Valid() && cells == map[]
    {
      cells, next := map[], 0;
    }

    /** `cbor_build_*`: a new item with one reference. */
    method Build(item: Item) returns (id: Id)
      modifies this
      ensures id == old(next) && next == id + 1
      ensures cells == old(cells)[id := Cell(1, Leaf(item))]
    {
      id := next;
      cells, next := cells[id := Cell(1, Leaf(item))], id + 1;
    }

    method NewDefiniteArray(slots: nat) returns (id: Id)
      requires Valid()
      modifies this
      ensures Valid() && id == old(next) && next == id + 1
      ensures cells == Planted(old(cells), id, slots, [])
    {
      id := next;
      cells, next := cells[id := Cell(1, Array(slots, []))], id + 1;
      assert cells == Planted(old(cells), id, slots, []);
    }

    /** `cbor_array_push`: refuses when the slots are full, else takes a reference. */
    method Push(arr: Id, id: Id) returns (pushed: bool)
      requires arr in cells && cells[arr].body.Array? && id in cells && id != arr
      modifies `cells
      ensures pushed == (|old(cells[arr].body.children)| < old(cells[arr].body.slots))
      ensures !pushed ==> cells == old(cells)
      ensures pushed ==>
        var a, item := old(cells[arr]), old(cells[id]);
        cells == old(cells)[id := item.(refs := item.refs + 1)]
                           [arr := a.(body := Array(a.body.slots, a.body.children + [id]))]
    {
      var a, item := cells[arr], cells[id];
      pushed := |a.body.children| < a.body.slots;
      if pushed {
        cells := cells[id := item.(refs := item.refs + 1)];
        cells := cells[arr := a.(body := Array(a.body.slots, a.body.children + [id]))];
      }
    }

    /** `cbor_array_get`: hands out a child with a reference of its own. */
    method Get(arr: Id, i: nat) returns (id: Id)
      requires arr in cells && cells[arr].body.Array? && i < |cells[arr].body.children|
      requires cells[arr].body.children[i] in cells
      modifies `cells
      ensures id == old(cells[arr].body.children[i])
      ensures cells == old(cells)[id := old(cells[id]).(refs := old(cells[id]).refs + 1)]
    {
      id := cells[arr].body.children[i];
      cells := cells[id := cells[id].(refs := cells[id].refs + 1)];
    }

    /** `cbor_decref`: may only be called when the release reaches live items alone. */
    method Decref(id: Id)
      requires Released(cells, id).Some?
      modifies `cells
      ensures cells == Released(old(cells), id).value
      decreases |cells|, 0
    {
      var cell := cells[id];
      if cell.refs > 1 {
        cells := cells[id := cell.(refs := cell.refs - 1)];
      } else {
        ghost var others := cells - {id};
        assert others.Keys == cells.Keys - {id};
        cells := cells - {id};
        if cell.body.Array? {
          var children := cell.body.children;
          for i := 0 to |children|
            invariant |cells| <= |others| < old(|cells|)
            invariant ReleasedAll(cells, children[i..]) == ReleasedAll(others, children)
          {
            assert children[i..][1..] == children[i + 1..];
            Decref(children[i]);
          }
        }
      }
    }

    /** The pattern of every serializer field, here the `k`-th of `all`: build, push to the root,
        drop our own reference. */
    method Append(root: Id, item: Item, ghost before: Cells, ghost all: seq<Item>, ghost k: nat)
      requires Below(before, root) && next == root + 1 + k && k < |all| && item == all[k]
      requires cells == Planted(before, root, |all|, all[..k])
      modifies this
      ensures next == old(next) + 1
      ensures cells == Planted(before, root, |all|, all[..k + 1])
    {
      hide Released, Planted;
      PlantedCells(before, root, |all|, all[..k]);
      PlantOneMore(before, root, |all|, all[..k], item);
      assert all[..k] + [item] == all[..k + 1];
      var id := Build(item);
      var _ := Push(root, id);
      ReleaseShared(cells, id);
      Decref(id);
    }

    /** The pattern of every reader field: get, look, drop our own reference. */
    method Field(root: Id, i: nat, ghost before: Cells, ghost slots: nat, ghost items: seq<Item>) returns (item: Item)
      requires Below(before, root) && i < |items|
      requires cells == Planted(before, root, slots, items)
      modifies `cells
      ensures item == items[i] && cells == old(cells)
    {
      hide Released, Planted;
      PlantedCells(before, root, slots, items);
      var id := Get(root, i);
      item := cells[id].body.item;
      ReleaseShared(cells, id);
      Decref(id);
      assert cells == old(cells);
    }

    /** `cbor_load` of an array: None for anything libcbor or the array check refuses. */
    method Load(data: seq<byte>) returns (root: Option<Id>)
      requires Valid()
      modifies this
      ensures next >= old(next)
      ensures root.Some? <==> ReadArray(data).Some?
      ensures root.Some? ==>
        var items := ReadArray(data).value.value;
        && root.value == old(next) && next == old(next) + 1 + |items|
        && cells == Planted(old(cells), root.value, |items|, items)
    {
      var parsed := ReadArray(data);
      if parsed.None? {
        return None;
      }
      var items := parsed.value.value;
      var id := NewDefiniteArray(|items|);
      for i := 0 to |items|
        invariant next == id + 1 + i
        invariant cells == Planted(old(cells), id, |items|, items[..i])
      {
        Append(id, items[i], old(cells), items, i);
      }
      assert items[..|items|] == items;
      return Some(id);
    }

    /** `cbor_serialize_alloc` of an array of leaves. */
    method Serialize(root: Id, ghost before: Cells, ghost slots: nat, ghost items: seq<Item>) returns (data: seq<byte>)
      requires ValidItems(items) && |items| < TWO_TO_64
      requires Below(before, root) && cells == Planted(before, root, slots, items)
      ensures data == PrintArray(items)
    {
      hide PrintItem;
      var children := cells[root].body.children;
      data := Head(4, |children|);
      for i := 0 to |children|
        invariant data + PrintItems(items[i..]) == PrintArray(items)
      {
        assert cells[children[i]].body.item == items[i];
        assert items[i..][1..] == items[i + 1..];
        data := data + PrintItem(cells[children[i]].body.item);
      }
    }
  }
}
