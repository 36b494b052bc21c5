/** A page-table node and the view of one of its entries
    (ostd/src/mm/page_table/node/entry.rs).  A locked node holds its
    entries, the children table that owns what they map, and the count of
    children that are not `None`. */
module PtEntry {

  import L = LoongArchPte
  import opened PtChild
  import Mm

  /** Entries per node: `nr_subpage_per_huge`. */
  const NR_ENTRIES: nat := 512

  /** How many children are not `None`. */
  function Occupied(s: seq<Child>): (n: nat)
    ensures n <= |s|
  {
    if |s| == 0 then 0 else Occupied(s[..|s| - 1]) + (if s[|s| - 1].None? then 0 else 1)
  }

  /** Replacing one child moves the count by one exactly when the slot
      changes between `None` and something. */
  lemma {:induction false} OccupiedUpdate(s: seq<Child>, i: nat, c: Child)
    requires i < |s|
    ensures Occupied(s[i := c]) == Occupied(s) - (if s[i].None? then 0 else 1) + (if c.None? then 0 else 1)
    decreases |s|
  {
    var t := s[i := c];
    var k := |s| - 1;
    assert t[..k] == if i < k then s[..k][i := c] else s[..k];
    if i < k {
      OccupiedUpdate(s[..k], i, c);
    }
  }

  /** A table of `None` children has none occupied. */
  lemma {:induction false} OccupiedNone(s: seq<Child>)
    requires forall i :: 0 <= i < |s| ==> s[i].None?
    ensures Occupied(s) == 0
    decreases |s|
  {
    if |s| > 0 {
      OccupiedNone(s[..|s| - 1]);
    }
  }

  /** One slot of a node: a child the node may hold, at an address an
      entry can hold, and the entry that stands for it. */
  predicate SlotOk(pte: bv64, c: Child, level: nat, tracked: Tracking)
  {
    IsCompatible(c, level, tracked) && Encodable(c) && Encodes(pte, c, level)
  }

  /** Every slot of a node's entries and children is well formed. */
  predicate SlotsOk(ptes: seq<bv64>, table: seq<Child>, level: nat, tracked: Tracking)
  {
    && |ptes| == |table|
    && forall i {:trigger SlotOk(ptes[i], table[i], level, tracked)} ::
         0 <= i < |ptes| ==> SlotOk(ptes[i], table[i], level, tracked)
  }

  /** Writing a well-formed slot keeps every slot well formed. */
  lemma SlotsUpdate(ptes: seq<bv64>, table: seq<Child>, level: nat, tracked: Tracking, i: nat, pte: bv64, c: Child)
    requires SlotsOk(ptes, table, level, tracked) && i < |ptes|
    requires SlotOk(pte, c, level, tracked)
    ensures SlotsOk(ptes[i := pte], table[i := c], level, tracked)
  {
    var ps, ts := ptes[i := pte], table[i := c];
    forall j | 0 <= j < |ps|
      ensures SlotOk(ps[j], ts[j], level, tracked)
    {
      if j != i {
        assert ps[j] == ptes[j] && ts[j] == table[j];
      }
    }
  }

  /** A locked `PageTableNode`: its level and tracking status, the
      entries in its page, the children table and `nr_children`. */
  class Node {
    const level: nat
    const tracked: Tracking
    const ptes: array<bv64>
    const table: array<Child>
    var nrChildren: nat

    /** Every slot holds a compatible child and the entry for it, and
        `nr_children` counts the children that are not `None` (so it fits
        its 16 bits). */
    ghost predicate Valid()
      reads this, ptes, table
    {
      && ptes.Length == NR_ENTRIES && table.Length == NR_ENTRIES && level >= 1
      && ptes as object != table as object
      && nrChildren == Occupied(table[..])
      && SlotsOk(ptes[..], table[..], level, tracked)
    }

    /** `alloc_empty_pt`: a node whose entries are all absent and whose
        children are all `None`. */
    constructor AllocEmpty(level: nat, tracked: Tracking)
      requires level >= 1
      ensures Valid() && fresh(ptes) && fresh(table)
      ensures this.level == level && this.tracked == tracked
      ensures forall i :: 0 <= i < NR_ENTRIES ==> table[i].None? && ptes[i] == L.ABSENT
      ensures nrChildren == 0
    {
      this.level := level;
      this.tracked := tracked;
      ptes := new bv64[NR_ENTRIES](_ => L.ABSENT);
      table := new Child[NR_ENTRIES](_ => Child.None);
      nrChildren := 0;
      new;
      L.AbsentIsNone();
      OccupiedNone(table[..]);
    }
  }

  /** `Entry`: the view of slot `idx` of a locked node, with the entry
      word read from the node when the view was made. */
  class Entry {
    var pte: bv64
    const idx: nat
    const node: Node

    ghost predicate Valid()
      reads this, node, node.ptes, node.table
    {
      node.Valid() && idx < NR_ENTRIES && pte == node.ptes[idx]
    }

    /** `Entry::new_at`: the view of slot `idx`, which must lie in the
        node. */
    constructor NewAt(node: Node, idx: nat)
      requires node.Valid() && idx < NR_ENTRIES
      ensures Valid() && this.node == node && this.idx == idx
    {
      this.node := node;
      this.idx := idx;
      this.pte := node.ptes[idx];
    }

    /** `is_none`: the entry is absent, which is when the slot holds no
        child. */
    function IsNone(): (r: bool)
      requires Valid()
      reads this, node, node.ptes, node.table
      ensures r <==> node.table[idx].None?
    {
      assert SlotOk(node.ptes[..][idx], node.table[..][idx], node.level, node.tracked);
      EncodesKind(pte, node.table[idx], node.level);
      !L.IsPresent(pte)
    }

    /** `is_node`: the entry is present and not last, which is when the
        slot holds a child table. */
    function IsNode(): (r: bool)
      requires Valid()
      reads this, node, node.ptes, node.table
      ensures r <==> node.table[idx].PageTable?
    {
      assert SlotOk(node.ptes[..][idx], node.table[..][idx], node.level, node.tracked);
      EncodesKind(pte, node.table[idx], node.level);
      L.IsPresent(pte) && !L.IsLast(pte, node.level)
    }

    /** `to_owned`: a handle on the slot's child, one the entry stands for
        and that is compatible with the node. */
    function ToOwned(): (c: Child)
      requires Valid()
      reads this, node, node.ptes, node.table
      ensures Encodes(pte, c, node.level) && IsCompatible(c, node.level, node.tracked)
    {
      assert SlotOk(node.ptes[..][idx], node.table[..][idx], node.level, node.tracked);
      node.table[idx]
    }

    /** `protect`: on a present entry, apply `op` to the property the
        entry reads back and, when that changes it, write the new property
        into the entry, the node's page and the child it maps (the source
        leaves the child as it was; see `ProtectLeavesStaleChildAsWritten`).
        An absent entry and an unchanged property leave everything as it
        is. */
    method Protect(op: Prop -> Prop)
      requires Valid()
      modifies this, node.ptes, node.table
      ensures Valid()
      ensures var p := ReadProp(old(pte));
        !L.IsPresent(old(pte)) || op(p) == p ==>
          && pte == old(pte)
          && node.ptes[..] == old(node.ptes[..]) && node.table[..] == old(node.table[..])
      ensures var p := ReadProp(old(pte));
        L.IsPresent(old(pte)) && op(p) != p ==>
          && pte == L.SetProp(old(pte), op(p).flags, op(p).priv)
          && node.ptes[..] == old(node.ptes[..])[idx := pte]
          && node.table[..] == old(node.table[..])[idx := WithProp(old(node.table[idx]), op(p))]
    {
      if !L.IsPresent(pte) {
        return;
      }
      var prop := ReadProp(pte);
      var newProp := op(prop);
      if prop == newProp {
        return;
      }
      ghost var ps, ts := node.ptes[..], node.table[..];
      var c := node.table[idx];
      assert SlotOk(ps[idx], ts[idx], node.level, node.tracked);
      SetPropEncodes(pte, c, node.level, newProp);
      WithPropKeeps(c, newProp, node.level, node.tracked);
      pte := L.SetProp(pte, newProp.flags, newProp.priv);
      SlotsUpdate(ps, ts, node.level, node.tracked, idx, pte, WithProp(c, newProp));
      OccupiedUpdate(ts, idx, WithProp(c, newProp));
      node.ptes[idx] := pte;
      assert node.ptes[..] == ps[idx := pte];
      node.table[idx] := WithProp(c, newProp);
      assert node.table[..] == ts[idx := WithProp(c, newProp)];
    }

    /** `replace`: put a compatible child in the slot, write its entry,
        and return the child that was there; `nr_children` goes up by one
        when the slot was `None` and is no longer, down by one in the
        opposite case, and stays otherwise. */
    method Replace(newChild: Child) returns (oldChild: Child)
      requires Valid()
      requires IsCompatible(newChild, node.level, node.tracked) && Encodable(newChild)
      modifies node, node.ptes, node.table
      ensures node.Valid()
      ensures oldChild == old(node.table[idx])
      ensures node.table[..] == old(node.table[..])[idx := newChild]
      ensures node.ptes[..] == old(node.ptes[..])[idx := GetEntry(newChild)]
      ensures node.nrChildren
        == old(node.nrChildren) - (if oldChild.None? then 0 else 1) + (if newChild.None? then 0 else 1)
    {
      ghost var ps, ts := node.ptes[..], node.table[..];
      GetEntryEncodes(newChild, node.level, node.tracked);
      SlotsUpdate(ps, ts, node.level, node.tracked, idx, GetEntry(newChild), newChild);
      OccupiedUpdate(ts, idx, newChild);
      oldChild := node.table[idx];
      node.ptes[idx] := GetEntry(newChild);
      assert node.ptes[..] == ps[idx := GetEntry(newChild)];
      node.table[idx] := newChild;
      assert node.table[..] == ts[idx := newChild];
      if oldChild.None? && !newChild.None? {
        node.nrChildren := node.nrChildren + 1;
      } else if !oldChild.None? && newChild.None? {
        node.nrChildren := node.nrChildren - 1;
      }
    }
  }
}
