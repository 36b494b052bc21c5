/** The children of a page-table node (ostd/src/mm/page_table/node/child.rs)
    and the page-table entries that encode them.  The entry type is the
    LoongArch one modelled in `LoongArchPte`; a page property is its page
    flags and privilege flags. */
module PtChild {

  import L = LoongArchPte

  /** `MapTrackingStatus`: whether a node's leaf pages are reference
      counted frames, untracked physical ranges, or neither (a node that
      holds only tables). */
  datatype Tracking = Tracked | Untracked | NotApplicable

  /** `PageProperty`: the page flags and the privilege flags.  The cache
      policy is not part of this model. */
  datatype Prop = Prop(flags: bv8, priv: bv8)

  /** `Child`: a handle owning what one entry maps.  A table is known by
      its address and level; a frame is always a base page (its `level()`
      is 1); an untracked page carries its own level. */
  datatype Child =
    | PageTable(paddr: bv64, level: nat)
    | Frame(paddr: bv64, prop: Prop)
    | Untracked(paddr: bv64, level: nat, prop: Prop)
    | None

  /** The level of a frame child: `Frame::level` is always 1. */
  const FRAME_LEVEL: nat := 1

  /** `Child::is_none`. */
  predicate IsNone(c: Child)
  {
    c.None?
  }

  /** `Child::is_compatible`: a table one level below the node, a frame at
      the node's level under a tracked node, an untracked page at the
      node's level under an untracked node, or nothing at all. */
  predicate IsCompatible(c: Child, nodeLevel: nat, tracked: Tracking)
  {
    match c
    case PageTable(_, level) => nodeLevel == level + 1
    case Frame(_, _) => nodeLevel == FRAME_LEVEL && tracked == Tracked
    case Untracked(_, level, _) => nodeLevel == level && tracked == Tracking.Untracked
    case None => true
  }

  /** The property `prop` reads back from an entry. */
  function ReadProp(pte: bv64): Prop
  {
    Prop(L.PropFlags(pte), L.PropPriv(pte))
  }

  /** What `prop` reads back from an entry whose property was set to `p`:
      the page flags the entry can hold with ACCESSED and DIRTY added, and
      the USER and GLOBAL privileges. */
  function ReadBack(p: Prop): Prop
  {
    Prop((p.flags & 0xC7) | L.ACCESSED | L.PF_DIRTY, p.priv & (L.USER | L.GLOBAL))
  }

  /** `Child::get_entry`: a table entry for a table, a page entry at the
      child's level with its property for a page, and the absent entry for
      nothing. */
  function GetEntry(c: Child): bv64
  {
    match c
    case PageTable(paddr, _) => L.NewPt(paddr)
    case Frame(paddr, prop) => L.NewPage(paddr, FRAME_LEVEL, prop.flags, prop.priv)
    case Untracked(paddr, level, prop) => L.NewPage(paddr, level, prop.flags, prop.priv)
    case None => L.ABSENT
  }

  /** A child whose address a LoongArch entry can hold: non-zero under
      the address mask (an entry with address 0 reads as absent) and, for
      a huge page, aligned past bit 12, which such an entry uses for
      GLOBAL. */
  predicate Encodable(c: Child)
  {
    match c
    case PageTable(paddr, level) => paddr & L.PHYS_ADDR_MASK != 0 && level >= 1
    case Frame(paddr, _) => paddr & L.PHYS_ADDR_MASK != 0
    case Untracked(paddr, level, _) =>
      paddr & L.PHYS_ADDR_MASK != 0 && level >= 1 && (level > 1 ==> paddr & L.GLOBAL_HUGE == 0)
    case None => true
  }

  /** An entry at a node of level `level` that maps the page at `paddr`
      with property `p`: present, last at that level, with flag bits, the
      page's address, and `p` read back. */
  predicate LeafEntry(pte: bv64, paddr: bv64, p: Prop, level: nat)
  {
    && L.IsPresent(pte) && L.IsLast(pte, level) && pte & L.FLAGS_MASK != 0
    && L.Paddr(pte) == paddr & L.PHYS_ADDR_MASK
    && ReadProp(pte) == ReadBack(p)
  }

  /** The entry `pte` of a node at level `level` stands for the child
      `c`: absent for nothing; for a table present, not last, without flag
      bits and with the table's address; for a page a leaf entry. */
  predicate Encodes(pte: bv64, c: Child, level: nat)
  {
    match c
    case None => !L.IsPresent(pte)
    case PageTable(paddr, _) =>
      && L.IsPresent(pte) && !L.IsLast(pte, level) && pte & L.FLAGS_MASK == 0
      && L.Paddr(pte) == paddr & L.PHYS_ADDR_MASK
    case Frame(paddr, p) => LeafEntry(pte, paddr, p, level)
    case Untracked(paddr, _, p) => LeafEntry(pte, paddr, p, level)
  }

  /** The entry a compatible child gives is one that stands for it: the
      absent entry for nothing, a table entry one level up for a table,
      and a leaf entry with the page's address and property for a page. */
  lemma GetEntryEncodes(c: Child, nodeLevel: nat, tracked: Tracking)
    requires IsCompatible(c, nodeLevel, tracked) && Encodable(c)
    ensures Encodes(GetEntry(c), c, nodeLevel)
  {
    if c.None? {
      L.AbsentIsNone();
    } else if c.PageTable? {
      TableChildEncodes(c, nodeLevel);
    } else {
      PageChildEncodes(c, nodeLevel);
    }
  }

  lemma TableChildEncodes(c: Child, nodeLevel: nat)
    requires c.PageTable? && nodeLevel == c.level + 1 && Encodable(c)
    ensures Encodes(GetEntry(c), c, nodeLevel)
  {
    assert c == PageTable(c.paddr, nodeLevel - 1);
    assert GetEntry(c) == L.NewPt(c.paddr);
    TableEntryEncodes(c.paddr, nodeLevel);
  }

  lemma PageChildEncodes(c: Child, nodeLevel: nat)
    requires c.Frame? ==> nodeLevel == FRAME_LEVEL
    requires c.Untracked? ==> nodeLevel == c.level
    requires (c.Frame? || c.Untracked?) && Encodable(c)
    ensures Encodes(GetEntry(c), c, nodeLevel)
  {
    var pte := L.NewPage(c.paddr, nodeLevel, c.prop.flags, c.prop.priv);
    assert GetEntry(c) == pte;
    PageEntryIsLeaf(c.paddr, nodeLevel, c.prop);
    LeafEncodes(pte, c, nodeLevel);
  }

  lemma LeafEncodes(pte: bv64, c: Child, level: nat)
    requires c.Frame? || c.Untracked?
    requires LeafEntry(pte, c.paddr, c.prop, level)
    ensures Encodes(pte, c, level)
  {
  }

  /** A table entry at level 2 or above stands for the table. */
  lemma TableEntryEncodes(paddr: bv64, nodeLevel: nat)
    requires nodeLevel > 1 && paddr & L.PHYS_ADDR_MASK != 0
    ensures Encodes(L.NewPt(paddr), PageTable(paddr, nodeLevel - 1), nodeLevel)
  {
    L.NewPtShape(paddr, nodeLevel);
    NewPtNoFlags(paddr);
  }

  lemma NewPtNoFlags(paddr: bv64)
    ensures L.NewPt(paddr) & L.FLAGS_MASK == 0
  {
  }

  /** A page entry is a leaf entry for its page at its level. */
  lemma PageEntryIsLeaf(paddr: bv64, level: nat, p: Prop)
    requires level >= 1 && paddr & L.PHYS_ADDR_MASK != 0
    requires level > 1 ==> paddr & L.GLOBAL_HUGE == 0
    ensures LeafEntry(L.NewPage(paddr, level, p.flags, p.priv), paddr, p, level)
  {
    PageEntryValid(paddr, level, p);
    L.NewPageLast(paddr, level, p.flags, p.priv);
    L.NewPageAddress(paddr, level, p.flags, p.priv);
    L.PropRoundTrip(paddr, level, p.flags, p.priv);
  }

  lemma PageEntryValid(paddr: bv64, level: nat, p: Prop)
    requires paddr & L.PHYS_ADDR_MASK != 0
    requires level > 1 ==> paddr & L.GLOBAL_HUGE == 0
    ensures L.IsPresent(L.NewPage(paddr, level, p.flags, p.priv))
    ensures L.NewPage(paddr, level, p.flags, p.priv) & L.FLAGS_MASK != 0
  {
    var base := L.NewPageBase(paddr, level);
    L.NewPageBaseAddress(paddr, level);
    L.NewPageBaseValid(paddr, level);
    L.SetPropStaysValid(base, p.flags, p.priv);
    ValidHasFlags(L.NewPage(paddr, level, p.flags, p.priv));
  }

  lemma ValidHasFlags(pte: bv64)
    requires pte & L.VALID != 0
    ensures pte & L.FLAGS_MASK != 0
  {
  }

  /** The entry tells the kind of child it stands for: it is absent
      exactly for nothing, and a node entry (present and not last) exactly
      for a table. */
  lemma EncodesKind(pte: bv64, c: Child, level: nat)
    requires Encodes(pte, c, level)
    ensures !L.IsPresent(pte) <==> IsNone(c)
    ensures L.IsPresent(pte) && !L.IsLast(pte, level) <==> c.PageTable?
  {
  }

  /** A child with its property replaced; tables and nothing have none. */
  function WithProp(c: Child, p: Prop): (r: Child)
    ensures r.None? == c.None? && r.PageTable? == c.PageTable?
    ensures r.Frame? || r.Untracked? ==> r.prop == p
  {
    match c
    case Frame(paddr, _) => Frame(paddr, p)
    case Untracked(paddr, level, _) => Child.Untracked(paddr, level, p)
    case _ => c
  }

  /** Replacing the property keeps a child compatible with its node and
      holdable by an entry. */
  lemma WithPropKeeps(c: Child, p: Prop, nodeLevel: nat, tracked: Tracking)
    ensures IsCompatible(WithProp(c, p), nodeLevel, tracked) == IsCompatible(c, nodeLevel, tracked)
    ensures Encodable(WithProp(c, p)) == Encodable(c)
  {
  }

  /** Setting a property on a present entry keeps it standing for its
      child, the child now carrying that property: a table entry gains no
      flag bits, and a leaf keeps its address and level and reads back the
      new property. */
  lemma SetPropEncodes(pte: bv64, c: Child, level: nat, p: Prop)
    requires Encodes(pte, c, level) && L.IsPresent(pte)
    ensures Encodes(L.SetProp(pte, p.flags, p.priv), WithProp(c, p), level)
  {
    if c.PageTable? {
      SetPropOnTable(pte, c, level, p);
    } else {
      SetPropOnLeaf(pte, c, level, p);
    }
  }

  lemma SetPropOnTable(pte: bv64, c: Child, level: nat, p: Prop)
    requires c.PageTable? && Encodes(pte, c, level)
    ensures Encodes(L.SetProp(pte, p.flags, p.priv), WithProp(c, p), level)
  {
    L.SetPropKeeps(pte, p.flags, p.priv);
    L.SetPropNoFlags(pte, p.flags, p.priv);
    TableKept(pte, L.SetProp(pte, p.flags, p.priv), c, level);
    assert WithProp(c, p) == c;
  }

  /** A word with a table entry's address and huge marker and no flag
      bits stands for the same table. */
  lemma TableKept(pte: bv64, n: bv64, c: Child, level: nat)
    requires c.PageTable? && Encodes(pte, c, level)
    requires L.Paddr(n) == L.Paddr(pte) && n & L.HUGE_MARKER == pte & L.HUGE_MARKER
    requires n & L.FLAGS_MASK == 0
    ensures Encodes(n, c, level)
  {
  }

  lemma SetPropOnLeaf(pte: bv64, c: Child, level: nat, p: Prop)
    requires (c.Frame? || c.Untracked?) && Encodes(pte, c, level)
    ensures Encodes(L.SetProp(pte, p.flags, p.priv), WithProp(c, p), level)
  {
    match c
    case Frame(paddr, q) =>
      SetPropLeafEntry(pte, paddr, q, level, p);
    case Untracked(paddr, _, q) =>
      SetPropLeafEntry(pte, paddr, q, level, p);
  }

  lemma SetPropLeafEntry(pte: bv64, paddr: bv64, old_p: Prop, level: nat, p: Prop)
    requires LeafEntry(pte, paddr, old_p, level)
    ensures LeafEntry(L.SetProp(pte, p.flags, p.priv), paddr, p, level)
  {
    var n := L.SetProp(pte, p.flags, p.priv);
    L.SetPropKeeps(pte, p.flags, p.priv);
    L.SetPropStaysValid(pte, p.flags, p.priv);
    ValidHasFlags(n);
    L.SetPropFlagsReadBack(pte, p.flags, p.priv);
    L.SetPropPrivReadBack(pte, p.flags, p.priv);
  }

  /** `protect` as written updates the entry but not the child kept in
      the node's table: a frame mapped read-only and protected to
      read-write still reads back as read-only from its child handle, so
      the entry no longer stands for the child. */
  lemma ProtectLeavesStaleChildAsWritten()
    ensures var c := Frame(0x1000, Prop(L.R, 0));
      var n := L.SetProp(GetEntry(c), L.R | L.W, 0);
      && !Encodes(n, c, FRAME_LEVEL)
      && Encodes(n, WithProp(c, Prop(L.R | L.W, 0)), FRAME_LEVEL)
  {
    var c := Frame(0x1000, Prop(L.R, 0));
    var pte := GetEntry(c);
    PageChildEncodes(c, FRAME_LEVEL);
    SetPropOnLeaf(pte, c, FRAME_LEVEL, Prop(L.R | L.W, 0));
    assert ReadBack(Prop(L.R | L.W, 0)) != ReadBack(c.prop);
  }
}
