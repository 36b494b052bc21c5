/** Page tables (ostd/src/mm/page_table.rs): the address range a mode
    covers, the index of an address in a node of each level, and the split
    of the root node between user space (the lower half of its entries)
    and the kernel (the upper half). */
module PageTables {

  import opened Common
  import opened Mm
  import opened PtChild
  import opened PtEntry

  /** `PageTableMode`: the user and kernel modes. */
  datatype Mode = UserMode | KernelMode

  /** `VADDR_RANGE`: `[0, MAX_USERSPACE_VADDR)` for user mode, the kernel
      address range for kernel mode. */
  function VaddrStart(m: Mode): nat
  {
    if m == UserMode then 0 else KERNEL_VADDR_START
  }

  function VaddrEnd(m: Mode): nat
  {
    if m == UserMode then MAX_USERSPACE_VADDR else KERNEL_VADDR_END
  }

  /** `covers`: the range `[start, end)` lies within the mode's range. */
  predicate Covers(m: Mode, start: nat, end: nat)
  {
    VaddrStart(m) <= start && end <= VaddrEnd(m)
  }

  /** The two modes' ranges are apart: a range both cover ends before it
      starts, so it holds no address. */
  lemma CoveredByBothIsEmpty(start: nat, end: nat)
    requires Covers(UserMode, start, end) && Covers(KernelMode, start, end)
    ensures end < start
  {
    assert end <= MAX_USERSPACE_VADDR < KERNEL_VADDR_START <= start;
  }

  /** `BASE_PAGE_SIZE.ilog2()` and `nr_pte_index_bits`: the page offset
      bits and the index bits of one level. */
  const PAGE_BITS: nat := 12
  const INDEX_BITS: nat := 9

  lemma IndexBits()
    ensures Pow2(PAGE_BITS) == BASE_PAGE_SIZE && Pow2(INDEX_BITS) == NrSubpagePerHuge() == NR_ENTRIES
  {
    SmallPowers();
  }

  /** The shift `pte_index` applies at a level: past the page offset and
      the index bits of every level below. */
  function IndexShift(level: nat): nat
    requires level >= 1
  {
    PAGE_BITS + INDEX_BITS * (level - 1)
  }

  /** `pte_index`: the address shifted right past the lower levels, under
      the mask `nr_subpage_per_huge - 1`.  A right shift of a 64-bit value
      is a division by a power of two, and the mask of a power of two
      minus one is the remainder by that power. */
  function PteIndex(va: u64, level: nat): (r: nat)
    requires level >= 1 && IndexShift(level) < 64
    ensures r < NR_ENTRIES
  {
    (va / Pow2(IndexShift(level))) % NrSubpagePerHuge()
  }

  /** The next page of a level, within 64 bits, sits in the next entry of
      the same node, the index wrapping round after the last entry. */
  lemma PteIndexNext(va: u64, level: nat)
    requires level >= 1 && IndexShift(level) < 64
    requires va + Pow2(IndexShift(level)) < USIZE_LIMIT
    ensures PteIndex(va + Pow2(IndexShift(level)), level) == (PteIndex(va, level) + 1) % NR_ENTRIES
  {
    var m := Pow2(IndexShift(level));
    var q := va / m;
    assert va + m == (q + 1) * m + va % m by {
      assert va == q * m + va % m;
      assert (q + 1) * m == q * m + m;
    }
    DivModUnique(va + m, m, q + 1, va % m);
    ModNext(q, NR_ENTRIES);
  }

  lemma ModNext(q: nat, n: nat)
    requires n > 0
    ensures (q + 1) % n == (q % n + 1) % n
  {
    var a, b := q / n, q % n;
    if b + 1 < n {
      DivModUnique(q + 1, n, a, b + 1);
    } else {
      DivModUnique(q + 1, n, a + 1, 0);
    }
  }

  /** The indices of consecutive levels are consecutive nine-bit fields:
      the address shifted past level `level` is 512 times the address
      shifted past the level above, plus the index at `level`. */
  lemma PteIndexLevels(va: u64, level: nat)
    requires level >= 1 && IndexShift(level + 1) < 64
    ensures va / Pow2(IndexShift(level)) == NR_ENTRIES * (va / Pow2(IndexShift(level + 1))) + PteIndex(va, level)
  {
    var m := Pow2(IndexShift(level));
    IndexBits();
    Pow2Add(IndexShift(level), INDEX_BITS);
    assert Pow2(IndexShift(level + 1)) == m * NR_ENTRIES;
    NestedDiv(va, m, NR_ENTRIES);
  }

  /** Index of the first kernel entry of a root node. */
  const HALF: nat := NR_ENTRIES / 2

  /** `PageTable`: a handle on a root node at the top level, in a mode. */
  class PageTable {
    const mode: Mode
    const root: Node

    ghost predicate Valid()
      reads this, root, root.ptes, root.table
    {
      root.Valid() && root.level == NR_LEVELS
    }

    constructor FromRoot(mode: Mode, root: Node)
      requires root.Valid() && root.level == NR_LEVELS
      ensures Valid() && this.mode == mode && this.root == root
    {
      this.mode := mode;
      this.root := root;
    }

    /** The roots of two tables share no node, page or children table. */
    ghost predicate Apart(other: Node)
      reads this, other
    {
      {root as object, root.ptes, root.table} !! {other as object, other.ptes, other.table}
    }

    /** `clear` (user mode): every lower-half root entry that maps
        something is replaced with `None`; the kernel half is left as it
        is. */
    method Clear()
      requires Valid() && mode == UserMode
      modifies root, root.ptes, root.table
      ensures Valid()
      ensures root.table[..] == seq(HALF, _ => Child.None) + old(root.table[..])[HALF..]
      ensures root.ptes[..][HALF..] == old(root.ptes[..])[HALF..]
      ensures root.nrChildren == Occupied(old(root.table[..])[HALF..])
    {
      for i := 0 to HALF
        invariant Valid()
        invariant root.table[..] == seq(i, _ => Child.None) + old(root.table[..])[i..]
        invariant root.ptes[..][HALF..] == old(root.ptes[..])[HALF..]
      {
        ghost var ps, ts := root.ptes[..], root.table[..];
        ClearEntry(i);
        SuffixAfterWrite(ps, i, root.ptes[i], HALF);
        FillStep(ts, i, Child.None, old(root.table[..])[i..]);
      }
      ClearedCount(root.table[..], old(root.table[..]), HALF);
    }

    /** One step of `clear`: the entry at `i` is replaced with `None` if
        it is not `None` already. */
    method ClearEntry(i: nat)
      requires Valid() && i < NR_ENTRIES
      modifies root, root.ptes, root.table
      ensures Valid()
      ensures root.table[..] == old(root.table[..])[i := Child.None]
      ensures root.ptes[..] == old(root.ptes[..])[i := root.ptes[i]]
    {
      var entry := new Entry.NewAt(root, i);
      if !entry.IsNone() {
        var _ := entry.Replace(Child.None);
      } else {
        assert root.table[..] == old(root.table[..])[i := Child.None];
      }
    }

    /** `create_user_page_table` (kernel mode): a new root at the top level
        whose lower half is empty and whose upper half holds the kernel
        root's children.  The kernel root must hold only tables in its upper
        half, as `replace` requires of a node without tracking status. */
    method CreateUserPageTable() returns (user: PageTable)
      requires Valid() && mode == KernelMode
      requires forall i :: HALF <= i < NR_ENTRIES ==> IsCompatible(root.table[i], NR_LEVELS, NotApplicable)
      ensures fresh(user) && fresh(user.root) && fresh(user.root.ptes) && fresh(user.root.table)
      ensures user.Valid() && user.mode == UserMode && user.root.tracked == NotApplicable
      ensures user.root.table[..] == seq(HALF, _ => Child.None) + root.table[..][HALF..]
    {
      var node := new Node.AllocEmpty(NR_LEVELS, NotApplicable);
      assert node.table[..] == seq(HALF, _ => Child.None) + seq(NR_ENTRIES - HALF, _ => Child.None);
      CopyKernelHalf(node);
      user := new PageTable.FromRoot(UserMode, node);
    }

    /** The loop of `create_user_page_table`: the upper-half children of
        the kernel root go into the same slots of an empty new root. */
    method CopyKernelHalf(node: Node)
      requires Valid() && node.Valid() && Apart(node)
      requires node.level == NR_LEVELS && node.tracked == NotApplicable
      requires forall i :: HALF <= i < NR_ENTRIES ==> IsCompatible(root.table[i], NR_LEVELS, NotApplicable)
      requires node.table[..] == seq(HALF, _ => Child.None) + seq(NR_ENTRIES - HALF, _ => Child.None)
      modifies node, node.ptes, node.table
      ensures node.Valid()
      ensures node.table[..] == seq(HALF, _ => Child.None) + root.table[..][HALF..]
    {
      ghost var kernel := root.table[..];
      for i := HALF to NR_ENTRIES
        invariant node.Valid()
        invariant root.table[..] == kernel
        invariant node.table[..] == seq(HALF, _ => Child.None) + kernel[HALF..i] + seq(NR_ENTRIES - i, _ => Child.None)
      {
        ghost var ts := node.table[..];
        CopyStep(ts, i, kernel, HALF, Child.None);
        CopyKernelEntry(node, i);
        assert node.table[..] == ts[i := kernel[i]];
      }
      assert kernel[HALF..NR_ENTRIES] == kernel[HALF..];
    }

    /** One step of `create_user_page_table`: the kernel root's child at
        `i`, if any, is put in the same slot of the new root. */
    method CopyKernelEntry(node: Node, i: nat)
      requires Valid() && node.Valid() && Apart(node) && i < NR_ENTRIES
      requires node.level == NR_LEVELS && node.tracked == NotApplicable && node.table[i].None?
      requires IsCompatible(root.table[i], NR_LEVELS, NotApplicable)
      modifies node, node.ptes, node.table
      ensures node.Valid()
      ensures node.table[..] == old(node.table[..])[i := root.table[i]]
    {
      var rootEntry := new Entry.NewAt(root, i);
      if !rootEntry.IsNone() {
        var child := rootEntry.ToOwned();
        var entry := new Entry.NewAt(node, i);
        assert SlotOk(root.ptes[..][i], root.table[..][i], root.level, root.tracked);
        var _ := entry.Replace(child);
      } else {
        assert node.table[..] == old(node.table[..])[i := root.table[i]];
      }
    }
  }

  /** Setting the first slot past a run of `x` extends the run. */
  lemma FillStep<T>(s: seq<T>, i: nat, x: T, t: seq<T>)
    requires s == seq(i, _ => x) + t && |t| >= 1
    ensures s[i := x] == seq(i + 1, _ => x) + t[1..]
  {
    assert s[i := x] == seq(i, _ => x) + [x] + t[1..];
  }

  /** Copying slot `i` of `k` into an empty slot moves the copied part one
      slot on. */
  lemma CopyStep<T>(s: seq<T>, i: nat, k: seq<T>, h: nat, x: T)
    requires h <= i < |k|
    requires s == seq(h, _ => x) + k[h..i] + seq(|k| - i, _ => x)
    ensures s[i] == x
    ensures s[i := k[i]] == seq(h, _ => x) + k[h..i + 1] + seq(|k| - i - 1, _ => x)
  {
    assert s[i := k[i]] == seq(h, _ => x) + k[h..i + 1] + seq(|k| - i - 1, _ => x);
  }

  /** Writing slot `i` leaves every slot from `k > i` on as it was. */
  lemma SuffixAfterWrite<T>(s: seq<T>, i: nat, x: T, k: nat)
    requires i < k <= |s|
    ensures s[i := x][k..] == s[k..]
  {
  }

  /** A table whose first `k` children are `None` counts only the rest. */
  lemma ClearedCount(t: seq<Child>, o: seq<Child>, k: nat)
    requires k <= |o| && t == seq(k, _ => Child.None) + o[k..]
    ensures Occupied(t) == Occupied(o[k..])
  {
    OccupiedSplit(t, k);
    assert t[..k] == seq(k, _ => Child.None);
    OccupiedNone(t[..k]);
    assert t[k..] == o[k..];
  }

  /** The count of a table is the count of its two parts. */
  lemma {:induction false} OccupiedSplit(s: seq<Child>, k: nat)
    requires k <= |s|
    ensures Occupied(s) == Occupied(s[..k]) + Occupied(s[k..])
    decreases |s|
  {
    if k < |s| {
      var n := |s| - 1;
      OccupiedSplit(s[..n], k);
      assert s[..n][..k] == s[..k];
      assert s[k..][..|s[k..]| - 1] == s[..n][k..];
    } else {
      assert s[k..] == [];
      assert s[..k] == s;
    }
  }
}
