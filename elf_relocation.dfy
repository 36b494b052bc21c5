/** Relocation bookkeeping of the ELF loader
    (vendor/elf_loader/src/relocation.rs): how a weak symbol resolves,
    how `ElfRelocation::new` splits the dynamic relocation table into
    relative, PLT and other entries, and which words the packed RELR
    format relocates.

    A relocation table is a `Slice`: its first entry's address and its
    entry count.  An absent table is the empty slice `&[]`, whose address
    is the entry type's alignment.  A slice index out of bounds or a
    subtraction below zero panics; such calls give `None`. */
module ElfRelocations {
  import opened Common
  import opened ElfArch

  /** Size and alignment of an `Elf64_Rela` entry. */
  const RELA_SIZE: nat := 24
  const RELA_ALIGN: nat := 8

  /** The number of slots a RELR bitmap word covers. */
  const RELR_BITMAP_SLOTS: nat := 63

  datatype Slice = Slice(addr: nat, len: nat)
  {
    /** The address just past the last entry. */
    function End(): nat
    {
      addr + len * RELA_SIZE
    }
  }

  const EMPTY: Slice := Slice(RELA_ALIGN, 0)

  /** Where the relative relocations come from: the front of the dynamic
      table, or a packed RELR table. */
  datatype RelativeRel = Rel(rel: Slice) | Relr(relr: Slice)
  {
    function Len(): nat
    {
      match this
      case Rel(s) => s.len
      case Relr(s) => s.len
    }
  }

  datatype ElfRelocation = ElfRelocation(relative: RelativeRel, pltrel: Slice, dynrel: Slice)

  /** How `find_weak` resolves a symbol. */
  datatype WeakLookup =
    | Found(sym: Option<Symbol>)  // `Some(SymDef)`; `None` inside for a weak undefined symbol
    | NotFound
    | AssertFails                 // a weak undefined symbol with a nonzero value

  /** `find_weak`: a weak undefined symbol resolves to nothing in
      particular (its slot is filled with zero), a symbol with a value to
      itself, anything else not at all. */
  function FindWeak(s: Symbol): (r: WeakLookup)
    ensures r == Found(None) <==> IsWeak(s) && IsUndef(s) && s.stValue == 0
    ensures r == AssertFails <==> IsWeak(s) && IsUndef(s) && s.stValue != 0
    ensures r == Found(Some(s)) <==> !(IsWeak(s) && IsUndef(s)) && s.stValue != 0
    ensures r == NotFound <==> !(IsWeak(s) && IsUndef(s)) && s.stValue == 0
  {
    if IsWeak(s) && IsUndef(s) then
      if s.stValue == 0 then Found(None) else AssertFails
    else if s.stValue != 0 then Found(Some(s))
    else NotFound
  }

  function OrEmpty(s: Option<Slice>): Slice
  {
    if s.Some? then s.value else EMPTY
  }

  /** `ElfRelocation::new`.  With a RELR table the other two tables are
      kept whole.  Without one, the first `rela_count` entries of the
      dynamic table are the relative ones, and when the PLT table ends
      where the dynamic table ends, that tail is cut off the rest. */
  function New(pltrel: Option<Slice>, dynrel: Option<Slice>, relr: Option<Slice>, relaCount: Option<nat>): (r: Option<ElfRelocation>)
    ensures relr.Some? ==> r == Some(ElfRelocation(Relr(relr.value), OrEmpty(pltrel), OrEmpty(dynrel)))
    ensures relr.None? ==>
      var d := OrEmpty(dynrel);
      var p := OrEmpty(pltrel);
      var n := if relaCount.Some? then relaCount.value else 0;
      var tail := d.End() == p.End();
      && (r.None? <==> n > d.len || (tail && p.len > d.len - n))
      && (r.Some? ==>
            && r.value.relative == Rel(Slice(d.addr, n))
            && r.value.pltrel == p
            && r.value.dynrel.addr == d.addr + n * RELA_SIZE
            && r.value.dynrel.len == d.len - n - (if tail then p.len else 0))
  {
    if relr.Some? then
      Some(ElfRelocation(Relr(relr.value), OrEmpty(pltrel), OrEmpty(dynrel)))
    else
      var nrelative := if relaCount.Some? then relaCount.value else 0;
      var oldDynrel := OrEmpty(dynrel);
      if nrelative > oldDynrel.len then None
      else
        var relative := Slice(oldDynrel.addr, nrelative);
        var tempDynrel := Slice(oldDynrel.addr + nrelative * RELA_SIZE, oldDynrel.len - nrelative);
        var plt := OrEmpty(pltrel);
        if oldDynrel.End() == plt.End() then
          if plt.len > tempDynrel.len then None
          else Some(ElfRelocation(Rel(relative), plt, Slice(tempDynrel.addr, tempDynrel.len - plt.len)))
        else
          Some(ElfRelocation(Rel(relative), plt, tempDynrel))
  }

  /** When the PLT table is the dynamic table's tail, the relative
      entries, the remaining entries and the PLT entries lie back to back
      and together make up the whole dynamic table. */
  lemma NewPartitions(pltrel: Slice, dynrel: Slice, relaCount: Option<nat>)
    requires dynrel.End() == pltrel.End()
    requires New(Some(pltrel), Some(dynrel), None, relaCount).Some?
    ensures var r := New(Some(pltrel), Some(dynrel), None, relaCount).value;
      && r.relative.rel.addr == dynrel.addr
      && r.relative.rel.End() == r.dynrel.addr
      && r.dynrel.End() == r.pltrel.addr
      && r.pltrel.End() == dynrel.End()
      && r.relative.Len() + r.dynrel.len + r.pltrel.len == dynrel.len
  {
    var r := New(Some(pltrel), Some(dynrel), None, relaCount).value;
    var n := r.relative.rel.len;
    assert r.dynrel.End() == dynrel.addr + n * RELA_SIZE + (dynrel.len - n - pltrel.len) * RELA_SIZE;
  }

  /** `is_empty`: nothing to relocate. */
  predicate IsEmpty(r: ElfRelocation)
  {
    r.relative.Len() == 0 && r.dynrel.len == 0 && r.pltrel.len == 0
  }

  /** A relocation built from empty tables is empty, and one with a
      nonempty dynamic table and no RELR table is not. */
  lemma NewEmpty(relaCount: Option<nat>)
    ensures New(None, None, None, relaCount) == (if relaCount.Some? && relaCount.value > 0 then None
      else Some(ElfRelocation(Rel(Slice(RELA_ALIGN, 0)), EMPTY, EMPTY)))
    ensures New(None, None, None, relaCount).Some? ==> IsEmpty(New(None, None, None, relaCount).value)
  {
  }

  lemma NewNonEmpty(pltrel: Option<Slice>, dynrel: Slice, relaCount: Option<nat>)
    requires dynrel.len > 0
    requires New(pltrel, Some(dynrel), None, relaCount).Some?
    ensures !IsEmpty(New(pltrel, Some(dynrel), None, relaCount).value)
  {
  }

  /** Bit `j` of `b`. */
  predicate Bit(b: nat, j: nat)
    decreases j
  {
    if j == 0 then b % 2 == 1 else Bit(b / 2, j - 1)
  }

  /** A set bit is worth its power of two. */
  lemma {:induction false} BitBelow(b: nat, j: nat)
    requires Bit(b, j)
    ensures Pow2(j) <= b
    decreases j
  {
    if j > 0 {
      BitBelow(b / 2, j - 1);
    }
  }

  /** The words a RELR bitmap relocates, as the decoding loop visits them:
      shift the bitmap right, and if the new low bit is set relocate the
      slot `idx` words after `cur`. */
  function BitmapSlots(b: nat, cur: nat, idx: nat): seq<nat>
    decreases b
  {
    if b == 0 then []
    else
      var b1 := b / 2;
      (if b1 % 2 == 1 then [cur + WORD_BYTES * idx] else []) + BitmapSlots(b1, cur, idx + 1)
  }

  /** `a` is the slot bit `j` of a bitmap stands for, when the bitmap's
      first slot is `idx` words after `cur`. */
  predicate SlotOf(b: nat, cur: nat, idx: nat, a: nat, j: nat)
  {
    1 <= j && Bit(b, j) && a == cur + WORD_BYTES * (idx + j - 1)
  }

  /** An address is relocated by a bitmap exactly when it is the slot of a
      set bit other than the lowest. */
  lemma {:induction false} BitmapSlotsMembers(b: nat, cur: nat, idx: nat, a: nat)
    ensures a in BitmapSlots(b, cur, idx) <==> exists j: nat :: SlotOf(b, cur, idx, a, j)
    decreases b
  {
    if b > 0 {
      var b1 := b / 2;
      var head := if b1 % 2 == 1 then [cur + WORD_BYTES * idx] else [];
      assert BitmapSlots(b, cur, idx) == head + BitmapSlots(b1, cur, idx + 1);
      BitmapSlotsMembers(b1, cur, idx + 1, a);
      if a in BitmapSlots(b, cur, idx) {
        if a in head {
          assert SlotOf(b, cur, idx, a, 1);
        } else {
          var j: nat :| SlotOf(b1, cur, idx + 1, a, j);
          assert SlotOf(b, cur, idx, a, j + 1);
        }
      }
      if exists j: nat :: SlotOf(b, cur, idx, a, j) {
        var j: nat :| SlotOf(b, cur, idx, a, j);
        if j > 1 {
          assert SlotOf(b1, cur, idx + 1, a, j - 1);
        } else {
          assert a in head;
        }
      }
    } else {
      if exists j: nat :: SlotOf(b, cur, idx, a, j) {
        var j: nat :| SlotOf(b, cur, idx, a, j);
        BitBelow(b, j);
        assert false;
      }
    }
  }

  /** A bitmap word covers the 63 words after the cursor: bit `j` (1 to 63)
      stands for the word `j - 1` slots on. */
  lemma BitmapWord(w: u64, cur: nat, a: nat)
    ensures a in BitmapSlots(w, cur, 0) <==> exists j: nat :: j <= RELR_BITMAP_SLOTS && SlotOf(w, cur, 0, a, j)
  {
    BitmapSlotsMembers(w, cur, 0, a);
    if a in BitmapSlots(w, cur, 0) {
      var j: nat :| SlotOf(w, cur, 0, a, j);
      BitBelow(w, j);
      if j > RELR_BITMAP_SLOTS {
        Pow2Mono(WORD_BITS, j);
        Pow2Word();
        assert false;
      }
      assert j <= RELR_BITMAP_SLOTS && SlotOf(w, cur, 0, a, j);
    }
  }

  /** The words a RELR table relocates, decoded from the front.  An even
      word is the address of a word to relocate, and the cursor moves to
      the word after it; an odd word is a bitmap over the 63 words from
      the cursor, and the cursor moves past them.  The cursor starts
      null: a bitmap that relocates a word before any address has been
      seen writes through it, and the decoding faults (`None`). */
  function RelrDecode(words: seq<u64>, cursor: Option<nat>, acc: seq<nat>): (r: Option<seq<nat>>)
    ensures r.Some? ==> |r.value| >= |acc| && r.value[..|acc|] == acc
    decreases |words|
  {
    if |words| == 0 then Some(acc)
    else
      var w := words[0];
      if w % 2 == 0 then RelrDecode(words[1..], Some(w + WORD_BYTES), acc + [w])
      else if cursor.None? then
        if BitmapSlots(w, 0, 0) == [] then RelrDecode(words[1..], None, acc) else None
      else
        RelrDecode(words[1..], Some(cursor.value + WORD_BYTES * RELR_BITMAP_SLOTS),
                   acc + BitmapSlots(w, cursor.value, 0))
  }

  /** How many words a bitmap relocates does not depend on where. */
  lemma {:induction false} BitmapSlotsLength(b: nat, c1: nat, i1: nat, c2: nat, i2: nat)
    ensures |BitmapSlots(b, c1, i1)| == |BitmapSlots(b, c2, i2)|
    decreases b
  {
    if b > 0 {
      BitmapSlotsLength(b / 2, c1, i1 + 1, c2, i2 + 1);
    }
  }

  /** The bitmap step of the RELR loop: each set bit above the lowest
      relocates its slot after the cursor; with the cursor still null,
      the first such bit writes through it (`None`). */
  method ApplyBitmap(value: u64, relocAddr: Option<nat>, out: seq<nat>) returns (r: Option<seq<nat>>)
    ensures relocAddr.Some? ==> r == Some(out + BitmapSlots(value, relocAddr.value, 0))
    ensures relocAddr.None? ==> r == (if BitmapSlots(value, 0, 0) == [] then Some(out) else None)
  {
    var acc: seq<nat> := out;
    ghost var cur := if relocAddr.None? then 0 else relocAddr.value;
    var bitmap: nat := value;
    var idx := 0;
    while bitmap != 0
      invariant acc + BitmapSlots(bitmap, cur, idx) == out + BitmapSlots(value, cur, 0)
      invariant relocAddr.None? ==> acc == out
      decreases bitmap
    {
      ghost var prev := bitmap;
      bitmap := bitmap / 2;
      assert BitmapSlots(prev, cur, idx)
        == (if bitmap % 2 == 1 then [cur + WORD_BYTES * idx] else []) + BitmapSlots(bitmap, cur, idx + 1);
      if bitmap % 2 != 0 {
        if relocAddr.None? {
          return None;
        }
        acc := acc + [relocAddr.value + WORD_BYTES * idx];
      }
      idx := idx + 1;
    }
    assert acc + BitmapSlots(bitmap, cur, idx) == acc;
    return Some(acc);
  }

  /** The RELR half of `relocate_relative`: the words it relocates, in
      order, or `None` when it writes through the null cursor. */
  method RelocateRelr(words: seq<u64>) returns (r: Option<seq<nat>>)
    ensures r == RelrDecode(words, None, [])
  {
    var relocAddr: Option<nat> := None;
    var out: seq<nat> := [];
    var i := 0;
    while i < |words|
      invariant i <= |words|
      invariant RelrDecode(words[i..], relocAddr, out) == RelrDecode(words, None, [])
    {
      var value := words[i];
      assert words[i..][0] == value && words[i..][1..] == words[i + 1..];
      ghost var before := RelrDecode(words[i..], relocAddr, out);
      if value % 2 == 0 {
        assert before == RelrDecode(words[i + 1..], Some(value + WORD_BYTES), out + [value]);
        out := out + [value];
        relocAddr := Some(value + WORD_BYTES);
      } else {
        var o := ApplyBitmap(value, relocAddr, out);
        if o.None? {
          assert before == None;
          return None;
        }
        out := o.value;
        if relocAddr.Some? {
          relocAddr := Some(relocAddr.value + WORD_BYTES * RELR_BITMAP_SLOTS);
        }
        assert before == RelrDecode(words[i + 1..], relocAddr, out);
      }
      i := i + 1;
    }
    assert words[|words|..] == [];
    r := Some(out);
  }
}
