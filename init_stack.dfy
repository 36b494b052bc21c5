/** The initial user stack of a new process
    (kernel/src/thread/init_stack.rs): the strings of the arguments and
    the environment, sixteen random bytes, then, 16-byte aligned, the
    auxiliary vector, the environment and argument pointer arrays and the
    argument count, written downwards from the top.

    The stack's memory object (VMO) is a collaborator: a write inside it
    succeeds, a write outside it fails with the error it reports,
    `writeError`.  What the writer stores is kept as two maps by address,
    one for the 8-byte words and one for the byte strings; they never
    overlap because every write goes below the previous one.  Subtractions
    on addresses wrap as `usize` arithmetic does in a release build. */
module InitStack {

  import opened Common
  import opened Errors
  import opened Mm

  const NR_FIXED_PADDING_PAGES: nat := 7
  /** 8 MiB, the default Linux stack limit. */
  const INIT_STACK_SIZE: nat := 8 * 1024 * 1024

  const WORD_MOD: nat := 0x1_0000_0000_0000_0000

  /** `usize` subtraction wrapping at 2^64. */
  function Wrap(x: int): (r: u64)
    ensures 0 <= x < WORD_MOD ==> r == x
  {
    x % WORD_MOD
  }

  // ----- the auxiliary vector -----------------------------------------------

  /** `AuxKey`: the defined `AT_` numbers. */
  type AuxKey = k: nat | k <= 17 || 23 <= k <= 26 || 31 <= k <= 33

  const AT_NULL: AuxKey := 0
  const AT_IGNORE: AuxKey := 1
  const AT_PAGESZ: AuxKey := 6
  const AT_RANDOM: AuxKey := 25

  class AuxVec {
    var table: map<AuxKey, u64>

    constructor()
      ensures table == map[]
    {
      table := map[];
    }

    /** `set`: AT_NULL and AT_IGNORE are EINVAL; any other key takes the
        value, replacing an earlier one. */
    method Set(key: AuxKey, val: u64) returns (r: Result<(), Errno>)
      modifies this
      ensures key == AT_NULL || key == AT_IGNORE ==> r == Err(EINVAL) && table == old(table)
      ensures key != AT_NULL && key != AT_IGNORE ==> r == Ok(()) && table == old(table)[key := val]
      ensures r.Ok? ==> Get(key) == Some(val)
    {
      if key == AT_NULL || key == AT_IGNORE {
        return Err(EINVAL);
      }
      table := table[key := val];
      return Ok(());
    }

    /** `get`: the value set for the key, if any. */
    function Get(key: AuxKey): (r: Option<u64>)
      reads this
      ensures r.Some? <==> key in table
      ensures r.Some? ==> r.value == table[key]
    {
      if key in table then Some(table[key]) else None
    }

    /** `del`: the key goes, and its value, if any, comes back. */
    method Del(key: AuxKey) returns (r: Option<u64>)
      modifies this
      ensures r == old(Get(key))
      ensures table == old(table) - {key}
      ensures Get(key) == None
    {
      r := Get(key);
      table := table - {key};
    }
  }

  /** The keys of an auxiliary table from `k` on, in the order a `BTreeMap`
      iterates in (increasing, by `KeysFromSorted`). */
  function KeysFrom(m: map<AuxKey, u64>, k: nat): (r: seq<AuxKey>)
    ensures forall i :: 0 <= i < |r| ==> r[i] in m && r[i] >= k
    decreases 34 - k
  {
    if k > 33 then []
    else if k <= 17 || 23 <= k <= 26 || 31 <= k <= 33 then
      (if k as AuxKey in m then [k as AuxKey] else []) + KeysFrom(m, k + 1)
    else KeysFrom(m, k + 1)
  }

  /** The walk lists the keys in strictly increasing order. */
  lemma {:induction false} KeysFromSorted(m: map<AuxKey, u64>, k: nat)
    ensures forall i, j :: 0 <= i < j < |KeysFrom(m, k)| ==> KeysFrom(m, k)[i] < KeysFrom(m, k)[j]
    decreases 34 - k
  {
    if k <= 33 {
      KeysFromSorted(m, k + 1);
    }
  }

  /** Every key from `k` on is listed. */
  lemma {:induction false} KeysFromComplete(m: map<AuxKey, u64>, k: nat, key: AuxKey)
    requires key in m && key >= k
    ensures key in KeysFrom(m, k)
    decreases 34 - k
  {
    if key > k {
      KeysFromComplete(m, k + 1, key);
    }
  }

  /** The keys from `k` on, as a set. */
  function KeysAbove(m: map<AuxKey, u64>, k: nat): set<AuxKey>
  {
    set x | x in m && x >= k
  }

  /** There are as many listed keys as keys in the table. */
  lemma {:induction false} KeysFromCount(m: map<AuxKey, u64>, k: nat)
    ensures |KeysFrom(m, k)| == |KeysAbove(m, k)|
    decreases 34 - k
  {
    if k > 33 {
      assert KeysAbove(m, k) == {};
    } else {
      KeysFromCount(m, k + 1);
      if k <= 17 || 23 <= k <= 26 || 31 <= k <= 33 {
        if k as AuxKey in m {
          assert KeysAbove(m, k) == KeysAbove(m, k + 1) + {k as AuxKey};
        } else {
          assert KeysAbove(m, k) == KeysAbove(m, k + 1);
        }
      } else {
        assert KeysAbove(m, k) == KeysAbove(m, k + 1);
      }
    }
  }

  lemma AllKeys(m: map<AuxKey, u64>)
    ensures |KeysFrom(m, 0)| == |m|
  {
    KeysFromCount(m, 0);
    assert KeysAbove(m, 0) == m.Keys;
  }

  /** The words `write_aux_vec` writes for the pairs, in order: the value,
      then the key, for each key in increasing order. */
  function AuxWords(m: map<AuxKey, u64>, keys: seq<AuxKey>): (r: seq<u64>)
    requires forall i :: 0 <= i < |keys| ==> keys[i] in m
    ensures |r| == 2 * |keys|
    ensures forall i :: 0 <= i < |keys| ==> r[2 * i] == m[keys[i]] && r[2 * i + 1] == keys[i]
  {
    if keys == [] then []
    else [m[keys[0]], keys[0] as u64] + AuxWords(m, keys[1..])
  }

  function Reverse<T>(s: seq<T>): (r: seq<T>)
    ensures |r| == |s|
  {
    if s == [] then [] else Reverse(s[1..]) + [s[0]]
  }

  lemma {:induction false} ReverseIndex<T>(s: seq<T>, i: nat)
    requires i < |s|
    ensures Reverse(s)[i] == s[|s| - 1 - i]
  {
    if i < |s| - 1 {
      ReverseIndex(s[1..], i);
    }
  }

  /** Everything written after the alignment padding, in the order it is
      written: the terminating AT_NULL pair, the auxiliary pair words `aux`,
      the environment pointers with their null, the argument pointers with
      their null, and the count. */
  function TailWords(aux: seq<u64>, envpPtrs: seq<u64>, argvPtrs: seq<u64>, argc: u64): seq<u64>
  {
    [0, AT_NULL as u64] + aux + ([0] + Reverse(envpPtrs)) + ([0] + Reverse(argvPtrs)) + [argc]
  }

  lemma {:induction false} ReverseAppend<T>(x: seq<T>, y: seq<T>)
    ensures Reverse(x + y) == Reverse(y) + Reverse(x)
  {
    if x == [] {
      assert x + y == y;
      assert Reverse(y) + Reverse(x) == Reverse(y);
    } else {
      assert (x + y)[1..] == x[1..] + y;
      assert (x + y)[0] == x[0];
      ReverseAppend(x[1..], y);
      assert Reverse(y) + Reverse(x[1..]) + [x[0]] == Reverse(y) + (Reverse(x[1..]) + [x[0]]);
    }
  }

  lemma {:induction false} ReverseReverse<T>(x: seq<T>)
    ensures Reverse(Reverse(x)) == x
  {
    if x != [] {
      ReverseAppend(Reverse(x[1..]), [x[0]]);
      ReverseReverse(x[1..]);
      assert Reverse([x[0]]) == [x[0]];
    }
  }

  /** The words from the final stack pointer upwards: the count, the
      argument pointers and a null, the environment pointers and a null,
      then the auxiliary pair words backwards, ending with the AT_NULL
      pair. */
  function Image(aux: seq<u64>, envpPtrs: seq<u64>, argvPtrs: seq<u64>, argc: u64): seq<u64>
  {
    [argc] + (argvPtrs + [0]) + (envpPtrs + [0]) + Reverse(aux) + [AT_NULL as u64, 0]
  }

  /** The words written last are the lowest, so reading upwards gives the
      written tail backwards. */
  lemma ImageReversesTail(aux: seq<u64>, envpPtrs: seq<u64>, argvPtrs: seq<u64>, argc: u64)
    ensures Reverse(TailWords(aux, envpPtrs, argvPtrs, argc)) == Image(aux, envpPtrs, argvPtrs, argc)
  {
    var p: seq<u64> := [0, AT_NULL as u64];
    var ev := [0] + Reverse(envpPtrs);
    var av := [0] + Reverse(argvPtrs);
    assert Reverse(p) == [AT_NULL as u64, 0] by {
      ReverseAppend([0], [AT_NULL as u64]);
    }
    assert Reverse(ev) == envpPtrs + [0] by {
      ReverseAppend([0], Reverse(envpPtrs));
      ReverseReverse(envpPtrs);
    }
    assert Reverse(av) == argvPtrs + [0] by {
      ReverseAppend([0], Reverse(argvPtrs));
      ReverseReverse(argvPtrs);
    }
    assert Reverse([argc]) == [argc];
    ReverseFive(p, aux, ev, av, [argc]);
  }

  lemma ReverseFive<T>(a: seq<T>, b: seq<T>, c: seq<T>, d: seq<T>, e: seq<T>)
    ensures Reverse(a + b + c + d + e) == Reverse(e) + Reverse(d) + Reverse(c) + Reverse(b) + Reverse(a)
  {
    ReverseAppend(a + b + c + d, e);
    ReverseAppend(a + b + c, d);
    ReverseAppend(a + b, c);
    ReverseAppend(a, b);
    var re, rd, rc, rb, ra := Reverse(e), Reverse(d), Reverse(c), Reverse(b), Reverse(a);
    assert re + (rd + (rc + (rb + ra))) == re + rd + rc + rb + ra by {
      AppendAssoc(rc, rb, ra);
      AppendAssoc(rd, rc + rb, ra);
      AppendAssoc(rd, rc, rb);
      AppendAssoc(re, rd + rc + rb, ra);
      AppendAssoc(re, rd + rc, rb);
      AppendAssoc(re, rd, rc);
    }
  }

  lemma AppendAssoc<T>(x: seq<T>, y: seq<T>, z: seq<T>)
    ensures x + (y + z) == x + y + z
  {
  }

  /** Where each part of the image sits. */
  lemma ImageLayout(aux: seq<u64>, envpPtrs: seq<u64>, argvPtrs: seq<u64>, argc: u64)
    ensures var img := Image(aux, envpPtrs, argvPtrs, argc);
      var a := |argvPtrs|;
      var e := |envpPtrs|;
      && |img| == 1 + (a + 1) + (e + 1) + |aux| + 2
      && img[0] == argc
      && img[1..1 + a] == argvPtrs
      && img[1 + a] == 0
      && img[2 + a..2 + a + e] == envpPtrs
      && img[2 + a + e] == 0
      && img[3 + a + e..3 + a + e + |aux|] == Reverse(aux)
      && img[3 + a + e + |aux|] == AT_NULL && img[4 + a + e + |aux|] == 0
  {
    var img := Image(aux, envpPtrs, argvPtrs, argc);
    var head := [argc] + (argvPtrs + [0]) + (envpPtrs + [0]);
    assert img == head + Reverse(aux) + [AT_NULL as u64, 0];
  }

  /** Read backwards, the pair words give each key before its value, the
      largest key first: reading upwards the stack holds (key, value)
      pairs. */
  lemma PairsBackwards(table: map<AuxKey, u64>, keys: seq<AuxKey>)
    requires forall i :: 0 <= i < |keys| ==> keys[i] in table
    ensures var aux := AuxWords(table, keys);
      forall j :: 0 <= j < |keys| ==>
        aux[2 * |keys| - 1 - 2 * j] == keys[|keys| - 1 - j] && aux[2 * |keys| - 2 - 2 * j] == table[keys[|keys| - 1 - j]]
  {
    var aux := AuxWords(table, keys);
    forall j | 0 <= j < |keys|
      ensures aux[2 * |keys| - 1 - 2 * j] == keys[|keys| - 1 - j] && aux[2 * |keys| - 2 - 2 * j] == table[keys[|keys| - 1 - j]]
    {
      PairAt(aux, table, keys, j);
    }
  }

  lemma PairAt(aux: seq<u64>, table: map<AuxKey, u64>, keys: seq<AuxKey>, j: nat)
    requires forall k :: 0 <= k < |keys| ==> keys[k] in table
    requires aux == AuxWords(table, keys) && j < |keys|
    ensures aux[2 * |keys| - 1 - 2 * j] == keys[|keys| - 1 - j]
    ensures aux[2 * |keys| - 2 - 2 * j] == table[keys[|keys| - 1 - j]]
  {
    var i := |keys| - 1 - j;
    assert 2 * |keys| - 1 - 2 * j == 2 * i + 1;
    assert aux[2 * i + 1] == keys[i];
  }

  /** The padding rule of `adjust_stack_alignment`: from an 8-aligned
      position, one more word when the position less the size still to be
      written is not a multiple of 16 makes it one. */
  lemma PaddingAligns(p: int, t: int)
    requires p % 8 == 0 && t % 8 == 0
    ensures var q := if (p - t) % 16 != 0 then p - 8 else p;
      (q - t) % 16 == 0
  {
    var a, b := p / 8, t / 8;
    assert p == 8 * a && t == 8 * b;
    var k := a - b;
    var h := k / 2;
    if k % 2 == 0 {
      assert p - t == h * 16 + 0;
      DivModUnique(p - t, 16, h, 0);
    } else {
      assert p - t == h * 16 + 8;
      DivModUnique(p - t, 16, h, 8);
      assert p - 8 - t == h * 16 + 0;
      DivModUnique(p - 8 - t, 16, h, 0);
    }
  }

  // ----- the stack ------------------------------------------------------------

  /** `InitStack`: the initial top, seven pages below the top of user
      space; the maximum size; and the current position. */
  class Stack {
    const initialTop: nat
    const maxSize: nat
    var pos: nat

    /** `InitStack::new`: the position starts at the top, so the stack is
        not yet initialised. */
    constructor()
      ensures initialTop == MAX_USERSPACE_VADDR - PAGE_SIZE * NR_FIXED_PADDING_PAGES
      ensures maxSize == INIT_STACK_SIZE
      ensures pos == initialTop && !IsInitialized()
    {
      initialTop := MAX_USERSPACE_VADDR - PAGE_SIZE * NR_FIXED_PADDING_PAGES;
      maxSize := INIT_STACK_SIZE;
      pos := MAX_USERSPACE_VADDR - PAGE_SIZE * NR_FIXED_PADDING_PAGES;
    }

    /** `is_initialized`: something has been written. */
    predicate IsInitialized()
      reads this
    {
      pos != initialTop
    }

    /** `set_uninitialized`. */
    method SetUninitialized()
      modifies this
      ensures pos == initialTop && !IsInitialized()
    {
      pos := initialTop;
    }

    /** `user_stack_top`: the stack pointer, once something is written. */
    function UserStackTop(): (top: nat)
      reads this
      requires IsInitialized()
      ensures top != initialTop
    {
      pos
    }

    /** `map_and_write`: back to the top, a memory object of the maximum
        size mapped just below the top, then the writer, which shares the
        position with the stack. Allocating and mapping the memory object
        are collaborators whose failures are parameters. */
    method MapAndWrite(argv: seq<seq<u8>>, envp: seq<seq<u8>>, auxvec: AuxVec,
                       allocError: Option<Errno>, mapError: Option<Errno>, writeError: Errno)
      returns (r: Result<(), Errno>)
      requires initialTop == MAX_USERSPACE_VADDR - PAGE_SIZE * NR_FIXED_PADDING_PAGES
      requires maxSize == INIT_STACK_SIZE
      requires |argv| < WORD_MOD
      modifies this, auxvec
      ensures allocError.Some? ==> r == Err(allocError.value) && !IsInitialized()
      ensures allocError.None? && mapError.Some? ==> r == Err(mapError.value) && !IsInitialized()
      ensures r.Err? ==> r.error == writeError || Some(r.error) == allocError || Some(r.error) == mapError
      ensures r.Ok? ==> IsInitialized() && pos % 16 == 0 && MapAddr() <= pos < initialTop
    {
      SetUninitialized();
      if allocError.Some? {
        return Err(allocError.value);
      }
      if mapError.Some? {
        return Err(mapError.value);
      }
      var writer := new Writer(pos as u64, initialTop - maxSize, maxSize, writeError, auxvec, argv, envp);
      var argvPtrs, envpPtrs;
      r, argvPtrs, envpPtrs := writer.Write();
      pos := writer.pos as nat;
    }

    /** Where the stack's memory object is mapped. */
    function MapAddr(): (a: nat)
      reads this
      requires maxSize <= initialTop
      ensures a + maxSize == initialTop
    {
      initialTop - maxSize
    }
  }

  /** The mapping address of a new stack is page aligned. */
  lemma MapAddrAligned()
    ensures (MAX_USERSPACE_VADDR - PAGE_SIZE * NR_FIXED_PADDING_PAGES - INIT_STACK_SIZE) % PAGE_SIZE == 0
    ensures MAX_USERSPACE_VADDR - PAGE_SIZE * NR_FIXED_PADDING_PAGES - INIT_STACK_SIZE > 0
  {
    assert MAX_USERSPACE_VADDR - PAGE_SIZE * NR_FIXED_PADDING_PAGES - INIT_STACK_SIZE
      == PAGE_SIZE * (0x8_0000_0000 - 1 - 7 - 2048);
  }

  /** A position is moved to for an 8-byte word: down by 8, then down to a
      multiple of 8. */
  function WordPos(p: u64): nat
  {
    AlignDown(Wrap(p - 8), 8)
  }

  /** From an aligned position a word sits just below it. */
  lemma WordPosAligned(p: u64)
    requires p % 8 == 0 && p >= 8
    ensures WordPos(p) == p - 8
  {
    var r := WordPos(p);
    DivModUnique(p - 8, 8, (p - 8) / 8, 0);
    DivModUnique(r, 8, r / 8, 0);
  }

  /** The bytes `adjust_stack_alignment` expects to follow: the auxiliary
      pairs with the AT_NULL pair, the two pointer arrays with their
      nulls, and the count. */
  function ToWriteSize(auxLen: nat, envpLen: nat, argvLen: nat): (t: nat)
    ensures t % 8 == 0
  {
    var t := (auxLen + 1) * 16 + (envpLen + 1) * 8 + (argvLen + 1) * 8 + 8;
    assert t == 8 * (2 * auxLen + 2 + envpLen + 1 + argvLen + 1 + 1);
    t
  }

  /** Each address holds its C string: the bytes and a NUL. */
  predicate CStringsAt(strings: map<nat, seq<u8>>, ptrs: seq<u64>, strs: seq<seq<u8>>)
  {
    |ptrs| == |strs| && forall i :: 0 <= i < |ptrs| ==> ptrs[i] as nat in strings && strings[ptrs[i] as nat] == strs[i] + [0]
  }

  /** A string written below every string already placed leaves them in
      place and goes first. */
  lemma CStringsPush(strings: map<nat, seq<u8>>, p: u64, str: seq<u8>, ptrs: seq<u64>, strs: seq<seq<u8>>)
    requires CStringsAt(strings, ptrs, strs)
    requires forall j :: 0 <= j < |ptrs| ==> p < ptrs[j]
    ensures CStringsAt(strings[p as nat := str + [0]], [p] + ptrs, [str] + strs)
  {
    var s1 := strings[p as nat := str + [0]];
    forall j | 0 <= j < |ptrs| + 1
      ensures ([p] + ptrs)[j] as nat in s1 && s1[([p] + ptrs)[j] as nat] == ([str] + strs)[j] + [0]
    {
      if j > 0 {
        assert ([p] + ptrs)[j] == ptrs[j - 1] && ([str] + strs)[j] == strs[j - 1];
      }
    }
  }

  /** Strings that all lie at or above `from` survive any change that keeps
      what is stored there. */
  lemma StringsKept(s1: map<nat, seq<u8>>, s2: map<nat, seq<u8>>, ptrs: seq<u64>, strs: seq<seq<u8>>, from: int)
    requires CStringsAt(s1, ptrs, strs)
    requires forall i :: 0 <= i < |ptrs| ==> from <= ptrs[i] as int
    requires Kept(s1, s2, from)
    ensures CStringsAt(s2, ptrs, strs)
  {
  }

  /** Everything stored at or above `from` is still there. */
  predicate Kept<T(==)>(before: map<nat, T>, after: map<nat, T>, from: int)
  {
    forall a :: a in before && a >= from ==> a in after && after[a] == before[a]
  }

  /** A successful write below `p` did not wrap: it really went down. */
  lemma WrapBelow(p: u64, len: nat, top: nat)
    requires len >= 1 && top < WORD_MOD
    requires Wrap(p - len) + len <= top
    ensures Wrap(p - len) == p - len
  {
    if p < len {
      DivModUnique(p - len, WORD_MOD, -1, p - len + WORD_MOD);
    }
  }

  /** A successful word write from any position lands below it. */
  lemma AlignedBelow(p: u64, top: nat)
    requires top < WORD_MOD && WordPos(p) + 8 <= top
    ensures WordPos(p) < p && WordPos(p) % 8 == 0
  {
    if p < 8 {
      DivModUnique(p - 8, WORD_MOD, -1, p - 8 + WORD_MOD);
    }
  }

  /** Wrapping at 2^64 keeps the remainder modulo 16. */
  lemma WrapMod16(x: int)
    ensures Wrap(x) % 16 == x % 16
  {
    var q := x / WORD_MOD;
    assert x == q * WORD_MOD + Wrap(x);
    assert WORD_MOD == 16 * 0x1000_0000_0000_0000;
    DivModUnique(x, 16, q * 0x1000_0000_0000_0000 + Wrap(x) / 16, Wrap(x) % 16);
  }

  /** The sixteen bytes stored for AT_RANDOM: zeros, as the kernel has
      no random source at this point. */
  function RandomBytes(): (b: seq<u8>)
    ensures |b| == 16
  {
    seq(16, _ => 0)
  }

  /** The address of the `j`-th word written downwards from `top`. */
  function Slot(top: int, j: int): int
  {
    top - 8 * (j + 1)
  }

  /** The words of `img` lie upwards from `base`, one per 8 bytes. */
  predicate StackWords(words: map<nat, u64>, base: int, img: seq<u64>)
  {
    forall j :: 0 <= j < |img| ==> base + 8 * j in words && words[base + 8 * j] == img[j]
  }

  /** The words written below `top` so far, the first highest. */
  predicate WrittenDown(words: map<nat, u64>, top: int, vals: seq<u64>)
  {
    forall j :: 0 <= j < |vals| ==> Slot(top, j) in words && words[Slot(top, j)] == vals[j]
  }

  /** A second run of writes, from where the first stopped and leaving
      the first run's words alone, continues it. */
  lemma Extend(w1: map<nat, u64>, w2: map<nat, u64>, top: int, mid: int, v1: seq<u64>, v2: seq<u64>)
    requires mid == top - 8 * |v1|
    requires WrittenDown(w1, top, v1)
    requires WrittenDown(w2, mid, v2)
    requires Kept(w1, w2, mid)
    ensures WrittenDown(w2, top, v1 + v2)
  {
    forall j | 0 <= j < |v1 + v2|
      ensures Slot(top, j) in w2 && w2[Slot(top, j)] == (v1 + v2)[j]
    {
      if j < |v1| {
        assert Slot(top, j) >= top - 8 * |v1|;
      } else {
        assert Slot(top, j) == Slot(top - 8 * |v1|, j - |v1|);
      }
    }
  }

  /** Read upwards from the lowest word, a downward run gives its values
      backwards. */
  lemma ReadUpwards(words: map<nat, u64>, top: int, vals: seq<u64>)
    requires WrittenDown(words, top, vals)
    ensures StackWords(words, top - 8 * |vals|, Reverse(vals))
  {
    forall j | 0 <= j < |vals|
      ensures top - 8 * |vals| + 8 * j in words && words[top - 8 * |vals| + 8 * j] == Reverse(vals)[j]
    {
      ReadUpwardsAt(words, top, vals, j);
    }
  }

  /** The `j`-th word up from the lowest is the `j`-th value from the end. */
  lemma ReadUpwardsAt(words: map<nat, u64>, top: int, vals: seq<u64>, j: nat)
    requires WrittenDown(words, top, vals) && j < |vals|
    ensures top - 8 * |vals| + 8 * j in words && words[top - 8 * |vals| + 8 * j] == Reverse(vals)[j]
  {
    var k := |vals| - 1 - j;
    var addr := Slot(top, k);
    assert addr in words && words[addr] == vals[k];
    assert addr == top - 8 * |vals| + 8 * j;
    ReverseIndex(vals, j);
  }

  /** What follows the padding is as long as `adjust_stack_alignment`
      reckons. */
  lemma TailSize(table: map<AuxKey, u64>, e: nat, a: nat)
    ensures |AuxWords(table, KeysFrom(table, 0))| == 2 * |table|
    ensures ToWriteSize(|table|, e, a) == 8 * (2 * |table| + e + a + 5)
  {
    AllKeys(table);
  }

  /** Written downwards from `top`, the tail reads upwards from where it
      ends as the image. */
  lemma TailImage(words: map<nat, u64>, top: int, base: int, aux: seq<u64>,
                  envpPtrs: seq<u64>, argvPtrs: seq<u64>, argc: u64)
    requires WrittenDown(words, top, TailWords(aux, envpPtrs, argvPtrs, argc))
    requires base == top - 8 * (|aux| + |envpPtrs| + |argvPtrs| + 5)
    ensures StackWords(words, base, Image(aux, envpPtrs, argvPtrs, argc))
  {
    var tail := TailWords(aux, envpPtrs, argvPtrs, argc);
    assert |tail| == |aux| + |envpPtrs| + |argvPtrs| + 5;
    ReadUpwards(words, top, tail);
    ImageReversesTail(aux, envpPtrs, argvPtrs, argc);
  }

  /** Moving down by the size reckoned in advance keeps the alignment the
      padding arranged. */
  lemma DownAligned(top: int, base: int, n: nat, e: nat, a: nat)
    requires (top - ToWriteSize(n, e, a)) % 16 == 0
    requires base == top - 8 * (2 * n + e + a + 5)
    ensures base % 16 == 0
  {
    assert base == top - ToWriteSize(n, e, a);
  }

  /** The vectors, written downwards from `top`, read upwards from where
      they end as the image. */
  lemma VectorsImage(words: map<nat, u64>, top: int, base: int, table: map<AuxKey, u64>,
                     envpPtrs: seq<u64>, argvPtrs: seq<u64>, argc: u64)
    requires base == top - 8 * (2 * |table| + |envpPtrs| + |argvPtrs| + 5)
    requires WrittenDown(words, top, TailWords(AuxWords(table, KeysFrom(table, 0)), envpPtrs, argvPtrs, argc))
    ensures StackWords(words, base, Image(AuxWords(table, KeysFrom(table, 0)), envpPtrs, argvPtrs, argc))
  {
    TailSize(table, 0, 0);
    TailImage(words, top, base, AuxWords(table, KeysFrom(table, 0)), envpPtrs, argvPtrs, argc);
  }

  /** `InitStackWriter`. */
  class Writer {
    var pos: u64
    const mapAddr: nat
    const size: nat
    const writeError: Errno
    var words: map<nat, u64>
    var strings: map<nat, seq<u8>>
    const auxvec: AuxVec
    const argv: seq<seq<u8>>
    const envp: seq<seq<u8>>

    /** The mapping lies below 2^64 and above the first word. */
    predicate Valid()
      reads this
    {
      8 <= mapAddr && mapAddr + size < WORD_MOD
    }

    /** A write of `len` bytes at `addr` falls inside the memory object. */
    predicate InRange(addr: int, len: nat)
      reads this
    {
      mapAddr <= addr && addr + len <= mapAddr + size
    }

    constructor(pos: u64, mapAddr: nat, size: nat, writeError: Errno, auxvec: AuxVec,
                argv: seq<seq<u8>>, envp: seq<seq<u8>>)
      ensures this.pos == pos && this.mapAddr == mapAddr && this.size == size
      ensures this.writeError == writeError && this.auxvec == auxvec
      ensures this.argv == argv && this.envp == envp
      ensures words == map[] && strings == map[]
    {
      this.argv := argv;
      this.envp := envp;
      this.pos := pos;
      this.mapAddr := mapAddr;
      this.size := size;
      this.writeError := writeError;
      this.auxvec := auxvec;
      words := map[];
      strings := map[];
    }

    /** `write_u64`: the position moves to `align_down(pos - 8, 8)` and the
        word goes there, whose address is returned; outside the memory
        object the write fails, the position having moved all the same. */
    method WriteU64(val: u64) returns (r: Result<u64, Errno>)
      modifies this
      ensures pos == WordPos(old(pos))
      ensures InRange(pos, 8) ==> r == Ok(pos) && words == old(words)[pos as nat := val]
      ensures !InRange(pos, 8) ==> r == Err(writeError) && words == old(words)
      ensures strings == old(strings)
    {
      pos := WordPos(pos) as u64;
      if !InRange(pos, 8) {
        return Err(writeError);
      }
      words := words[pos as nat := val];
      return Ok(pos);
    }

    /** `write_bytes`: the position moves down by the length and the bytes
        go there, whose address is returned. */
    method WriteBytes(bytes: seq<u8>) returns (r: Result<u64, Errno>)
      modifies this
      ensures pos == Wrap(old(pos) - |bytes|)
      ensures InRange(pos, |bytes|) ==> r == Ok(pos) && strings == old(strings)[pos as nat := bytes]
      ensures !InRange(pos, |bytes|) ==> r == Err(writeError) && strings == old(strings)
      ensures words == old(words)
    {
      pos := Wrap(pos - |bytes|);
      if !InRange(pos, |bytes|) {
        return Err(writeError);
      }
      strings := strings[pos as nat := bytes];
      return Ok(pos);
    }

    /** A run of `write_u64` calls from an aligned position: the words
        go, in order, into the consecutive words below it; nothing at or
        above it changes. */
    method WriteWords(vals: seq<u64>) returns (r: Result<(), Errno>)
      requires Valid() && pos % 8 == 0
      modifies this
      ensures strings == old(strings)
      ensures r.Err? ==> r.error == writeError
      ensures r.Ok? ==> pos as int == old(pos) - 8 * |vals| && pos % 8 == 0
      ensures r.Ok? && |vals| > 0 ==> mapAddr <= pos
      ensures r.Ok? ==> WrittenDown(words, old(pos), vals)
      ensures r.Ok? ==> Kept(old(words), words, old(pos))
    {
      var i := 0;
      while i < |vals|
        invariant 0 <= i <= |vals|
        invariant pos as int == old(pos) - 8 * i && pos % 8 == 0
        invariant i > 0 ==> mapAddr <= pos
        invariant strings == old(strings)
        invariant forall j :: 0 <= j < i ==> Slot(old(pos), j) in words && words[Slot(old(pos), j)] == vals[j]
        invariant forall a :: a in old(words) && a >= old(pos) ==> a in words && words[a] == old(words)[a]
      {
        if pos < 8 {
          var w := WriteU64(vals[i]);
          assert !InRange(pos, 8);
          return Err(w.error);
        }
        WordPosAligned(pos);
        var w := WriteU64(vals[i]);
        if w.Err? {
          return Err(w.error);
        }
        assert pos as int == Slot(old(pos), i);
        assert forall j :: 0 <= j < i ==> Slot(old(pos), j) > pos;
        i := i + 1;
      }
      return Ok(());
    }
  
    /** `write_cstring`: the string with its terminating NUL. */
    method WriteCString(str: seq<u8>) returns (r: Result<u64, Errno>)
      modifies this
      ensures pos == Wrap(old(pos) - (|str| + 1))
      ensures InRange(pos, |str| + 1) ==> r == Ok(pos) && strings == old(strings)[pos as nat := str + [0]]
      ensures !InRange(pos, |str| + 1) ==> r == Err(writeError) && strings == old(strings)
      ensures words == old(words)
    {
      r := WriteBytes(str + [0]);
    }

    /** `write_envp_strings`: each environment string in order; the
        addresses come back in the same order, each below the one before,
        and nothing written earlier above the start is disturbed. */
    method WriteEnvpStrings(envp: seq<seq<u8>>) returns (r: Result<seq<u64>, Errno>)
      requires Valid()
      modifies this
      ensures words == old(words)
      ensures r.Err? ==> r.error == writeError
      ensures r.Ok? ==> CStringsAt(strings, r.value, envp) && |r.value| == |envp|
      ensures r.Ok? ==> forall i :: 0 <= i < |r.value| ==> pos <= r.value[i] < old(pos)
      ensures r.Ok? ==> pos <= old(pos) && Kept(old(strings), strings, old(pos))
    {
      var ptrs: seq<u64> := [];
      var i := 0;
      while i < |envp|
        invariant 0 <= i <= |envp| && |ptrs| == i
        invariant words == old(words) && pos <= old(pos)
        invariant forall j :: 0 <= j < i ==> pos <= ptrs[j] < old(pos)
        invariant forall j :: 0 <= j < i ==> ptrs[j] as nat in strings && strings[ptrs[j] as nat] == envp[j] + [0]
        invariant Kept(old(strings), strings, old(pos))
      {
        var before := pos;
        var p := WriteCString(envp[i]);
        if p.Err? {
          return Err(p.error);
        }
        WrapBelow(before, |envp[i]| + 1, mapAddr + size);
        ptrs := ptrs + [p.value];
        i := i + 1;
      }
      return Ok(ptrs);
    }

    /** `write_argv_strings`: the argument strings from the last to the
        first, so that the first lies highest; the addresses are returned
        in argument order. */
    method WriteArgvStrings(argv: seq<seq<u8>>) returns (r: Result<seq<u64>, Errno>)
      requires Valid()
      modifies this
      ensures words == old(words)
      ensures r.Err? ==> r.error == writeError
      ensures r.Ok? ==> CStringsAt(strings, r.value, argv) && |r.value| == |argv|
      ensures r.Ok? ==> forall i :: 0 <= i < |r.value| ==> pos <= r.value[i] < old(pos)
      ensures r.Ok? ==> pos <= old(pos) && Kept(old(strings), strings, old(pos))
    {
      var ptrs: seq<u64> := [];
      var i := |argv|;
      while i > 0
        invariant 0 <= i <= |argv| && |ptrs| == |argv| - i
        invariant words == old(words) && pos <= old(pos)
        invariant forall j :: 0 <= j < |ptrs| ==> pos <= ptrs[j] < old(pos)
        invariant CStringsAt(strings, ptrs, argv[i..])
        invariant Kept(old(strings), strings, old(pos))
      {
        i := i - 1;
        var before := pos;
        ghost var s0 := strings;
        var p := WriteCString(argv[i]);
        if p.Err? {
          return Err(p.error);
        }
        WrapBelow(before, |argv[i]| + 1, mapAddr + size);
        CStringsPush(s0, p.value, argv[i], ptrs, argv[i + 1..]);
        assert argv[i..] == [argv[i]] + argv[i + 1..];
        ptrs := [p.value] + ptrs;
      }
      assert argv[0..] == argv;
      return Ok(ptrs);
    }

    /** `adjust_stack_alignment`: one word to reach 8-byte alignment, and
        one more when the position less the size of what is still to come
        is not a multiple of 16. */
    method AdjustStackAlignment(envpLen: nat, argvLen: nat) returns (r: Result<(), Errno>)
      requires Valid()
      modifies this
      ensures strings == old(strings)
      ensures r.Err? ==> r.error == writeError
      ensures r.Ok? ==> pos % 8 == 0 && mapAddr <= pos < old(pos)
      ensures r.Ok? ==> (pos - ToWriteSize(|auxvec.table|, envpLen, argvLen)) % 16 == 0
      ensures r.Ok? ==> Kept(old(words), words, old(pos))
    {
      var before := pos;
      var w := WriteU64(0);
      if w.Err? {
        return Err(w.error);
      }
      AlignedBelow(before, mapAddr + size);
      var t := ToWriteSize(|auxvec.table|, envpLen, argvLen);
      WrapMod16(pos - t);
      if Wrap(pos - t) % 16 != 0 {
        var p1 := pos;
        WordPosAligned(pos);
        var w2 := WriteU64(0);
        if w2.Err? {
          return Err(w2.error);
        }
        PaddingAligns(p1, t);
      } else {
        PaddingAligns(pos, t);
      }
      return Ok(());
    }

    /** `write_aux_vec`: the AT_NULL pair, then each pair, value first,
        in increasing key order. */
    method WriteAuxVec() returns (r: Result<(), Errno>)
      requires Valid() && pos % 8 == 0
      modifies this
      ensures strings == old(strings)
      ensures r.Err? ==> r.error == writeError
      ensures r.Ok? ==> var v := [0, AT_NULL as u64] + AuxWords(auxvec.table, KeysFrom(auxvec.table, 0));
        && pos as int == old(pos) - 8 * |v| && pos % 8 == 0 && mapAddr <= pos
        && WrittenDown(words, old(pos), v) && Kept(old(words), words, old(pos))
    {
      r := WriteWords([0, AT_NULL as u64] + AuxWords(auxvec.table, KeysFrom(auxvec.table, 0)));
    }

    /** `write_envp_pointers`: a null, then the pointers from the last to
        the first. */
    method WriteEnvpPointers(envpPtrs: seq<u64>) returns (r: Result<(), Errno>)
      requires Valid() && pos % 8 == 0
      modifies this
      ensures strings == old(strings)
      ensures r.Err? ==> r.error == writeError
      ensures r.Ok? ==> var v := [0] + Reverse(envpPtrs);
        && pos as int == old(pos) - 8 * |v| && pos % 8 == 0 && mapAddr <= pos
        && WrittenDown(words, old(pos), v) && Kept(old(words), words, old(pos))
    {
      r := WriteWords([0] + Reverse(envpPtrs));
    }

    /** `write_argv_pointers`: a null, then the pointers from the last to
        the first. */
    method WriteArgvPointers(argvPtrs: seq<u64>) returns (r: Result<(), Errno>)
      requires Valid() && pos % 8 == 0
      modifies this
      ensures strings == old(strings)
      ensures r.Err? ==> r.error == writeError
      ensures r.Ok? ==> var v := [0] + Reverse(argvPtrs);
        && pos as int == old(pos) - 8 * |v| && pos % 8 == 0 && mapAddr <= pos
        && WrittenDown(words, old(pos), v) && Kept(old(words), words, old(pos))
    {
      r := WriteWords([0] + Reverse(argvPtrs));
    }

    /** The words after the padding, written downwards in the order of
        `write`: the auxiliary vector, the two pointer arrays and the
        count. */
    method WriteVectors(envpPtrs: seq<u64>, argvPtrs: seq<u64>, argc: u64) returns (r: Result<(), Errno>)
      requires Valid() && pos % 8 == 0
      modifies this
      ensures strings == old(strings)
      ensures r.Err? ==> r.error == writeError
      ensures r.Ok? ==> pos as int == old(pos) - 8 * (2 * |auxvec.table| + |envpPtrs| + |argvPtrs| + 5)
      ensures r.Ok? ==> mapAddr <= pos
      ensures r.Ok? ==> WrittenDown(words, old(pos),
        TailWords(AuxWords(auxvec.table, KeysFrom(auxvec.table, 0)), envpPtrs, argvPtrs, argc))
    {
      ghost var aux := AuxWords(auxvec.table, KeysFrom(auxvec.table, 0));
      TailSize(auxvec.table, 0, 0);
      ghost var top := pos;
      var w := WriteAuxVec();
      if w.Err? {
        return Err(w.error);
      }
      ghost var v1 := [0, AT_NULL as u64] + aux;
      ghost var w1, p1 := words, pos;
      w := WriteEnvpPointers(envpPtrs);
      if w.Err? {
        return Err(w.error);
      }
      ghost var v2 := [0] + Reverse(envpPtrs);
      Extend(w1, words, top, p1, v1, v2);
      ghost var w2, p2 := words, pos;
      w := WriteArgvPointers(argvPtrs);
      if w.Err? {
        return Err(w.error);
      }
      ghost var v3 := [0] + Reverse(argvPtrs);
      Extend(w2, words, top, p2, v1 + v2, v3);
      ghost var w3, p3 := words, pos;
      w := WriteWords([argc]);
      if w.Err? {
        return Err(w.error);
      }
      Extend(w3, words, top, p3, v1 + v2 + v3, [argc]);
      assert v1 + v2 + v3 + [argc] == TailWords(aux, envpPtrs, argvPtrs, argc);
      return Ok(());
    }

    /** The second half of `write`: the padding, then the vectors, which
        read back upwards from the 16-byte aligned stack pointer as the
        image. */
    method WriteTail(envpPtrs: seq<u64>, argvPtrs: seq<u64>, argc: u64) returns (r: Result<(), Errno>)
      requires Valid()
      modifies this
      ensures strings == old(strings)
      ensures r.Err? ==> r.error == writeError
      ensures r.Ok? ==> pos % 16 == 0
      ensures r.Ok? ==> mapAddr <= pos < old(pos)
      ensures r.Ok? ==> StackWords(words, pos,
        Image(AuxWords(auxvec.table, KeysFrom(auxvec.table, 0)), envpPtrs, argvPtrs, argc))
    {
      var adj := AdjustStackAlignment(|envpPtrs|, |argvPtrs|);
      if adj.Err? {
        return Err(adj.error);
      }
      ghost var top := pos;
      var w := WriteVectors(envpPtrs, argvPtrs, argc);
      if w.Err? {
        return Err(w.error);
      }
      DownAligned(top, pos as int, |auxvec.table|, |envpPtrs|, |argvPtrs|);
      VectorsImage(words, top, pos as int, auxvec.table, envpPtrs, argvPtrs, argc);
      return Ok(());
    }

    /** `write`: the strings, the random bytes (zeros here) recorded as
        AT_RANDOM, the padding, then the auxiliary vector, the environment
        and argument pointers and the count. On success the stack pointer
        is 16-byte aligned and the words upwards from it are the image the
        System V ABI prescribes, each pointer leading to its string; the
        string addresses are returned beside the result. */
    method Write() returns (r: Result<(), Errno>, argvPtrs: seq<u64>, envpPtrs: seq<u64>)
      requires Valid() && |argv| < WORD_MOD
      modifies this, auxvec
      ensures r.Err? ==> r.error == writeError
      ensures r.Ok? ==> pos % 16 == 0 && mapAddr <= pos < old(pos)
      ensures r.Ok? ==> CStringsAt(strings, argvPtrs, argv) && CStringsAt(strings, envpPtrs, envp)
      ensures r.Ok? ==> (AT_RANDOM in auxvec.table && auxvec.table[AT_RANDOM] as nat in strings
        && strings[auxvec.table[AT_RANDOM] as nat] == RandomBytes())
      ensures r.Ok? ==> auxvec.table == old(auxvec.table)[AT_RANDOM := auxvec.table[AT_RANDOM]]
      ensures r.Ok? ==> StackWords(words, pos,
        Image(AuxWords(auxvec.table, KeysFrom(auxvec.table, 0)), envpPtrs, argvPtrs, |argv| as u64))
    {
      argvPtrs, envpPtrs := [], [];
      var argc := |argv| as u64;
      var e := WriteEnvpStrings(envp);
      if e.Err? {
        return Err(e.error), argvPtrs, envpPtrs;
      }
      envpPtrs := e.value;
      ghost var s1, p1 := strings, pos;
      var a := WriteArgvStrings(argv);
      if a.Err? {
        return Err(a.error), argvPtrs, envpPtrs;
      }
      argvPtrs := a.value;
      StringsKept(s1, strings, envpPtrs, envp, p1);
      ghost var s2 := strings;
      var before := pos;
      var rnd := WriteBytes(RandomBytes());
      if rnd.Err? {
        return Err(rnd.error), argvPtrs, envpPtrs;
      }
      WrapBelow(before, 16, mapAddr + size);
      assert Kept(s2, strings, before);
      StringsKept(s2, strings, envpPtrs, envp, before);
      StringsKept(s2, strings, argvPtrs, argv, before);
      var stored := auxvec.Set(AT_RANDOM, rnd.value);
      var tail := WriteTail(envpPtrs, argvPtrs, argc);
      if tail.Err? {
        return Err(tail.error), argvPtrs, envpPtrs;
      }
      return Ok(()), argvPtrs, envpPtrs;
    }
  }
}
