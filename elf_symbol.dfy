/** Symbol hashing of the ELF loader (vendor/elf_loader/src/symbol.rs):
    the GNU hash of `.gnu.hash`, the System V hash of `.hash`, the
    Bloom-filter position `precompute` derives from the GNU hash, and the
    symbol count each hash table gives.

    A hash table is modelled by its header fields and its bucket and chain
    words; a read past the chain words, which the source performs through a
    raw pointer, is the fault outcome `None`. */
module ElfSymbols {
  import opened Common
  import opened ElfArch

  const U32_SPLIT: nat := 0x1_0000_0000
  const GNU_HASH_SEED: nat := 5381

  /** The GNU hash, one byte at a time from the seed: `h * 33 + c`,
      wrapping at 32 bits. */
  function GnuHashSpec(name: seq<u8>): (r: u32)
    decreases |name|
  {
    if |name| == 0 then GNU_HASH_SEED
    else (GnuHashSpec(name[..|name| - 1]) * 33 + name[|name| - 1]) % U32_SPLIT
  }

  /** The same recurrence over the unbounded integers: the polynomial
      `5381 * 33^n + c0 * 33^(n-1) + ... + c(n-1)`. */
  function DjbPolynomial(name: seq<u8>): (r: nat)
    decreases |name|
  {
    if |name| == 0 then GNU_HASH_SEED
    else DjbPolynomial(name[..|name| - 1]) * 33 + name[|name| - 1]
  }

  /** Reducing modulo 2^32 once at the end or after every step gives the
      same value. */
  lemma ModStep(a: nat, c: nat, m: nat)
    requires m > 0
    ensures ((a % m) * 33 + c) % m == (a * 33 + c) % m
  {
    var q := a / m;
    assert a == q * m + a % m;
    assert a * 33 + c == (a % m) * 33 + c + (q * 33) * m;
    DivModUnique(a * 33 + c, m, ((a % m) * 33 + c) / m + q * 33, ((a % m) * 33 + c) % m);
  }

  /** The GNU hash is the DJB polynomial of the name, modulo 2^32. */
  lemma {:induction false} GnuHashIsPolynomial(name: seq<u8>)
    ensures GnuHashSpec(name) == DjbPolynomial(name) % U32_SPLIT
    decreases |name|
  {
    if |name| > 0 {
      var init := name[..|name| - 1];
      GnuHashIsPolynomial(init);
      ModStep(DjbPolynomial(init), name[|name| - 1], U32_SPLIT);
    }
  }

  /** `ElfGnuHash::hash`: the loop over the name's bytes. */
  method GnuHash(name: seq<u8>) returns (h: u32)
    ensures h == GnuHashSpec(name)
  {
    h := GNU_HASH_SEED;
    var i := 0;
    while i < |name|
      invariant i <= |name|
      invariant h == GnuHashSpec(name[..i])
    {
      assert name[..i + 1][..i] == name[..i];
      h := (h * 33 + name[i]) % U32_SPLIT;
      i := i + 1;
    }
    assert name[..|name|] == name;
  }

  /** One step of the System V hash: shift in the byte, fold the top
      nibble into bits 4..7 and clear it. */
  function ElfHashStep(h: bv32, c: u8): (r: bv32)
    ensures r & 0xf000_0000 == 0
  {
    var h1 := (h << 4) + (c as bv32);
    var g := h1 & 0xf000_0000;
    var h2 := if g != 0 then h1 ^ (g >> 24) else h1;
    h2 & !g
  }

  function ElfHashSpec(name: seq<u8>): bv32
    decreases |name|
  {
    if |name| == 0 then 0
    else ElfHashStep(ElfHashSpec(name[..|name| - 1]), name[|name| - 1])
  }

  /** The System V hash always fits in 28 bits. */
  lemma ElfHashFits(name: seq<u8>)
    ensures ElfHashSpec(name) < 0x1000_0000
  {
    if |name| > 0 {
      var h := ElfHashSpec(name);
      assert h & 0xf000_0000 == 0;
    }
  }

  /** `ElfHash::hash`: the loop over the name's bytes. */
  method ElfHash(name: seq<u8>) returns (h: bv32)
    ensures h == ElfHashSpec(name)
    ensures h < 0x1000_0000
  {
    h := 0;
    var i := 0;
    while i < |name|
      invariant i <= |name|
      invariant h == ElfHashSpec(name[..i])
    {
      assert name[..i + 1][..i] == name[..i];
      h := ElfHashStep(h, name[i]);
      i := i + 1;
    }
    assert name[..|name|] == name;
    ElfHashFits(name);
  }

  /** What `precompute` derives from a name for the Bloom filter. */
  datatype PreCompute = PreCompute(gnuhash: u32, fofs: nat, fmask: nat, hash: Option<u32>)

  /** `precompute`: the Bloom word holding the name's bit, and the bit
      inside that word. */
  function Precompute(name: seq<u8>): (r: PreCompute)
    ensures r.gnuhash == GnuHashSpec(name)
    ensures r.fofs * WORD_BITS <= r.gnuhash < r.fofs * WORD_BITS + WORD_BITS
    ensures r.fmask == Pow2(r.gnuhash - r.fofs * WORD_BITS) && r.fmask < 0x1_0000_0000_0000_0000
    ensures r.hash.None?
  {
    var h := GnuHashSpec(name);
    Pow2Below(h % WORD_BITS);
    PreCompute(h, h / WORD_BITS, Pow2(h % WORD_BITS), None)
  }

  /** A `.gnu.hash` table: header fields, bucket words and chain words. */
  datatype GnuTable = GnuTable(symbias: u32, buckets: seq<u32>, chains: seq<u32>)

  /** A `.hash` table: header fields, bucket words and chain words. */
  datatype SysvTable = SysvTable(nbucket: u32, nchain: u32, buckets: seq<u32>, chains: seq<u32>)

  datatype HashTable = Gnu(gnu: GnuTable) | Sysv(sysv: SysvTable)

  /** The greatest bucket word, 0 for no buckets. */
  function MaxBucket(buckets: seq<u32>): (r: nat)
    ensures forall i :: 0 <= i < |buckets| ==> buckets[i] <= r
    ensures r == 0 || r in buckets
    decreases |buckets|
  {
    if |buckets| == 0 then 0
    else Max(MaxBucket(buckets[..|buckets| - 1]), buckets[|buckets| - 1])
  }

  /** The first chain word at or after `idx` whose low bit marks the end of
      a chain; `None` when the walk runs past the chain words. */
  function ChainEnd(chains: seq<u32>, idx: nat): (r: Option<nat>)
    ensures r.Some? ==> idx <= r.value < |chains| && chains[r.value] % 2 == 1
    ensures r.Some? ==> forall k :: idx <= k < r.value ==> chains[k] % 2 == 0
    ensures r.None? ==> forall k :: idx <= k < |chains| ==> chains[k] % 2 == 0
    decreases |chains| - idx
  {
    if idx >= |chains| then None
    else if chains[idx] % 2 == 1 then Some(idx)
    else ChainEnd(chains, idx + 1)
  }

  /** The GNU table's symbol count: one past the last symbol of the chain
      that starts at the greatest bucket; `None` when that bucket is below
      `symbias` (the pointer subtraction underflows) or its chain has no
      end inside the table. */
  function GnuCountSyms(t: GnuTable): (r: Option<nat>)
    ensures MaxBucket(t.buckets) == 0 ==> r == Some(1)
    ensures r.Some? && MaxBucket(t.buckets) > 0 ==>
      var last := r.value - 1;
      (forall i :: 0 <= i < |t.buckets| ==> t.buckets[i] <= last)
      && t.symbias <= MaxBucket(t.buckets) <= last < t.symbias + |t.chains|
      && t.chains[last - t.symbias] % 2 == 1
      && forall k :: MaxBucket(t.buckets) - t.symbias <= k < last - t.symbias ==> t.chains[k] % 2 == 0
    ensures r.None? ==>
      (MaxBucket(t.buckets) < t.symbias
       || forall k :: MaxBucket(t.buckets) - t.symbias <= k < |t.chains| ==> t.chains[k] % 2 == 0)
  {
    var nsym := MaxBucket(t.buckets);
    if nsym == 0 then Some(1)
    else if nsym < t.symbias then None
    else match ChainEnd(t.chains, nsym - t.symbias)
      case None => None
      case Some(j) => Some(j + t.symbias + 1)
  }

  /** `ElfGnuHash::count_syms`: a loop for the greatest bucket, then a walk
      along its chain. */
  method CountSymsGnu(t: GnuTable) returns (r: Option<nat>)
    ensures r == GnuCountSyms(t)
  {
    var nsym := 0;
    var i := 0;
    while i < |t.buckets|
      invariant i <= |t.buckets|
      invariant nsym == MaxBucket(t.buckets[..i])
    {
      assert t.buckets[..i + 1][..i] == t.buckets[..i];
      nsym := Max(nsym, t.buckets[i]);
      i := i + 1;
    }
    assert t.buckets[..|t.buckets|] == t.buckets;
    if nsym > 0 {
      if nsym < t.symbias {
        return None;
      }
      var idx := nsym - t.symbias;
      ghost var start := idx;
      while true
        invariant start <= idx
        invariant nsym == idx + t.symbias
        invariant ChainEnd(t.chains, idx) == ChainEnd(t.chains, start)
        decreases |t.chains| - idx
      {
        if idx >= |t.chains| {
          return None;
        }
        if t.chains[idx] % 2 == 1 {
          break;
        }
        nsym := nsym + 1;
        idx := idx + 1;
      }
    }
    r := Some(nsym + 1);
  }

  /** `SymbolTableHashTable::count_syms`: the GNU walk, or `nchain` for a
      System V table. */
  function CountSyms(t: HashTable): (r: Option<nat>)
    ensures t.Sysv? ==> r == Some(t.sysv.nchain)
    ensures t.Gnu? ==> r == GnuCountSyms(t.gnu)
  {
    match t
    case Gnu(g) => GnuCountSyms(g)
    case Sysv(s) => Some(s.nchain)
  }
}
