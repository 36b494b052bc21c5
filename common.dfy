/** Option and Result wrappers and the string and integer helpers that the
    Rust standard library gives the modelled code (`str::split`, `rfind`,
    `starts_with`, `join`, `align_up`, ...). */
module Common {

  datatype Option<T> = None | Some(value: T)

  datatype Result<T, E> = Ok(value: T) | Err(error: E)

  /** Machine integers as ranges of the unbounded integers. */
  type u8 = x: int | 0 <= x < 0x100
  type u16 = x: int | 0 <= x < 0x1_0000
  type u32 = x: int | 0 <= x < 0x1_0000_0000
  type u64 = x: int | 0 <= x < 0x1_0000_0000_0000_0000
  type i32 = x: int | -0x8000_0000 <= x < 0x8000_0000
  type i64 = x: int | -0x8000_0000_0000_0000 <= x < 0x8000_0000_0000_0000

  /** Index of the first occurrence of `c` in `s` (`str::find`). */
  function Find(s: string, c: char): (r: Option<nat>)
    ensures r.None? <==> c !in s
    ensures r.Some? ==> r.value < |s| && s[r.value] == c && c !in s[..r.value]
  {
    if |s| == 0 then None
    else if s[0] == c then Some(0)
    else
      match Find(s[1..], c)
      case None => None
      case Some(i) => assert s[1..][..i] == s[1..i + 1]; Some(i + 1)
  }

  /** Index of the last occurrence of `c` in `s` (`str::rfind`). */
  function RFind(s: string, c: char): (r: Option<nat>)
    ensures r.None? <==> c !in s
    ensures r.Some? ==> r.value < |s| && s[r.value] == c && c !in s[r.value + 1..]
  {
    if |s| == 0 then None
    else if s[|s| - 1] == c then Some(|s| - 1)
    else
      match RFind(s[..|s| - 1], c)
      case None => None
      case Some(i) => assert s[i + 1..] == s[..|s| - 1][i + 1..] + [s[|s| - 1]]; Some(i)
  }

  /** The last `c` of `a + [c] + b` is the one after `a` when `b` has none. */
  lemma RFindLast(a: string, b: string, c: char)
    requires c !in b
    ensures RFind(a + [c] + b, c) == Some(|a|)
  {
    var s := a + [c] + b;
    assert s[|a|] == c;
    assert s[|a| + 1..] == b;
  }

  /** The pieces of `s` between occurrences of `c` (`str::split` with a
      char pattern): never empty, and `""` splits into `[""]`. */
  function Split(s: string, c: char): (r: seq<string>)
    ensures |r| >= 1
    ensures forall i :: 0 <= i < |r| ==> c !in r[i]
    decreases |s|
  {
    match Find(s, c)
    case None => [s]
    case Some(i) => [s[..i]] + Split(s[i + 1..], c)
  }

  /** The pieces joined with `sep` between them (`slice::join`). */
  function Join(parts: seq<string>, sep: char): string
  {
    if |parts| == 0 then ""
    else if |parts| == 1 then parts[0]
    else parts[0] + [sep] + Join(parts[1..], sep)
  }

  /** Splitting and joining again gives back the original string. */
  lemma {:induction false} JoinSplit(s: string, c: char)
    ensures Join(Split(s, c), c) == s
    decreases |s|
  {
    match Find(s, c)
    case None =>
    case Some(i) =>
      JoinSplit(s[i + 1..], c);
      JoinPrepend(s[..i], Split(s[i + 1..], c), c);
      assert s == s[..i] + [c] + s[i + 1..];
  }

  lemma JoinPrepend(x: string, rest: seq<string>, c: char)
    requires |rest| >= 1
    ensures Join([x] + rest, c) == x + [c] + Join(rest, c)
  {
    assert ([x] + rest)[1..] == rest;
  }

  /** Joining pieces that do not contain the separator and splitting again
      gives back the pieces. */
  lemma {:induction false} SplitJoin(parts: seq<string>, c: char)
    requires |parts| >= 1
    requires forall i :: 0 <= i < |parts| ==> c !in parts[i]
    ensures Split(Join(parts, c), c) == parts
    decreases |parts|
  {
    if |parts| > 1 {
      var s := Join(parts, c);
      assert s == parts[0] + [c] + Join(parts[1..], c);
      assert s[..|parts[0]|] == parts[0];
      assert s[|parts[0]|] == c;
      FindAfterPrefix(parts[0], Join(parts[1..], c), c);
      assert s[|parts[0]| + 1..] == Join(parts[1..], c);
      SplitJoin(parts[1..], c);
    } else {
      assert Join(parts, c) == parts[0];
    }
  }

  lemma {:induction false} FindAfterPrefix(a: string, b: string, c: char)
    requires c !in a
    ensures Find(a + [c] + b, c) == Some(|a|)
    decreases |a|
  {
    if |a| > 0 {
      assert (a + [c] + b)[1..] == a[1..] + [c] + b;
      FindAfterPrefix(a[1..], b, c);
    }
  }

  /** Joining never introduces a character that is neither in a piece nor
      the separator. */
  lemma {:induction false} JoinChars(parts: seq<string>, sep: char, x: char)
    requires x != sep
    requires forall i :: 0 <= i < |parts| ==> x !in parts[i]
    ensures x !in Join(parts, sep)
    decreases |parts|
  {
    if |parts| > 1 {
      JoinChars(parts[1..], sep, x);
    }
  }

  /** A join of two or more non-empty pieces starts with the first piece. */
  lemma JoinHead(parts: seq<string>, sep: char)
    requires |parts| >= 1
    ensures |Join(parts, sep)| >= |parts[0]|
    ensures Join(parts, sep)[..|parts[0]|] == parts[0]
  {
    if |parts| > 1 {
      assert Join(parts, sep) == parts[0] + ([sep] + Join(parts[1..], sep));
    }
  }

  predicate StartsWith(s: string, p: string)
  {
    |p| <= |s| && s[..|p|] == p
  }

  predicate EndsWith(s: string, p: string)
  {
    |p| <= |s| && s[|s| - |p|..] == p
  }

  /** `t` occurs in `s` at index `i`. */
  predicate OccursAt(s: string, t: string, i: int)
  {
    0 <= i <= |s| - |t| && s[i..i + |t|] == t
  }

  /** `t` occurs in `s` as a contiguous substring (`str::contains` with a
      string pattern). */
  predicate Contains(s: string, t: string)
  {
    exists i | 0 <= i <= |s| - |t| :: OccursAt(s, t, i)
  }

  lemma ContainsInSuffix(a: string, b: string, t: string)
    requires Contains(b, t)
    ensures Contains(a + b, t)
  {
    var i :| 0 <= i <= |b| - |t| && OccursAt(b, t, i);
    assert b[i..i + |t|] == t;
    assert (a + b)[|a| + i..|a| + i + |t|] == b[i..i + |t|];
    assert OccursAt(a + b, t, |a| + i);
  }

  lemma PrefixInConcat(a: string, b: string, t: string)
    requires StartsWith(b, t)
    ensures Contains(a + b, t)
  {
    assert (a + b)[|a|..|a| + |t|] == b[..|t|];
    assert OccursAt(a + b, t, |a|);
  }

  lemma EndsWithConcat(a: string, b: string, t: string)
    requires EndsWith(b, t)
    ensures EndsWith(a + b, t)
  {
    assert (a + b)[|a + b| - |t|..] == b[|b| - |t|..];
  }

  /** No piece of a split holds a character the string does not hold. */
  lemma {:induction false} SplitChars(s: string, c: char, x: char)
    requires x !in s
    ensures forall i :: 0 <= i < |Split(s, c)| ==> x !in Split(s, c)[i]
    decreases |s|
  {
    match Find(s, c)
    case None =>
    case Some(i) =>
      assert x !in s[..i];
      assert forall y :: y in s[i + 1..] ==> y in s;
      SplitChars(s[i + 1..], c, x);
  }

  /** Join of two or more pieces: the first piece, the separator, and the
      join of the rest. */
  lemma JoinCons(parts: seq<string>, sep: char)
    requires |parts| >= 2
    ensures Join(parts, sep) == parts[0] + [sep] + Join(parts[1..], sep)
  {
  }

  /** Join of two or more pieces: the join of all but the last, the
      separator, and the last piece. */
  lemma {:induction false} JoinSnoc(parts: seq<string>, sep: char)
    requires |parts| >= 2
    ensures Join(parts, sep) == Join(parts[..|parts| - 1], sep) + [sep] + parts[|parts| - 1]
    decreases |parts|
  {
    if |parts| > 2 {
      JoinSnoc(parts[1..], sep);
      assert parts[1..][..|parts| - 2] == parts[..|parts| - 1][1..];
    }
  }

  /** Splitting a string with a separator in the middle splits both sides. */
  lemma {:induction false} SplitConcat(a: string, b: string, c: char)
    requires c !in a
    ensures Split(a + [c] + b, c) == [a] + Split(b, c)
  {
    FindAfterPrefix(a, b, c);
    var s := a + [c] + b;
    assert s[..|a|] == a;
    assert s[|a| + 1..] == b;
  }

  /** A subset is no larger than its superset. */
  lemma {:induction false} SubsetCard<T>(a: set<T>, b: set<T>)
    requires a <= b
    ensures |a| <= |b|
    decreases |a|
  {
    if a != {} {
      var x :| x in a;
      SubsetCard(a - {x}, b - {x});
    }
  }

  /** Joining two non-empty lists of pieces is joining each and putting
      the separator between. */
  lemma {:induction false} JoinAppend(x: seq<string>, y: seq<string>, sep: char)
    requires |x| >= 1 && |y| >= 1
    ensures Join(x + y, sep) == Join(x, sep) + [sep] + Join(y, sep)
    decreases |x|
  {
    if |x| == 1 {
      assert (x + y)[1..] == y;
    } else {
      JoinAppend(x[1..], y, sep);
      assert (x + y)[1..] == x[1..] + y;
    }
  }

  /** Splitting at a separator splits both sides independently. */
  lemma SplitAppend(a: string, b: string, c: char)
    ensures Split(a + [c] + b, c) == Split(a, c) + Split(b, c)
  {
    var sa, sb := Split(a, c), Split(b, c);
    JoinSplit(a, c);
    JoinSplit(b, c);
    JoinAppend(sa, sb, c);
    FreeOfConcat(sa, sb, c);
    SplitJoin(sa + sb, c);
  }

  lemma FreeOfConcat(x: seq<string>, y: seq<string>, c: char)
    requires forall i :: 0 <= i < |x| ==> c !in x[i]
    requires forall i :: 0 <= i < |y| ==> c !in y[i]
    ensures forall i :: 0 <= i < |x + y| ==> c !in (x + y)[i]
  {
    forall i | 0 <= i < |x + y|
      ensures c !in (x + y)[i]
    {
      if i >= |x| {
        assert (x + y)[i] == y[i - |x|];
      }
    }
  }

  function Replace(s: string, from: char, to: char): (r: string)
    ensures |r| == |s|
    ensures forall i :: 0 <= i < |s| ==> r[i] == if s[i] == from then to else s[i]
  {
    if |s| == 0 then "" else [if s[0] == from then to else s[0]] + Replace(s[1..], from, to)
  }

  lemma {:induction false} MulAtLeast(d: nat, a: nat)
    requires d >= 1
    ensures d * a >= a
  {
    if d > 1 {
      MulAtLeast(d - 1, a);
      assert d * a == (d - 1) * a + a;
    }
  }

  /** Quotient and remainder are the unique `q`, `r` with `x == q * a + r`
      and `0 <= r < a`. */
  lemma DivModUnique(x: int, a: nat, q: int, r: int)
    requires a > 0 && 0 <= r < a && x == q * a + r
    ensures x / a == q && x % a == r
  {
    var q0, r0 := x / a, x % a;
    if q > q0 {
      MulAtLeast(q - q0, a);
      assert false;
    } else if q < q0 {
      MulAtLeast(q0 - q, a);
      assert false;
    }
  }

  lemma MultipleMod(k: nat, a: nat)
    requires a > 0
    ensures (k * a) % a == 0 && (k * a) / a == k
  {
    DivModUnique(k * a, a, k, 0);
  }

  /** The sum of two multiples of `a` is one. */
  lemma AddMultiples(x: nat, y: nat, a: nat)
    requires a > 0 && x % a == 0 && y % a == 0
    ensures (x + y) % a == 0
  {
    DivModUnique(x + y, a, x / a + y / a, 0);
  }

  /** Greatest multiple of `align` that is at most `x`. */
  function AlignDown(x: nat, align: nat): (r: nat)
    requires align > 0
    ensures r % align == 0 && r <= x < r + align
  {
    MultipleMod(x / align, align);
    x / align * align
  }

  /** Least multiple of `align` that is at least `x`. */
  function AlignUp(x: nat, align: nat): (r: nat)
    requires align > 0
    ensures r % align == 0 && x <= r < x + align
  {
    AlignDown(x + align - 1, align)
  }

  function Pow2(n: nat): (r: nat)
    ensures r >= 1
  {
    if n == 0 then 1 else 2 * Pow2(n - 1)
  }

  function Min(a: int, b: int): int { if a <= b then a else b }

  function Max(a: int, b: int): int { if a >= b then a else b }

  function Sum(xs: seq<nat>): nat
  {
    if |xs| == 0 then 0 else Sum(xs[..|xs| - 1]) + xs[|xs| - 1]
  }

  /** `s` with `bytes` written over it from `offset` on. */
  function Overwrite(s: seq<u8>, offset: nat, bytes: seq<u8>): (r: seq<u8>)
    requires offset + |bytes| <= |s|
    ensures |r| == |s|
  {
    s[..offset] + bytes + s[offset + |bytes|..]
  }

  /** Reading back what was written gives it back. */
  lemma OverwriteReadBack(s: seq<u8>, offset: nat, bytes: seq<u8>)
    requires offset + |bytes| <= |s|
    ensures Overwrite(s, offset, bytes)[offset..offset + |bytes|] == bytes
  {
  }

  /** Overwriting every byte leaves only the new bytes. */
  lemma OverwriteWhole(s: seq<u8>, bytes: seq<u8>)
    requires |bytes| == |s|
    ensures Overwrite(s, 0, bytes) == bytes
  {
    assert s[..0] == [] && s[|bytes|..] == [];
  }

  /** Bytes outside the written range are unchanged. */
  lemma OverwriteFrame(s: seq<u8>, offset: nat, bytes: seq<u8>, i: nat)
    requires offset + |bytes| <= |s| && i < |s|
    requires i < offset || offset + |bytes| <= i
    ensures Overwrite(s, offset, bytes)[i] == s[i]
  {
  }

  /** Writes to disjoint ranges commute. */
  lemma OverwriteCommute(s: seq<u8>, o1: nat, b1: seq<u8>, o2: nat, b2: seq<u8>)
    requires o1 + |b1| <= |s| && o2 + |b2| <= |s|
    requires o1 + |b1| <= o2 || o2 + |b2| <= o1
    ensures Overwrite(Overwrite(s, o1, b1), o2, b2) == Overwrite(Overwrite(s, o2, b2), o1, b1)
  {
    var x := Overwrite(Overwrite(s, o1, b1), o2, b2);
    var y := Overwrite(Overwrite(s, o2, b2), o1, b1);
    forall i | 0 <= i < |s|
      ensures x[i] == y[i]
    {
      if o1 <= i < o1 + |b1| {
        assert x[i] == b1[i - o1] == y[i];
      } else if o2 <= i < o2 + |b2| {
        assert x[i] == b2[i - o2] == y[i];
      } else {
        assert x[i] == s[i] == y[i];
      }
    }
  }

  /** A product of naturals is a natural. */
  lemma MulNonNeg(a: nat, b: nat)
    ensures 0 <= a * b
  {
  }

  lemma MulMono(a: nat, b: nat, c: nat)
    requires a <= b
    ensures a * c <= b * c
  {
  }

  lemma DivMono(a: nat, b: nat, p: nat)
    requires a <= b && p > 0
    ensures a / p <= b / p
  {
    if a / p > b / p {
      MulLess(b / p, a / p, p);
    }
  }

  lemma DivBounds(x: nat, p: nat)
    requires p > 0
    ensures (x / p) * p <= x < (x / p) * p + p
  {
  }

  /** Distinct multiples of `s` are at least `s` apart. */
  lemma MulLess(a: nat, b: nat, s: nat)
    requires a < b
    ensures a * s + s <= b * s
  {
    var d := b - a - 1;
    assert b == a + d + 1;
    assert b * s == (a + d + 1) * s;
    assert (a + d + 1) * s == a * s + d * s + s;
  }

  /** Dividing by a product is dividing by each factor in turn. */
  lemma NestedDiv(x: nat, m: nat, k: nat)
    requires m > 0 && k > 0
    ensures x / (m * k) == x / m / k
  {
    var q, r := x / m, x % m;
    var q1, r1 := q / k, q % k;
    assert x == m * q + r;
    assert q == k * q1 + r1;
    MulDistrib(m, k, q1, r1);
    MulBelow(m, r1, k);
    DivModUnique(x, m * k, q1, m * r1 + r);
  }

  lemma MulDistrib(m: nat, k: nat, q1: nat, r1: nat)
    ensures m * (k * q1 + r1) == (m * k) * q1 + m * r1
  {
  }

  lemma MulBelow(m: nat, r: nat, k: nat)
    requires r < k
    ensures m * r <= m * k - m
  {
    assert m * k - m * r == m * (k - r);
    MulAtLeast(k - r, m);
    assert m * (k - r) == (k - r) * m;
  }
}
