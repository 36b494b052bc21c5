/** Lexical path normalisation and the component iterator
    (kernel/comps/vfs/src/path/normalize.rs).

    `Normalize` removes repeated `/`, `.` segments and resolves `..`
    without following symbolic links.  The source has two defects, kept
    in `NormalizeAsWritten`: a `..` pops a `..` that was kept earlier,
    and the fast path returns inputs ending in `/.` or `/..` unchanged.
    `Normalize` is the corrected version the rest of the model uses. */
module PathNormalize {

  import opened Common
  import opened Errors

  const NUL: char := '\0'

  /** A real path component: not empty, not `.`, not `..`, no NUL. */
  predicate IsName(seg: string)
  {
    seg != "" && seg != "." && seg != ".." && NUL !in seg
  }

  /** The source's fast-path test: the input needs no rewriting. */
  predicate FastPathAsWritten(s: string)
  {
    && !Contains(s, "//") && !EndsWith(s, "/") && !Contains(s, "/./")
    && !Contains(s, "/../") && !StartsWith(s, "./") && !StartsWith(s, "../")
  }

  /** The fast-path test with the cases it misses excluded as well. */
  predicate FastPath(s: string)
  {
    FastPathAsWritten(s) && !EndsWith(s, "/.") && !EndsWith(s, "/..")
  }

  /** One segment of the slow path as written: `..` pops whatever is on
      top of the stack, even a `..` kept earlier. */
  function StepAsWritten(comps: seq<string>, seg: string, abs: bool): seq<string>
  {
    if seg == "" || seg == "." then comps
    else if seg == ".." then
      if |comps| > 0 then comps[..|comps| - 1]
      else if !abs then [".."]
      else []
    else comps + [seg]
  }

  /** One segment of the slow path: `..` cancels a preceding name; in a
      relative path with no name to cancel it is kept. */
  function Step(comps: seq<string>, seg: string, abs: bool): seq<string>
  {
    if seg == "" || seg == "." then comps
    else if seg == ".." then
      if |comps| > 0 && comps[|comps| - 1] != ".." then comps[..|comps| - 1]
      else if !abs then comps + [".."]
      else comps
    else comps + [seg]
  }

  function ResolveAsWritten(segs: seq<string>, abs: bool, comps: seq<string>): seq<string>
    decreases |segs|
  {
    if |segs| == 0 then comps
    else ResolveAsWritten(segs[1..], abs, StepAsWritten(comps, segs[0], abs))
  }

  function Resolve(segs: seq<string>, abs: bool, comps: seq<string>): seq<string>
    decreases |segs|
  {
    if |segs| == 0 then comps
    else Resolve(segs[1..], abs, Step(comps, segs[0], abs))
  }

  /** The output string built from the resolved components. */
  function Finish(comps: seq<string>, abs: bool): string
  {
    if comps == [] && abs then "/"
    else (if abs then "/" else "") + Join(comps, '/')
  }

  function NormalizeAsWritten(s: string): Result<string, Errno>
  {
    if s == "" then Err(EINVAL)
    else if NUL in s then Err(EINVAL)
    else if s == "/" then Ok("/")
    else if FastPathAsWritten(s) then Ok(s)
    else
      var abs := s[0] == '/';
      Ok(Finish(ResolveAsWritten(Split(s, '/'), abs, []), abs))
  }

  /** `normalize`, corrected.  The error cases, the root and the fast path
      are stated here; normal form and idempotence are lemmas below. */
  function Normalize(s: string): (r: Result<string, Errno>)
    ensures r.Err? <==> s == "" || NUL in s
    ensures r.Err? ==> r.error == EINVAL
    ensures s == "/" ==> r == Ok("/")
    ensures r.Ok? && FastPath(s) ==> r.value == s
  {
    if s == "" then Err(EINVAL)
    else if NUL in s then Err(EINVAL)
    else if s == "/" then Ok("/")
    else if FastPath(s) then Ok(s)
    else
      var abs := s[0] == '/';
      Ok(Finish(Resolve(Split(s, '/'), abs, []), abs))
  }

  /** The segments `Components` yields: those of `split('/')` that are
      neither empty nor `.`. */
  function Components(s: string): (r: seq<string>)
    ensures forall i :: 0 <= i < |r| ==> r[i] != "" && r[i] != "." && '/' !in r[i]
    ensures |r| <= |Split(s, '/')|
  {
    Keep(Split(s, '/'))
  }

  function Keep(segs: seq<string>): (r: seq<string>)
    requires forall i :: 0 <= i < |segs| ==> '/' !in segs[i]
    ensures forall i :: 0 <= i < |r| ==> r[i] != "" && r[i] != "." && '/' !in r[i]
    ensures |r| <= |segs|
    ensures forall x :: x in r <==> x in segs && x != "" && x != "."
  {
    if |segs| == 0 then []
    else if segs[0] == "" || segs[0] == "." then Keep(segs[1..])
    else [segs[0]] + Keep(segs[1..])
  }

  // ----- normal form ---------------------------------------------------

  /** Relative components: each is a name or `..`, and every `..` comes
      before every name. */
  predicate RelativeStack(comps: seq<string>)
  {
    && (forall i :: 0 <= i < |comps| ==> '/' !in comps[i] && (IsName(comps[i]) || comps[i] == ".."))
    && (forall i, j :: 0 <= i < j < |comps| && comps[j] == ".." ==> comps[i] == "..")
  }

  /** Absolute components: names only. */
  predicate AbsoluteStack(comps: seq<string>)
  {
    forall i :: 0 <= i < |comps| ==> '/' !in comps[i] && IsName(comps[i])
  }

  /** A path in normal form: the root, an absolute path of names, or a
      non-empty relative path of leading `..` followed by names. */
  predicate IsNormal(p: string)
  {
    || p == "/"
    || (|p| > 0 && p[0] == '/' && var segs := Split(p, '/'); |segs| >= 2 && AbsoluteStack(segs[1..]))
    || (|p| > 0 && p[0] != '/' && RelativeStack(Split(p, '/')))
  }

  lemma {:induction false} StepKeepsStack(comps: seq<string>, seg: string, abs: bool)
    requires '/' !in seg && NUL !in seg
    requires if abs then AbsoluteStack(comps) else RelativeStack(comps)
    ensures var c := Step(comps, seg, abs); if abs then AbsoluteStack(c) else RelativeStack(c)
  {
  }

  lemma {:induction false} ResolveKeepsStack(segs: seq<string>, abs: bool, comps: seq<string>)
    requires forall i :: 0 <= i < |segs| ==> '/' !in segs[i] && NUL !in segs[i]
    requires if abs then AbsoluteStack(comps) else RelativeStack(comps)
    ensures var c := Resolve(segs, abs, comps); if abs then AbsoluteStack(c) else RelativeStack(c)
    decreases |segs|
  {
    if |segs| > 0 {
      StepKeepsStack(comps, segs[0], abs);
      ResolveKeepsStack(segs[1..], abs, Step(comps, segs[0], abs));
    }
  }

  /** Resolving segments that already form a relative normal stack after
      `comps` only appends them. */
  lemma {:induction false} ResolveNormalRelative(segs: seq<string>, comps: seq<string>)
    requires RelativeStack(comps + segs)
    ensures Resolve(segs, false, comps) == comps + segs
    decreases |segs|
  {
    if |segs| > 0 {
      var all := comps + segs;
      assert all[|comps|] == segs[0];
      if segs[0] == ".." && |comps| > 0 {
        assert all[|comps| - 1] == comps[|comps| - 1];
      }
      assert Step(comps, segs[0], false) == comps + [segs[0]];
      assert (comps + [segs[0]]) + segs[1..] == all;
      ResolveNormalRelative(segs[1..], comps + [segs[0]]);
    } else {
      assert comps + segs == comps;
    }
  }

  /** Resolving names onto names only appends them. */
  lemma {:induction false} ResolveNormalAbsolute(segs: seq<string>, comps: seq<string>)
    requires AbsoluteStack(comps + segs)
    ensures Resolve(segs, true, comps) == comps + segs
    decreases |segs|
  {
    if |segs| > 0 {
      var all := comps + segs;
      assert all[|comps|] == segs[0];
      assert (comps + [segs[0]]) + segs[1..] == all;
      ResolveNormalAbsolute(segs[1..], comps + [segs[0]]);
    } else {
      assert comps + segs == comps;
    }
  }

  /** What `Finish` builds for an absolute path splits back into an empty
      first segment and its components. */
  lemma FinishSplitsAbsolute(comps: seq<string>)
    requires |comps| >= 1
    requires forall i :: 0 <= i < |comps| ==> '/' !in comps[i]
    ensures Finish(comps, true) == Join([""] + comps, '/')
    ensures Split(Finish(comps, true), '/') == [""] + comps
    ensures |Finish(comps, true)| > 0 && Finish(comps, true)[0] == '/'
  {
    var parts := [""] + comps;
    assert parts[1..] == comps;
    JoinCons(parts, '/');
    assert Join(parts, '/') == "/" + Join(comps, '/');
    SplitJoin(parts, '/');
  }

  /** What `Finish` builds for a relative path splits back into its
      components and does not start with `/`. */
  lemma FinishSplitsRelative(comps: seq<string>)
    requires |comps| >= 1 && comps[0] != ""
    requires forall i :: 0 <= i < |comps| ==> '/' !in comps[i]
    ensures Split(Finish(comps, false), '/') == comps
    ensures |Finish(comps, false)| > 0 && Finish(comps, false)[0] != '/'
  {
    assert Finish(comps, false) == Join(comps, '/');
    JoinHead(comps, '/');
    assert Join(comps, '/')[0] == comps[0][0];
    SplitJoin(comps, '/');
  }

  lemma FinishSplits(comps: seq<string>, abs: bool)
    requires |comps| >= 1 && comps[0] != ""
    requires forall i :: 0 <= i < |comps| ==> '/' !in comps[i]
    ensures abs ==> Split(Finish(comps, abs), '/') == [""] + comps
    ensures !abs ==> Split(Finish(comps, abs), '/') == comps
    ensures |Finish(comps, abs)| > 0 && (Finish(comps, abs)[0] == '/' <==> abs)
  {
    if abs { FinishSplitsAbsolute(comps); } else { FinishSplitsRelative(comps); }
  }

  /** The first segment of a string is empty exactly when the string starts
      with the separator. */
  lemma FirstSegment(s: string)
    requires |s| > 0
    ensures Split(s, '/')[0] == "" <==> s[0] == '/'
  {
  }

  /** None of the patterns the fast path rejects occurs in `s`. */
  predicate Clean(s: string)
  {
    && !Contains(s, "//") && !EndsWith(s, "/") && !Contains(s, "/./") && !Contains(s, "/../")
    && !EndsWith(s, "/.") && !EndsWith(s, "/..")
  }

  /** In a clean join of two pieces, the second piece is a name. */
  lemma SecondIsNameOfTwo(s: string, a: string, b: string)
    requires Clean(s) && s == a + "/" + b
    ensures b != "" && b != "." && b != ".."
  {
    if b == "" { EndsWithConcat(a, "/" + b, "/"); }
    if b == "." { EndsWithConcat(a, "/" + b, "/."); }
    if b == ".." { EndsWithConcat(a, "/" + b, "/.."); }
  }

  /** In a clean string `a/b/rest`, `b` is a name. */
  lemma MiddleIsName(s: string, a: string, b: string, rest: string)
    requires Clean(s) && s == a + "/" + b + "/" + rest
    ensures b != "" && b != "." && b != ".."
  {
    if b == "" {
      MiddlePattern(a, b, rest, "//");
    } else if b == "." {
      MiddlePattern(a, b, rest, "/./");
    } else if b == ".." {
      MiddlePattern(a, b, rest, "/../");
    }
  }

  lemma MiddlePattern(a: string, b: string, rest: string, t: string)
    requires t == "/" + b + "/"
    ensures Contains(a + "/" + b + "/" + rest, t)
  {
    var u := "/" + b + "/" + rest;
    assert u == t + rest;
    assert StartsWith(u, t);
    PrefixInConcat(a, u, t);
    assert a + "/" + b + "/" + rest == a + u;
  }

  /** In a clean join, the second piece is a name. */
  lemma SecondIsName(segs: seq<string>)
    requires |segs| >= 2
    requires Clean(Join(segs, '/'))
    ensures segs[1] != "" && segs[1] != "." && segs[1] != ".."
  {
    var s := Join(segs, '/');
    if |segs| == 2 {
      JoinPair(segs);
      SecondIsNameOfTwo(s, segs[0], segs[1]);
    } else {
      JoinTriple(segs);
      MiddleIsName(s, segs[0], segs[1], Join(segs[2..], '/'));
    }
  }

  lemma JoinPair(segs: seq<string>)
    requires |segs| == 2
    ensures Join(segs, '/') == segs[0] + "/" + segs[1]
  {
    JoinCons(segs, '/');
    assert segs[1..] == [segs[1]];
  }

  lemma JoinTriple(segs: seq<string>)
    requires |segs| > 2
    ensures Join(segs, '/') == segs[0] + "/" + segs[1] + "/" + Join(segs[2..], '/')
  {
    JoinCons(segs, '/');
    JoinCons(segs[1..], '/');
    assert segs[1..][1..] == segs[2..];
  }

  /** The fast path only fires on strings whose segments after the first
      are names. */
  lemma {:induction false} FastTail(segs: seq<string>)
    requires |segs| >= 2
    requires forall i :: 0 <= i < |segs| ==> '/' !in segs[i] && NUL !in segs[i]
    requires Clean(Join(segs, '/'))
    ensures AbsoluteStack(segs[1..])
    decreases |segs|
  {
    SecondIsName(segs);
    if |segs| > 2 {
      var t := Join(segs[1..], '/');
      JoinCons(segs, '/');
      assert Join(segs, '/') == (segs[0] + "/") + t;
      SuffixKeepsFast(segs[0] + "/", t);
      FastTail(segs[1..]);
      assert segs[1..][1..] == segs[2..];
    }
  }

  lemma SuffixKeepsFast(a: string, t: string)
    requires Clean(a + t)
    ensures Clean(t)
  {
    if Contains(t, "//") { ContainsInSuffix(a, t, "//"); }
    if Contains(t, "/./") { ContainsInSuffix(a, t, "/./"); }
    if Contains(t, "/../") { ContainsInSuffix(a, t, "/../"); }
    if EndsWith(t, "/") { EndsWithConcat(a, t, "/"); }
    if EndsWith(t, "/.") { EndsWithConcat(a, t, "/."); }
    if EndsWith(t, "/..") { EndsWithConcat(a, t, "/.."); }
  }

  /** A string the corrected fast path accepts is already in normal form. */
  lemma FastPathIsNormal(s: string)
    requires s != "" && s != "/" && NUL !in s && FastPath(s)
    ensures s == "." || IsNormal(s)
  {
    if s == "." {
      return;
    }
    var segs := Split(s, '/');
    JoinSplit(s, '/');
    FirstSegment(s);
    SplitChars(s, '/', NUL);
    if |segs| >= 2 {
      FastTail(segs);
      if s[0] != '/' {
        JoinHead(segs, '/');
        JoinCons(segs, '/');
        assert RelativeStack(segs);
      }
    } else {
      assert s == segs[0];
      assert s[0] != '/';
      assert RelativeStack(segs);
    }
  }

  /** The slow path's output is in normal form whenever some component
      survives. */
  lemma ResolvedIsNormal(s: string)
    requires s != "" && NUL !in s
    requires Resolve(Split(s, '/'), s[0] == '/', []) != []
    ensures IsNormal(Finish(Resolve(Split(s, '/'), s[0] == '/', []), s[0] == '/'))
  {
    var abs := s[0] == '/';
    var comps := Resolve(Split(s, '/'), abs, []);
    SplitChars(s, '/', NUL);
    ResolveKeepsStack(Split(s, '/'), abs, []);
    FinishSplits(comps, abs);
    if abs {
      assert ([""] + comps)[1..] == comps;
    }
  }

  /** Every non-empty result of `Normalize` is in normal form. */
  lemma NormalizeIsNormal(s: string)
    requires Normalize(s).Ok? && Normalize(s).value != ""
    ensures Normalize(s).value == "." || IsNormal(Normalize(s).value)
  {
    if s != "/" && !FastPath(s) {
      if Resolve(Split(s, '/'), s[0] == '/', []) != [] {
        ResolvedIsNormal(s);
      }
    } else if s != "/" {
      FastPathIsNormal(s);
    }
  }

  /** A path in normal form has no NUL. */
  lemma NormalHasNoNul(p: string)
    requires IsNormal(p)
    ensures NUL !in p
  {
    if p != "/" {
      JoinSplit(p, '/');
      JoinChars(Split(p, '/'), '/', NUL);
    }
  }

  /** The slow path rebuilds a path in normal form unchanged. */
  lemma ResolveNormal(p: string)
    requires IsNormal(p) && p != "/"
    ensures Finish(Resolve(Split(p, '/'), p[0] == '/', []), p[0] == '/') == p
  {
    var segs := Split(p, '/');
    JoinSplit(p, '/');
    if p[0] == '/' {
      FirstSegment(p);
      assert Resolve(segs, true, []) == Resolve(segs[1..], true, []);
      ResolveNormalAbsolute(segs[1..], []);
      assert [] + segs[1..] == segs[1..];
      FinishSplitsAbsolute(segs[1..]);
      assert segs == [""] + segs[1..];
    } else {
      ResolveNormalRelative(segs, []);
      assert [] + segs == segs;
      assert Finish(segs, false) == "" + Join(segs, '/');
      assert "" + Join(segs, '/') == Join(segs, '/');
    }
  }

  /** A path in normal form is its own normalisation. */
  lemma NormalIsFixedPoint(p: string)
    requires IsNormal(p)
    ensures Normalize(p) == Ok(p)
  {
    NormalHasNoNul(p);
    if p != "/" && !FastPath(p) {
      ResolveNormal(p);
    }
  }

  /** Normalising twice gives the same result as normalising once. */
  lemma NormalizeIdempotent(s: string)
    requires Normalize(s).Ok? && Normalize(s).value != ""
    ensures Normalize(Normalize(s).value) == Normalize(s)
  {
    NormalizeIsNormal(s);
    if Normalize(s).value != "." {
      NormalIsFixedPoint(Normalize(s).value);
    }
  }

  /** The result starts with `/` exactly when the input does. */
  lemma NormalizeKeepsAbsoluteness(s: string)
    requires Normalize(s).Ok? && Normalize(s).value != ""
    ensures Normalize(s).value[0] == '/' <==> s[0] == '/'
  {
    if s != "/" && !FastPath(s) {
      var abs := s[0] == '/';
      var comps := Resolve(Split(s, '/'), abs, []);
      SplitChars(s, '/', NUL);
      ResolveKeepsStack(Split(s, '/'), abs, []);
      if comps != [] {
        FinishSplits(comps, abs);
      }
    }
  }

  /** An absolute input whose components all cancel normalises to the root. */
  lemma AllCancelledIsRoot(s: string)
    requires s != "" && NUL !in s && s[0] == '/' && !FastPath(s)
    requires Resolve(Split(s, '/'), true, []) == []
    ensures Normalize(s) == Ok("/")
  {
  }

  // ----- borrowed or owned ----------------------------------------------

  /** Whether `normalize` as written returns `Cow::Borrowed`: the root,
      an input the fast path accepts, and an absolute input whose
      components all cancel (the borrowed `"/"`).  Every other result of
      the slow path is `Cow::Owned`. */
  predicate BorrowsAsWritten(s: string)
  {
    || s == "/"
    || FastPathAsWritten(s)
    || (|s| > 0 && s[0] == '/' && ResolveAsWritten(Split(s, '/'), true, []) == [])
  }

  /** Segments that are non-empty and hold no `/`. */
  predicate Solid(segs: seq<string>)
  {
    forall i :: 0 <= i < |segs| ==> segs[i] != "" && '/' !in segs[i]
  }

  /** The slow path as written keeps only non-empty segments without `/`. */
  lemma {:induction false} ResolveAsWrittenSegments(segs: seq<string>, abs: bool, comps: seq<string>)
    requires forall i :: 0 <= i < |segs| ==> '/' !in segs[i]
    requires Solid(comps)
    ensures Solid(ResolveAsWritten(segs, abs, comps))
    decreases |segs|
  {
    if |segs| > 0 {
      var next := StepAsWritten(comps, segs[0], abs);
      assert Solid(next) by {
        if segs[0] == ".." && |comps| == 0 && !abs {
          assert next == [".."];
        } else if segs[0] != "" && segs[0] != "." && segs[0] != ".." {
          assert next == comps + [segs[0]];
        }
      }
      ResolveAsWrittenSegments(segs[1..], abs, next);
    }
  }

  /** A successful `normalize` as written is borrowed exactly when it took
      the fast path or returned the root: an owned result is never `"/"`. */
  lemma BorrowedIsFastOrRootAsWritten(s: string)
    requires NormalizeAsWritten(s).Ok?
    ensures BorrowsAsWritten(s) <==> FastPathAsWritten(s) || NormalizeAsWritten(s) == Ok("/")
  {
    if s != "/" && !FastPathAsWritten(s) {
      var abs := s[0] == '/';
      var comps := ResolveAsWritten(Split(s, '/'), abs, []);
      assert NormalizeAsWritten(s) == Ok(Finish(comps, abs));
      if comps != [] {
        ResolveAsWrittenSegments(Split(s, '/'), abs, []);
        JoinHead(comps, '/');
        if abs {
          assert Finish(comps, true) == "/" + Join(comps, '/');
        } else {
          assert Finish(comps, false) == Join(comps, '/');
          var j := Join(comps, '/');
          assert j[..|comps[0]|] == comps[0];
          assert j[0] == comps[0][0];
        }
      }
    }
  }

  /** On an absolute path there is never a kept `..` to pop, so the slow
      path as written and the corrected one agree. */
  lemma {:induction false} ResolveAbsoluteAgrees(segs: seq<string>, comps: seq<string>)
    requires forall i :: 0 <= i < |comps| ==> comps[i] != ".."
    ensures Resolve(segs, true, comps) == ResolveAsWritten(segs, true, comps)
    decreases |segs|
  {
    if |segs| > 0 {
      assert Step(comps, segs[0], true) == StepAsWritten(comps, segs[0], true);
      ResolveAbsoluteAgrees(segs[1..], Step(comps, segs[0], true));
    }
  }

  // ----- the two defects -------------------------------------------------

  /** As written, `../..` normalises to the empty string: the second `..`
      pops the first. */
  lemma DotDotPopsDotDotAsWritten()
    ensures NormalizeAsWritten("../..") == Ok("")
  {
    assert !FastPathAsWritten("../..") by { assert StartsWith("../..", "../"); }
    SplitDotDots();
    var segs := ["..", ".."];
    assert segs[1..] == [".."];
    assert ResolveAsWritten(segs, false, []) == ResolveAsWritten([".."], false, [".."]);
    assert ResolveAsWritten([".."], false, [".."]) == [];
    assert Finish([], false) == "";
  }

  lemma SplitDotDots()
    ensures Split("../..", '/') == ["..", ".."]
  {
    SplitConcat("..", "..", '/');
    assert "../.." == ".." + ['/'] + "..";
  }

  /** As written, `/a/..` comes back unchanged from the fast path. */
  lemma FastPathMissesTrailingDotDotAsWritten()
    ensures NormalizeAsWritten("/a/..") == Ok("/a/..")
  {
    var s := "/a/..";
    NotInSample("//");
    NotInSample("/./");
    NotInSample("/../");
    assert s[|s| - 1..] == ".";
    assert s[..2] == "/a" && s[..3] == "/a/";
    assert FastPathAsWritten(s);
    assert NUL !in s by {
      forall i | 0 <= i < |s| ensures s[i] != NUL { }
    }
  }

  lemma NotInSample(t: string)
    requires t == "//" || t == "/./" || t == "/../"
    ensures !Contains("/a/..", t)
  {
    var s := "/a/..";
    forall i ensures !OccursAt(s, t, i) {
      if 0 <= i <= |s| - |t| {
        if i == 0 { assert s[0..|t|][1] == 'a'; }
        else if i == 1 { assert s[1..1 + |t|][0] == 'a'; }
        else if i == 2 { assert s[2..2 + |t|][|t| - 1] == '.'; }
        else { assert s[i..i + |t|][0] == '.'; }
      }
    }
  }

  /** Corrected: a relative path made only of `..` keeps every one. */
  lemma {:induction false} DotDotsAreKept(n: nat)
    requires n >= 1
    ensures Normalize(Join(Repeat("..", n), '/')) == Ok(Join(Repeat("..", n), '/'))
  {
    RepeatDotDotIsNormal(n);
    NormalIsFixedPoint(Join(Repeat("..", n), '/'));
  }

  function Repeat(x: string, n: nat): (r: seq<string>)
    ensures |r| == n && forall i :: 0 <= i < n ==> r[i] == x
  {
    if n == 0 then [] else [x] + Repeat(x, n - 1)
  }

  lemma RepeatDotDotIsNormal(n: nat)
    requires n >= 1
    ensures IsNormal(Join(Repeat("..", n), '/'))
  {
    var parts := Repeat("..", n);
    SplitJoin(parts, '/');
    JoinHead(parts, '/');
  }
}
