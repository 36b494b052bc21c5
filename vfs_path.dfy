/** Path values of the VFS: the borrowed `PathSlice`
    (kernel/comps/vfs/src/path/slice.rs) and the validated `VfsPath`
    (kernel/comps/vfs/src/path.rs).

    Both work on strings that their constructors have normalised.  The
    queries that the two types implement identically (`parent`,
    `file_name`, `starts_with`) are defined once here; `strip_prefix` and
    `join` differ between the two and have one member each.

    `VfsPath::join` promises to reject a component containing NUL but does
    not check for it: `PathJoinAsWritten` keeps the code as written and
    `PathJoin` is the corrected version. */
module Paths {

  import opened Common
  import opened Errors
  import opened PathNormalize

  predicate IsAbsolute(p: string)
  {
    |p| > 0 && p[0] == '/'
  }

  // ----- construction ----------------------------------------------------

  /** What `PathSlice::new` can come to: a slice, an error, or the
      `unreachable!` it reaches when `normalize` returns an owned string. */
  datatype SliceOutcome = Slice(path: string) | SliceErr(error: Errno) | SlicePanic

  /** `PathSlice::new` as written: it keeps what `normalize` (as written)
      returns borrowed, which is the input itself or the root, and panics
      on every owned result, such as the `/bin/sh` made from `/bin//sh`. */
  function NewSliceAsWritten(source: string): (r: SliceOutcome)
    ensures r.SliceErr? <==> NormalizeAsWritten(source).Err?
    ensures r.SliceErr? ==> r.error == EINVAL
    ensures r.Slice? <==>
      (NormalizeAsWritten(source).Ok? && (FastPathAsWritten(source) || NormalizeAsWritten(source) == Ok("/")))
    ensures r.Slice? ==> NormalizeAsWritten(source) == Ok(r.path)
    ensures r.Slice? ==> r.path == source || r.path == "/"
  {
    if source == "" || NUL in source then SliceErr(EINVAL)
    else
      BorrowedIsFastOrRootAsWritten(source);
      if !BorrowsAsWritten(source) then SlicePanic
      else if source == "/" || FastPathAsWritten(source) then Slice(source)
      else Slice("/")
  }

  /** An absolute path with a doubled slash, as `execve` may pass it,
      reaches the panic. */
  lemma NewSliceAsWrittenPanics()
    ensures NewSliceAsWritten("/bin//sh") == SlicePanic
  {
    PlainBinSh();
    SplitBinSh();
    ResolveBinSh();
  }

  /** `/bin//sh` holds no NUL and fails the fast-path test. */
  lemma PlainBinSh()
    ensures NUL !in "/bin//sh" && !FastPathAsWritten("/bin//sh")
  {
    var s := "/bin//sh";
    assert s[4..6] == "//";
    assert OccursAt(s, "//", 4);
    assert NUL !in s by {
      forall i | 0 <= i < |s| ensures s[i] != NUL { }
    }
  }

  lemma ResolveBinSh()
    ensures ResolveAsWritten(["", "bin", "", "sh"], true, []) == ["bin", "sh"]
  {
    var segs: seq<string> := ["", "bin", "", "sh"];
    var bin: seq<string> := ["bin"];
    assert StepAsWritten(bin, "sh", true) == ["bin", "sh"];
    assert ResolveAsWritten(segs[3..], true, bin) == ["bin", "sh"];
    assert segs[2..][1..] == segs[3..];
    assert ResolveAsWritten(segs[2..], true, bin) == ["bin", "sh"];
    assert segs[1..][1..] == segs[2..];
    assert StepAsWritten([], "bin", true) == bin;
    assert ResolveAsWritten(segs[1..], true, []) == ["bin", "sh"];
  }

  lemma SplitBinSh()
    ensures Split("/bin//sh", '/') == ["", "bin", "", "sh"]
  {
    var parts := ["", "bin", "", "sh"];
    assert Join(parts[3..], '/') == "sh";
    assert Join(parts[2..], '/') == "/sh";
    assert Join(parts[1..], '/') == "bin//sh";
    assert Join(parts, '/') == "/bin//sh";
    SplitJoin(parts, '/');
  }

  /** A path whose components all cancel comes back from `normalize` as
      the borrowed root, so both constructors give the slice `/`. */
  lemma NewSliceOfCancelled()
    ensures NewSliceAsWritten("//") == Slice("/")
    ensures NewSlice("//") == Ok("/")
  {
    var s := "//";
    assert OccursAt(s, "//", 0);
    assert NUL !in s;
    var parts := ["", "", ""];
    assert Join(parts[1..], '/') == "/";
    assert Join(parts, '/') == s;
    SplitJoin(parts, '/');
    assert ResolveAsWritten(parts, true, []) == [];
    assert Resolve(parts, true, []) == [];
  }

  /** `PathSlice::new`, corrected: an input that `normalize` would turn
      into anything but itself or the root is rejected with `EINVAL`
      instead of panicking, so a slice is always `/`, `.` or a path in
      normal form that `normalize` returns. */
  function NewSlice(source: string): (r: Result<string, Errno>)
    ensures r.Err? ==> r.error == EINVAL
    ensures r.Err? <==>
      (source == "" || NUL in source || (Normalize(source) != Ok(source) && Normalize(source) != Ok("/")))
    ensures r.Ok? ==> Normalize(source) == Ok(r.value)
    ensures r.Ok? ==> r.value == source || r.value == "/"
    ensures r.Ok? ==> r.value == "/" || r.value == "." || IsNormal(r.value)
  {
    match Normalize(source)
    case Err(e) => Err(e)
    case Ok(v) =>
      if v == source || v == "/" then
        NormalizeIsNormal(source);
        Ok(v)
      else Err(EINVAL)
  }

  /** The corrected constructor accepts every path in normal form, and it
      agrees with the code as written wherever that does not panic and its
      fast path is not fooled by a trailing `/.` or `/..`. */
  lemma NewSliceOfNormal(p: string)
    requires IsNormal(p)
    ensures NewSlice(p) == Ok(p)
  {
    NormalIsFixedPoint(p);
  }

  lemma NewSliceAgreesAsWritten(s: string)
    requires !NewSliceAsWritten(s).SlicePanic?
    requires !EndsWith(s, "/.") && !EndsWith(s, "/..")
    ensures NewSliceAsWritten(s).Slice? ==> NewSlice(s) == Ok(NewSliceAsWritten(s).path)
    ensures NewSliceAsWritten(s).SliceErr? ==> NewSlice(s) == Err(EINVAL)
  {
    if s != "" && NUL !in s && s != "/" && !FastPathAsWritten(s) {
      ResolveAbsoluteAgrees(Split(s, '/'), []);
    }
  }

  /** Every character of `s` is `.` or `/`. */
  predicate OnlyDotsAndSlashes(s: string)
  {
    forall i :: 0 <= i < |s| ==> s[i] == '.' || s[i] == '/'
  }

  /** `VfsPath::normalize_str`: the same one-pass resolution as the
      corrected `normalize` (a `..` at the root is dropped, a `..` on a
      kept `..` is kept), without the fast path.  A relative path that
      cancels completely becomes `.` when it is made only of dots and
      slashes and is rejected otherwise. */
  function NormalizeStr(s: string): Result<string, Errno>
  {
    if s == "/" then Ok("/")
    else
      var abs := |s| > 0 && s[0] == '/';
      var comps := Resolve(Split(s, '/'), abs, []);
      if comps == [] then
        if abs then Ok("/")
        else if OnlyDotsAndSlashes(s) then Ok(".")
        else Err(EINVAL)
      else Ok(Finish(comps, abs))
  }

  /** `VfsPath::new`: rejects the empty string and NUL, then normalises. */
  function NewPath(s: string): (r: Result<string, Errno>)
    ensures r.Err? ==> r.error == EINVAL
    ensures s == "" || NUL in s ==> r.Err?
    ensures s == "/" ==> r == Ok("/")
  {
    if s == "" then Err(EINVAL)
    else if NUL in s then Err(EINVAL)
    else NormalizeStr(s)
  }

  /** What `VfsPath::new` accepts is `.` or a path in normal form, and it
      starts with `/` exactly when the input does. */
  lemma NewPathIsNormal(s: string)
    requires NewPath(s).Ok?
    ensures NewPath(s).value == "." || IsNormal(NewPath(s).value)
    ensures IsAbsolute(NewPath(s).value) <==> IsAbsolute(s)
  {
    if s != "/" && Resolve(Split(s, '/'), s[0] == '/', []) != [] {
      var abs := s[0] == '/';
      var comps := Resolve(Split(s, '/'), abs, []);
      SplitChars(s, '/', NUL);
      ResolveKeepsStack(Split(s, '/'), abs, []);
      ResolvedIsNormal(s);
      FinishSplits(comps, abs);
    }
  }

  /** `VfsPath::new` accepts a path in normal form unchanged. */
  lemma NewPathOfNormal(p: string)
    requires IsNormal(p)
    ensures NewPath(p) == Ok(p)
  {
    NormalHasNoNul(p);
    if p != "/" {
      ResolveNormal(p);
    }
  }

  /** Constructing a `VfsPath` from a `VfsPath` changes nothing. */
  lemma NewPathIdempotent(s: string)
    requires NewPath(s).Ok?
    ensures NewPath(NewPath(s).value) == NewPath(s)
  {
    NewPathIsNormal(s);
    var v := NewPath(s).value;
    if v == "." {
      assert Split(".", '/') == ["."];
      assert OnlyDotsAndSlashes(".");
    } else {
      NewPathOfNormal(v);
    }
  }

  /** Where `normalize` produces a non-empty path, `VfsPath::new` produces
      the same one. */
  lemma NewPathAgreesWithNormalize(s: string)
    requires Normalize(s).Ok? && Normalize(s).value != ""
    ensures NewPath(s) == Normalize(s)
  {
    if s == "." {
      assert Split(".", '/') == ["."];
      assert OnlyDotsAndSlashes(".");
    } else if s != "/" && FastPath(s) {
      FastPathIsNormal(s);
      NewPathOfNormal(s);
    }
  }

  /** A `..` at the root of an absolute path is dropped. */
  lemma DotDotAtRootIsDropped()
    ensures NewPath("/..") == Ok("/")
  {
    assert "/.." == "" + ['/'] + "..";
    SplitConcat("", "..", '/');
    assert Split("..", '/') == [".."];
    assert NUL !in "/..";
  }

  /** A relative path that cancels to nothing is `.` when it is made of dots
      and slashes ... */
  lemma CancelledDotsAreDot()
    ensures NewPath("./.") == Ok(".")
  {
    var s := "./.";
    DotSlashDot(s);
    CancelledRelative(s);
  }

  lemma DotSlashDot(s: string)
    requires |s| == 3 && s[0] == '.' && s[1] == '/' && s[2] == '.'
    ensures Resolve(Split(s, '/'), false, []) == []
    ensures OnlyDotsAndSlashes(s) && NUL !in s
  {
    assert s == "." + "/" + ".";
    SplitTwo(".", ".");
    ResolveDots();
  }

  /** ... and an error otherwise: a name that does not start with a dot,
      cancelled by `..`, is rejected.  (A name made only of dots, such as
      `...`, cancels to `.` instead.) */
  lemma CancelledNameIsError(name: string)
    requires IsName(name) && '/' !in name && name[0] != '.'
    ensures NewPath(name + "/..") == Err(EINVAL)
  {
    var s := name + "/..";
    assert s == name + "/" + "..";
    SplitTwo(name, "..");
    NameCancels(name);
    assert Resolve(Split(s, '/'), false, []) == [];
    assert s[0] == name[0];
    assert !OnlyDotsAndSlashes(s);
    assert NUL !in s by {
      assert s == name + ['/', '.', '.'];
    }
    CancelledRelative(s);
  }

  lemma NameCancels(name: string)
    requires IsName(name) && '/' !in name
    ensures Resolve([name, ".."], false, []) == []
  {
    var segs := [name, ".."];
    assert Step([], name, false) == [name];
    assert Step([name], "..", false) == [];
    assert segs[1..] == [".."] && segs[1..][1..] == [];
    assert Resolve(segs, false, []) == Resolve([".."], false, [name]);
    assert Resolve([".."], false, [name]) == Resolve([], false, []);
  }

  /** A relative path whose components all cancel. */
  lemma CancelledRelative(s: string)
    requires |s| > 1 && s[0] != '/' && NUL !in s
    requires Resolve(Split(s, '/'), false, []) == []
    ensures NewPath(s) == if OnlyDotsAndSlashes(s) then Ok(".") else Err(EINVAL)
  {
  }

  /** Two slash-free names joined by one `/` split back into the two. */
  lemma SplitTwo(x: string, y: string)
    requires '/' !in x && '/' !in y
    ensures Split(x + "/" + y, '/') == [x, y]
  {
    assert x + "/" + y == x + ['/'] + y;
    SplitConcat(x, y, '/');
    assert Find(y, '/') == None;
  }

  lemma ResolveDots()
    ensures Resolve([".", "."], false, []) == []
  {
    assert Step([], ".", false) == [];
    assert [".", "."][1..] == ["."];
  }



  // ----- queries shared by PathSlice and VfsPath ----------------------------

  /** `parent`: `None` for the root and for a relative path without `/`;
      `/` for a path whose only `/` is the leading one; otherwise the text
      before the last `/`. */
  function Parent(p: string): (r: Option<string>)
    ensures r.None? <==> p == "/" || '/' !in p
    ensures r.Some? ==> |r.value| < |p|
  {
    if p == "/" then None
    else
      match RFind(p, '/')
      case None => None
      case Some(idx) => if idx == 0 then Some("/") else Some(p[..idx])
  }

  /** `file_name`: `None` only for the root; otherwise the longest suffix
      without `/`. */
  function FileName(p: string): (r: Option<string>)
    ensures r.None? <==> p == "/"
    ensures r.Some? ==> '/' !in r.value && EndsWith(p, r.value)
    ensures r.Some? && |r.value| < |p| ==> p[|p| - |r.value| - 1] == '/'
  {
    if p == "/" then None
    else
      match RFind(p, '/')
      case None => Some(p)
      case Some(idx) => Some(p[idx + 1..])
  }

  /** `starts_with`: the root is a prefix of every absolute path; any other
      base must be a textual prefix that ends on a component boundary. */
  predicate StartsWithBase(p: string, base: string)
  {
    if base == "/" then IsAbsolute(p)
    else StartsWith(p, base) && (|p| == |base| || p[|base|] == '/')
  }

  /** The text that `join` builds: the component after the root, or after
      the path and one `/`. */
  function Append(p: string, comp: string): string
  {
    if p == "/" then "/" + comp else p + "/" + comp
  }

  /** The parent of a joined path is the path joined onto. */
  lemma ParentOfAppend(p: string, comp: string)
    requires p != "" && comp != "" && '/' !in comp
    ensures Parent(Append(p, comp)) == Some(p)
  {
    if p == "/" {
      RFindLast("", comp, '/');
      assert "/" + comp == "" + ['/'] + comp;
    } else {
      RFindLast(p, comp, '/');
      assert p + "/" + comp == p + ['/'] + comp;
      assert (p + "/" + comp)[..|p|] == p;
      if |p| == 0 { assert false; }
    }
  }

  /** The file name of a joined path is the component joined. */
  lemma FileNameOfAppend(p: string, comp: string)
    requires p != "" && comp != "" && '/' !in comp
    ensures FileName(Append(p, comp)) == Some(comp)
  {
    var a := if p == "/" then "" else p;
    assert Append(p, comp) == a + ['/'] + comp;
    RFindLast(a, comp, '/');
    assert (a + ['/'] + comp)[|a| + 1..] == comp;
  }

  /** Joining the file name back onto the parent gives the path again. */
  lemma ParentAndFileName(p: string)
    requires Parent(p).Some? && !StartsWith(p, "//")
    ensures Append(Parent(p).value, FileName(p).value) == p
  {
    var idx := RFind(p, '/').value;
    var name := p[idx + 1..];
    assert FileName(p) == Some(name);
    if idx == 0 {
      assert p == "/" + name;
    } else {
      assert p[..idx] != "/";
      assert p == p[..idx] + "/" + name;
    }
  }

  /** A path joined onto a base starts with that base. */
  lemma AppendStartsWithBase(p: string, comp: string)
    requires p != "" && comp != ""
    ensures StartsWithBase(Append(p, comp), p)
  {
    if p != "/" {
      assert Append(p, comp)[..|p|] == p;
    }
  }

  // ----- PathSlice ------------------------------------------------------------

  /** `PathSlice::strip_prefix`: `None` unless `p` starts with `base`; `.`
      when the two are equal; otherwise the rest after the base and its
      separator (the root has no separator to skip). */
  function SliceStripPrefix(p: string, base: string): (r: Option<string>)
    ensures r.Some? <==> StartsWithBase(p, base)
  {
    if !StartsWithBase(p, base) then None
    else if |p| == |base| then Some(".")
    else
      var start := if base == "/" then 1 else |base| + 1;
      Some(p[start..])
  }

  /** `PathSlice::strip_suffix`: the path up to and including its last `/`. */
  function StripSuffix(p: string): (r: Option<string>)
    ensures r.None? <==> '/' !in p
    ensures r.Some? ==> EndsWith(r.value, "/") && StartsWith(p, r.value)
  {
    match RFind(p, '/')
    case None => None
    case Some(last) => Some(p[..last + 1])
  }

  /** `PathSlice::join`: rejects an empty component and one with `/`. */
  function SliceJoin(p: string, comp: string): (r: Result<string, Errno>)
    ensures r.Err? <==> comp == "" || '/' in comp
    ensures r.Err? ==> r.error == EINVAL
  {
    if comp == "" || '/' in comp then Err(EINVAL)
    else Ok(Append(p, comp))
  }

  /** Stripping a base off a path and joining it back gives the path. */
  lemma SliceStripPrefixRoundTrip(p: string, base: string)
    requires base != ""
    requires SliceStripPrefix(p, base).Some? && SliceStripPrefix(p, base).value != "."
    requires |p| != |base|
    ensures Append(base, SliceStripPrefix(p, base).value) == p
  {
    if base != "/" {
      assert p == p[..|base|] + "/" + p[|base| + 1..];
    } else {
      assert p == "/" + p[1..];
    }
  }

  /** The text kept by `strip_suffix` followed by the file name is the
      whole path. */
  lemma StripSuffixAndFileName(p: string)
    requires p != "/" && '/' in p
    ensures StripSuffix(p).value + FileName(p).value == p
  {
    var last := RFind(p, '/').value;
    assert p == p[..last + 1] + p[last + 1..];
  }

  /** Stripping a path's own prefix off a joined path gives the component. */
  lemma SliceStripJoined(p: string, comp: string)
    requires p != "" && comp != "" && '/' !in comp
    ensures SliceStripPrefix(Append(p, comp), p) == Some(comp)
  {
    AppendStartsWithBase(p, comp);
    if p == "/" {
      assert ("/" + comp)[1..] == comp;
    } else {
      assert (p + "/" + comp)[|p| + 1..] == comp;
    }
  }

  // ----- VfsPath ---------------------------------------------------------------

  /** `VfsPath::extension`: the text after the last `.` of the file name,
      unless that dot is the name's first or last character. */
  function Extension(p: string): (r: Option<string>)
    ensures r.Some? ==> FileName(p).Some? && r.value != "" && '.' !in r.value
    ensures r.Some? ==> var name := FileName(p).value;
      |name| >= |r.value| + 2 && EndsWith(name, "." + r.value)
  {
    match FileName(p)
    case None => None
    case Some(name) =>
      match RFind(name, '.')
      case None => None
      case Some(idx) =>
        if idx > 0 && idx < |name| - 1 then
          DotSuffix(name, idx);
          Some(name[idx + 1..])
        else None
  }

  /** The text after a dot, with the dot, ends the name. */
  lemma DotSuffix(name: string, idx: nat)
    requires 0 < idx < |name| - 1 && name[idx] == '.'
    ensures |name| >= |name[idx + 1..]| + 2 && EndsWith(name, "." + name[idx + 1..])
  {
    assert name[idx..] == "." + name[idx + 1..];
  }

  /** A file name `stem.ext` has extension `ext` when the stem is not empty
      and `ext` holds no dot; a name without a dot or starting with its
      only dot has none. */
  lemma ExtensionOfAppend(p: string, stem: string, ext: string)
    requires p != "" && '/' !in stem + "." + ext
    requires stem != "" && ext != "" && '.' !in ext
    ensures Extension(Append(p, stem + "." + ext)) == Some(ext)
  {
    var name := stem + "." + ext;
    FileNameOfAppend(p, name);
    RFindLast(stem, ext, '.');
    assert name == stem + ['.'] + ext;
    assert name[|stem| + 1..] == ext;
  }

  /** A hidden file such as `.bashrc` has no extension. */
  lemma HiddenFileHasNoExtension(p: string, name: string)
    requires p != "" && '/' !in name && |name| > 0 && name[0] == '.' && '.' !in name[1..]
    ensures Extension(Append(p, name)) == None
  {
    FileNameOfAppend(p, name);
    LeadingDotIsLast(name);
  }

  lemma LeadingDotIsLast(name: string)
    requires |name| > 0 && name[0] == '.' && '.' !in name[1..]
    ensures RFind(name, '.') == Some(0)
  {
    RFindLast("", name[1..], '.');
    assert name == "" + ['.'] + name[1..];
  }

  /** `VfsPath::strip_prefix`: like the slice version, but stripping the
      root off the root gives `None` and stripping a path off itself gives
      the empty string. */
  function PathStripPrefix(p: string, base: string): (r: Option<string>)
    ensures r.Some? ==> StartsWithBase(p, base)
    ensures r.None? ==> !StartsWithBase(p, base) || (base == "/" && p == "/")
    ensures r.Some? && base != "/" && |p| == |base| ==> r.value == ""
  {
    if StartsWithBase(p, base) then
      if base == "/" then
        if |p| > 1 then Some(p[1..]) else None
      else if |p| == |base| then Some("")
      else Some(p[|base| + 1..])
    else None
  }

  /** Stripping a base off a longer path and joining it back gives the
      path. */
  lemma PathStripPrefixRoundTrip(p: string, base: string)
    requires base != "" && |p| != |base|
    requires PathStripPrefix(p, base).Some?
    ensures Append(base, PathStripPrefix(p, base).value) == p
  {
    if base != "/" {
      assert p == p[..|base|] + "/" + p[|base| + 1..];
    } else {
      assert p == "/" + p[1..];
    }
  }

  /** Stripping the base off a joined path gives the component back. */
  lemma PathStripJoined(p: string, comp: string)
    requires p != "" && comp != "" && '/' !in comp
    ensures PathStripPrefix(Append(p, comp), p) == Some(comp)
  {
    AppendStartsWithBase(p, comp);
    if p == "/" {
      assert ("/" + comp)[1..] == comp;
    } else {
      assert (p + "/" + comp)[|p| + 1..] == comp;
    }
  }

  /** `VfsPath::join` as written: it rejects an empty component, one with
      `/`, `.` and `..`, but not one with NUL. */
  function PathJoinAsWritten(p: string, comp: string): Result<string, Errno>
  {
    if comp == "" || '/' in comp || comp == "." || comp == ".." then Err(EINVAL)
    else Ok(Append(p, comp))
  }

  /** As written, `join` builds a path that `VfsPath::new` rejects. */
  lemma JoinAcceptsNulAsWritten()
    ensures PathJoinAsWritten("/a", "b\0") == Ok("/a/b\0")
    ensures NewPath("/a/b\0").Err?
  {
    var comp := "b\0";
    assert comp[0] != '/' && comp[1] != '/';
    assert '/' !in comp;
    assert Append("/a", comp) == "/a/b\0";
    assert "/a/b\0"[4] == NUL;
  }

  /** `VfsPath::join`, corrected: the component must be a name. */
  function PathJoin(p: string, comp: string): (r: Result<string, Errno>)
    ensures r.Err? <==> !IsName(comp) || '/' in comp
    ensures r.Err? ==> r.error == EINVAL
  {
    if comp == "" || '/' in comp || comp == "." || comp == ".." || NUL in comp then Err(EINVAL)
    else Ok(Append(p, comp))
  }

  /** The segments of a joined path are those of the path and the
      component. */
  lemma AppendSplits(p: string, comp: string)
    requires p != "/" && '/' !in comp
    ensures Split(Append(p, comp), '/') == Split(p, '/') + [comp]
  {
    var segs := Split(p, '/');
    JoinSplit(p, '/');
    var segs' := segs + [comp];
    assert segs'[..|segs'| - 1] == segs;
    JoinSnoc(segs', '/');
    SplitJoin(segs', '/');
  }

  /** Joining a name onto a path in normal form gives a path in normal
      form, which `VfsPath::new` accepts unchanged. */
  lemma PathJoinIsNormal(p: string, comp: string)
    requires IsNormal(p) && PathJoin(p, comp).Ok?
    ensures IsNormal(PathJoin(p, comp).value)
    ensures NewPath(PathJoin(p, comp).value) == PathJoin(p, comp)
  {
    AppendIsNormal(p, comp);
    NewPathOfNormal(Append(p, comp));
  }

  lemma AppendIsNormal(p: string, comp: string)
    requires IsNormal(p) && IsName(comp) && '/' !in comp
    ensures IsNormal(Append(p, comp))
  {
    if p == "/" {
      RootAppendIsNormal(comp);
    } else if p[0] == '/' {
      AbsAppendIsNormal(p, comp);
    } else {
      RelAppendIsNormal(p, comp);
    }
  }

  lemma AbsAppendIsNormal(p: string, comp: string)
    requires p != "/" && |p| > 0 && p[0] == '/'
    requires |Split(p, '/')| >= 2 && AbsoluteStack(Split(p, '/')[1..])
    requires IsName(comp) && '/' !in comp
    ensures IsNormal(Append(p, comp))
  {
    var r := p + "/" + comp;
    AppendSplits(p, comp);
    var segs := Split(p, '/');
    assert Split(r, '/') == segs + [comp];
    assert (segs + [comp])[1..] == segs[1..] + [comp];
    AbsoluteSnoc(segs[1..], comp);
    assert r[0] == '/';
  }

  lemma RelAppendIsNormal(p: string, comp: string)
    requires |p| > 0 && p[0] != '/' && RelativeStack(Split(p, '/'))
    requires IsName(comp) && '/' !in comp
    ensures IsNormal(Append(p, comp))
  {
    var r := p + "/" + comp;
    AppendSplits(p, comp);
    var segs := Split(p, '/');
    assert Split(r, '/') == segs + [comp];
    RelativeSnoc(segs, comp);
    assert r[0] == p[0];
  }

  /** A name after an absolute stack keeps it one. */
  lemma AbsoluteSnoc(comps: seq<string>, x: string)
    requires AbsoluteStack(comps) && IsName(x) && '/' !in x
    ensures AbsoluteStack(comps + [x])
  {
    var c := comps + [x];
    forall i | 0 <= i < |c|
      ensures '/' !in c[i] && IsName(c[i])
    {
      if i < |comps| {
        assert c[i] == comps[i];
      }
    }
  }

  /** A name after a relative stack keeps it one. */
  lemma RelativeSnoc(comps: seq<string>, x: string)
    requires RelativeStack(comps) && IsName(x) && '/' !in x
    ensures RelativeStack(comps + [x])
  {
    var c := comps + [x];
    forall i | 0 <= i < |c|
      ensures '/' !in c[i] && (IsName(c[i]) || c[i] == "..")
    {
      if i < |comps| {
        assert c[i] == comps[i];
      }
    }
    forall i, j | 0 <= i < j < |c| && c[j] == ".."
      ensures c[i] == ".."
    {
      assert j < |comps|;
      assert c[i] == comps[i] && c[j] == comps[j];
    }
  }

  lemma RootAppendIsNormal(comp: string)
    requires IsName(comp) && '/' !in comp
    ensures IsNormal(Append("/", comp))
  {
    var r := Append("/", comp);
    assert r == Join(["", comp], '/');
    SplitJoin(["", comp], '/');
    assert Split(r, '/')[1..] == [comp];
  }
}
