/** The value types of `axconfig-gen` configuration files
    (vendor/axconfig-gen/src/ty.rs) and the error kinds of the crate
    (vendor/axconfig-gen/src/lib.rs). */
module ConfigTypes {

  import opened Common

  /** `ConfigErr`; the TOML parser's error is not modelled beyond its kind. */
  datatype ConfigErr = Parse | InvalidValue | InvalidType | ValueTypeMismatch | Other(msg: string)

  /** `ConfigType`. */
  datatype ConfigType = Bool | Int | Uint | Str | Tuple(items: seq<ConfigType>)
                      | Array(elem: ConfigType) | Unknown

  /** A type with no `Unknown` anywhere inside it. */
  predicate Known(t: ConfigType)
  {
    match t
    case Unknown => false
    case Tuple(items) => forall i :: 0 <= i < |items| ==> Known(items[i])
    case Array(e) => Known(e)
    case _ => true
  }

  // ---------------------------------------------------------------------
  // `str::trim`

  /** Unicode `White_Space`, what `char::is_whitespace` accepts. */
  predicate IsWhiteSpace(c: char)
  {
    ('\t' <= c <= '\r') || c == ' ' || c == 0x85 as char || c == 0xA0 as char
    || c == 0x1680 as char || (0x2000 as char <= c <= 0x200A as char)
    || c == 0x2028 as char || c == 0x2029 as char || c == 0x202F as char
    || c == 0x205F as char || c == 0x3000 as char
  }

  function TrimStart(s: string): (r: string)
    ensures |r| <= |s| && r == s[|s| - |r|..]
    ensures forall k :: 0 <= k < |s| - |r| ==> IsWhiteSpace(s[k])
    ensures r == [] || !IsWhiteSpace(r[0])
    decreases |s|
  {
    if s != [] && IsWhiteSpace(s[0]) then TrimStart(s[1..]) else s
  }

  function TrimEnd(s: string): (r: string)
    ensures |r| <= |s| && r == s[..|r|]
    ensures forall k :: |r| <= k < |s| ==> IsWhiteSpace(s[k])
    ensures r == [] || !IsWhiteSpace(r[|r| - 1])
    decreases |s|
  {
    if s != [] && IsWhiteSpace(s[|s| - 1]) then TrimEnd(s[..|s| - 1]) else s
  }

  /** `str::trim`: the string without leading and trailing white space.
      A string that neither starts nor ends with white space is kept. */
  function Trim(s: string): (r: string)
    ensures |r| <= |s|
    ensures r == [] || (!IsWhiteSpace(r[0]) && !IsWhiteSpace(r[|r| - 1]))
    ensures (s == [] || (!IsWhiteSpace(s[0]) && !IsWhiteSpace(s[|s| - 1]))) ==> r == s
  {
    var t := TrimStart(s);
    TrimEndKeepsHead(t);
    TrimEnd(t)
  }

  /** Trimming the end of a string that starts with a non-space keeps
      that first character. */
  lemma TrimEndKeepsHead(t: string)
    ensures t != [] && !IsWhiteSpace(t[0]) ==> TrimEnd(t) != [] && TrimEnd(t)[0] == t[0]
  {
  }

  lemma TrimKept(s: string)
    requires s != [] && !IsWhiteSpace(s[0]) && !IsWhiteSpace(s[|s| - 1])
    ensures Trim(s) == s
  {
  }

  /** Leading white space does not change the trimmed string. */
  lemma TrimSpace(s: string)
    ensures Trim([' '] + s) == Trim(s)
  {
    assert ([' '] + s)[1..] == s;
  }

  // ---------------------------------------------------------------------
  // `split_tuple_items`

  /** The nesting step of one character: `(` opens, `)` closes. */
  function Delta(c: char): int
  {
    if c == '(' then 1 else if c == ')' then -1 else 0
  }

  /** The scan of `split_tuple_items` over the characters `rest` still to
      come, with `cur` the item read so far, `level` the parenthesis depth
      and `items` the items already split off.  A comma at depth zero ends
      an item and must not end an empty one; the depth must never become
      negative; at the end the depth must be zero and the last item
      non-empty. */
  function Scan(rest: string, cur: string, level: int, items: seq<string>): Option<seq<string>>
    decreases |rest|
  {
    if rest == [] then
      if level == 0 && cur != [] then Some(items + [cur]) else None
    else
      var c := rest[0];
      if c == ',' && level == 0 then
        if cur != [] then Scan(rest[1..], [], 0, items + [cur]) else None
      else
        var l := level + Delta(c);
        if l < 0 then None else Scan(rest[1..], cur + [c], l, items)
  }

  /** What `split_tuple_items(s)` returns. */
  function SplitItems(s: string): Option<seq<string>>
  {
    Scan(s, [], 0, [])
  }

  /** `split_tuple_items`: the loop over the characters of `s`, with the
      start of the current item and the depth as counters. */
  method SplitTupleItems(s: string) returns (r: Option<seq<string>>)
    ensures r == SplitItems(s)
  {
    var items: seq<string> := [];
    var start := 0;
    var level := 0;
    var i := 0;
    while i < |s|
      invariant 0 <= start <= i <= |s| && level >= 0
      invariant SplitItems(s) == Scan(s[i..], s[start..i], level, items)
    {
      assert s[i..][0] == s[i] && s[i..][1..] == s[i + 1..];
      var c := s[i];
      if c == '(' {
        level := level + 1;
      } else if c == ')' {
        level := level - 1;
      } else if c == ',' && level == 0 {
        if start < i {
          items := items + [s[start..i]];
        } else {
          return None;
        }
        start := i + 1;
      }
      if level < 0 {
        return None;
      }
      assert s[start..i + 1] == if start == i + 1 then [] else s[start..i] + [c];
      i := i + 1;
    }
    assert s[i..] == [] && s[start..i] == s[start..];
    if level == 0 && start < |s| {
      r := Some(items + [s[start..]]);
    } else {
      r := None;
    }
  }

  lemma JoinMerge(xs: seq<string>, a: string, b: string, sep: char)
    ensures Join(xs + [a, b], sep) == Join(xs + [a + [sep] + b], sep)
  {
    if xs == [] {
      assert [a, b][1..] == [b];
    } else {
      JoinAppend(xs, [a, b], sep);
      JoinAppend(xs, [a + [sep] + b], sep);
      assert [a, b][1..] == [b];
    }
  }

  /** The items of a successful scan, joined with commas, are the items
      before it followed by the rest of the input; none of the new items
      is empty. */
  lemma {:induction false} ScanJoin(rest: string, cur: string, level: int, items: seq<string>)
    requires Scan(rest, cur, level, items).Some?
    ensures var r := Scan(rest, cur, level, items).value;
      |r| > |items| && r[..|items|] == items &&
      Join(r, ',') == Join(items + [cur + rest], ',') &&
      forall k :: |items| <= k < |r| ==> r[k] != []
    decreases |rest|
  {
    if rest != [] {
      var c := rest[0];
      assert rest == [c] + rest[1..];
      if c == ',' && level == 0 {
        var x := rest[1..];
        ScanJoin(x, [], 0, items + [cur]);
        var r := Scan(x, [], 0, items + [cur]).value;
        assert r == Scan(rest, cur, level, items).value;
        assert r[..|items|] == (r[..|items| + 1])[..|items|];
        assert [] + x == x;
        assert items + [cur] + [x] == items + [cur, x];
        JoinMerge(items, cur, x, ',');
        assert cur + [','] + x == cur + rest;
        assert Join(r, ',') == Join(items + [cur, x], ',');
      } else {
        ScanJoin(rest[1..], cur + [c], level + Delta(c), items);
        assert cur + [c] + rest[1..] == cur + rest;
      }
    } else {
      assert cur + rest == cur;
    }
  }

  /** A piece of a join is no longer than the join. */
  lemma {:induction false} JoinPieceLen(parts: seq<string>, sep: char, k: nat)
    requires k < |parts|
    ensures |parts[k]| <= |Join(parts, sep)|
    decreases |parts|
  {
    if |parts| > 1 && k > 0 {
      JoinPieceLen(parts[1..], sep, k - 1);
    }
  }

  /** `split_tuple_items` cuts `s` at its depth-zero commas: the items,
      rejoined with commas, give `s` back, and none is empty. */
  lemma SplitItemsJoin(s: string)
    requires SplitItems(s).Some?
    ensures var r := SplitItems(s).value;
      r != [] && Join(r, ',') == s &&
      forall k :: 0 <= k < |r| ==> 0 < |r[k]| <= |s|
  {
    ScanJoin(s, [], 0, []);
    var r := SplitItems(s).value;
    assert [] + s == s;
    assert [] + [s] == [s];
    forall k | 0 <= k < |r| ensures |r[k]| <= |s| {
      JoinPieceLen(r, ',', k);
    }
  }

  /** Scanning never lets the depth go below zero and must end at depth
      zero: on success the parentheses of `s` are balanced. */
  predicate Nonneg(s: string, d: int)
    decreases |s|
  {
    s == [] || (d + Delta(s[0]) >= 0 && Nonneg(s[1..], d + Delta(s[0])))
  }

  function End(s: string, d: int): int
    decreases |s|
  {
    if s == [] then d else End(s[1..], d + Delta(s[0]))
  }

  lemma {:induction false} ScanBalanced(rest: string, cur: string, level: int, items: seq<string>)
    requires level >= 0 && Scan(rest, cur, level, items).Some?
    ensures Nonneg(rest, level) && End(rest, level) == 0
    decreases |rest|
  {
    if rest != [] {
      var c := rest[0];
      if c == ',' && level == 0 {
        ScanBalanced(rest[1..], [], 0, items + [cur]);
      } else {
        ScanBalanced(rest[1..], cur + [c], level + Delta(c), items);
      }
    }
  }

  lemma SplitItemsBalanced(s: string)
    requires SplitItems(s).Some?
    ensures Nonneg(s, 0) && End(s, 0) == 0
  {
    ScanBalanced(s, [], 0, []);
  }

  /** The cases of the crate's tests: an empty item, a trailing comma and
      a closing parenthesis before its opening one are rejected. */
  lemma SplitItemsRejects()
    ensures SplitItems(",") == None
    ensures SplitItems("uint,") == None
    ensures SplitItems(")(") == None
    ensures SplitItems("int,,int") == None
    ensures SplitItems("(") == None
  {
    assert ","[1..] == [];
    assert "uint,"[1..] == "int," && "int,"[1..] == "nt," && "nt,"[1..] == "t,";
    assert "t,"[1..] == "," && ","[1..] == [];
    assert "int,,int"[1..] == "nt,,int" && "nt,,int"[1..] == "t,,int";
    assert "t,,int"[1..] == ",,int" && ",,int"[1..] == ",int";
    assert "("[1..] == [];
  }

  lemma SplitItemsNested()
    ensures SplitItems("(),()") == Some(["()", "()"])
  {
    assert "(),()"[1..] == "),()" && "),()"[1..] == ",()";
    assert ",()"[1..] == "()" && "()"[1..] == ")" && ")"[1..] == [];
    assert [] + ['('] == "(" && "(" + [')'] == "()" && [] + ["()"] == ["()"];
    calc {
      SplitItems("(),()");
      Scan("),()", "(", 1, []);
      Scan(",()", "()", 0, []);
      Scan("()", [], 0, ["()"]);
      Scan(")", "(", 1, ["()"]);
      Scan([], "()", 0, ["()"]);
      { assert ["()"] + ["()"] == ["()", "()"]; }
      Some(["()", "()"]);
    }
  }

  /** A comma at the very end always leaves an empty last item. */
  lemma {:induction false} ScanTrailingComma(rest: string, cur: string, level: int, items: seq<string>)
    requires level >= 0
    ensures Scan(rest + [','], cur, level, items) == None
    decreases |rest|
  {
    var s := rest + [','];
    if rest == [] {
      assert s[1..] == [];
    } else {
      assert s[0] == rest[0] && s[1..] == rest[1..] + [','];
      var c := rest[0];
      if c == ',' && level == 0 {
        if cur != [] {
          ScanTrailingComma(rest[1..], [], 0, items + [cur]);
        }
      } else if level + Delta(c) >= 0 {
        ScanTrailingComma(rest[1..], cur + [c], level + Delta(c), items);
      }
    }
  }

  /** `split_tuple_items` rejects a leading and a trailing comma. */
  lemma SplitItemsEdgeCommas(s: string)
    ensures SplitItems([','] + s) == None
    ensures SplitItems(s + [',']) == None
  {
    ScanTrailingComma(s, [], 0, []);
  }

  // ---------------------------------------------------------------------
  // `ConfigType::new`

  /** `ConfigType::new`: the trimmed text is parsed.  `Unknown` ("?") is
      accepted only under the crate's test configuration and is not
      modelled. */
  function New(s: string): (r: Result<ConfigType, ConfigErr>)
    ensures r.Err? ==> r.error == InvalidType
    decreases |s|, 3
  {
    NewTrimmed(Trim(s))
  }

  /** The match of `new` on trimmed text: one of the four atom names, a
      parenthesised tuple, or a bracketed array; anything else is
      `InvalidType`.  (A single character cannot both start with the
      opening and end with the closing bracket, so the length test only
      makes the slice well-defined.) */
  function NewTrimmed(t: string): (r: Result<ConfigType, ConfigErr>)
    ensures r.Err? ==> r.error == InvalidType
    decreases |t|, 2
  {
    if t == "bool" then Ok(Bool)
    else if t == "int" then Ok(Int)
    else if t == "uint" then Ok(Uint)
    else if t == "str" then Ok(Str)
    else if |t| >= 2 && t[0] == '(' && t[|t| - 1] == ')' then ParseTuple(Trim(t[1..|t| - 1]), |t|)
    else if |t| >= 2 && t[0] == '[' && t[|t| - 1] == ']' then ParseArray(Trim(t[1..|t| - 1]), |t|)
    else Err(InvalidType)
  }

  /** The trimmed text between the parentheses: empty is the empty tuple,
      otherwise it must split into items that all parse. */
  function ParseTuple(inner: string, bound: nat): (r: Result<ConfigType, ConfigErr>)
    requires |inner| < bound
    ensures r.Err? ==> r.error == InvalidType
    decreases bound, 1
  {
    if inner == [] then Ok(Tuple([]))
    else
      match SplitItems(inner)
      case None => Err(InvalidType)
      case Some(items) =>
        SplitItemsJoin(inner);
        match NewAll(items, bound)
        case Err(e) => Err(e)
        case Ok(ts) => Ok(Tuple(ts))
  }

  /** The trimmed text between the brackets: a non-empty element type. */
  function ParseArray(elem: string, bound: nat): (r: Result<ConfigType, ConfigErr>)
    requires |elem| < bound
    ensures r.Err? ==> r.error == InvalidType
    decreases bound, 1
  {
    if elem == [] then Err(InvalidType)
    else
      match New(elem)
      case Err(e) => Err(e)
      case Ok(e) => Ok(Array(e))
  }

  /** Parsing the items of a tuple in order; the first failure is the
      result (`collect` into a `Result`). */
  function NewAll(items: seq<string>, bound: nat): (r: Result<seq<ConfigType>, ConfigErr>)
    requires forall k :: 0 <= k < |items| ==> |items[k]| < bound
    ensures r.Ok? ==> |r.value| == |items|
    ensures r.Err? ==> r.error == InvalidType
    decreases bound, 0, |items|
  {
    if items == [] then Ok([])
    else
      match New(items[0])
      case Err(e) => Err(e)
      case Ok(t) =>
        match NewAll(items[1..], bound)
        case Err(e) => Err(e)
        case Ok(ts) => Ok([t] + ts)
  }

  /** Text of white space only trims to nothing. */
  lemma TrimBlank(w: string)
    requires forall k :: 0 <= k < |w| ==> IsWhiteSpace(w[k])
    ensures Trim(w) == []
  {
  }

  /** Parentheses around nothing but white space are the empty tuple. */
  lemma NewBlankTuple(s: string, w: string)
    requires forall k :: 0 <= k < |w| ==> IsWhiteSpace(w[k])
    requires Trim(s) == "(" + w + ")"
    ensures New(s) == Ok(Tuple([]))
  {
    TrimBlank(w);
    var t := Trim(s);
    assert t[0] == '(' && t[|t| - 1] == ')' && t[1..|t| - 1] == w;
    assert t != "bool" && t != "int" && t != "uint" && t != "str";
    assert New(s) == NewTrimmed(t) == ParseTuple(Trim(w), |t|);
  }

  /** Brackets around nothing but white space are rejected. */
  lemma NewBlankArray(s: string, w: string)
    requires forall k :: 0 <= k < |w| ==> IsWhiteSpace(w[k])
    requires Trim(s) == "[" + w + "]"
    ensures New(s) == Err(InvalidType)
  {
    TrimBlank(w);
    var t := Trim(s);
    assert t[0] == '[' && t[|t| - 1] == ']' && t[1..|t| - 1] == w;
    assert t != "bool" && t != "int" && t != "uint" && t != "str";
    assert New(s) == NewTrimmed(t) == ParseArray(Trim(w), |t|);
  }

  /** No parsed type holds `Unknown`, so `to_rust_type` never panics on
      a type that `new` returned. */
  lemma {:induction false} NewKnown(s: string)
    ensures New(s).Ok? ==> Known(New(s).value)
    decreases |s|, 3
  {
    NewTrimmedKnown(Trim(s));
  }

  lemma {:induction false} NewTrimmedKnown(t: string)
    ensures NewTrimmed(t).Ok? ==> Known(NewTrimmed(t).value)
    decreases |t|, 2
  {
    if t == "bool" || t == "int" || t == "uint" || t == "str" {
    } else if |t| >= 2 && t[0] == '(' && t[|t| - 1] == ')' {
      ParseTupleKnown(Trim(t[1..|t| - 1]), |t|);
    } else if |t| >= 2 && t[0] == '[' && t[|t| - 1] == ']' {
      var elem := Trim(t[1..|t| - 1]);
      if elem != [] {
        NewKnown(elem);
      }
    }
  }

  lemma {:induction false} ParseTupleKnown(inner: string, bound: nat)
    requires |inner| < bound
    ensures ParseTuple(inner, bound).Ok? ==> Known(ParseTuple(inner, bound).value)
    decreases bound, 1
  {
    if inner != [] && SplitItems(inner).Some? {
      SplitItemsJoin(inner);
      NewAllKnown(SplitItems(inner).value, bound);
    }
  }

  lemma {:induction false} NewAllKnown(items: seq<string>, bound: nat)
    requires forall k :: 0 <= k < |items| ==> |items[k]| < bound
    ensures NewAll(items, bound).Ok? ==>
      forall k :: 0 <= k < |items| ==> Known(NewAll(items, bound).value[k])
    decreases bound, 0, |items|
  {
    if items != [] && NewAll(items, bound).Ok? {
      NewKnown(items[0]);
      NewAllKnown(items[1..], bound);
      var ts := NewAll(items, bound).value;
      assert ts == [New(items[0]).value] + NewAll(items[1..], bound).value;
      forall k | 0 <= k < |items| ensures Known(ts[k]) {
        if k > 0 {
          assert ts[k] == NewAll(items[1..], bound).value[k - 1];
        }
      }
    }
  }

  lemma NewHasRustType(s: string)
    requires New(s).Ok?
    ensures ToRustType(New(s).value).Some?
  {
    NewKnown(s);
  }

  // ---------------------------------------------------------------------
  // `Display` and `to_rust_type`

  /** The pieces joined with ", " between them. */
  function CommaSpaced(parts: seq<string>): string
  {
    if |parts| == 0 then ""
    else if |parts| == 1 then parts[0]
    else parts[0] + ", " + CommaSpaced(parts[1..])
  }

  function Spaced(parts: seq<string>): (r: seq<string>)
    ensures |r| == |parts|
  {
    seq(|parts|, i requires 0 <= i < |parts| => if i == 0 then parts[i] else [' '] + parts[i])
  }

  /** `Display`: the type as it is written in a configuration file, tuple
      items separated by ", ". */
  function Show(t: ConfigType): string
  {
    match t
    case Bool => "bool"
    case Int => "int"
    case Uint => "uint"
    case Str => "str"
    case Tuple(items) => "(" + CommaSpaced(Shows(items)) + ")"
    case Array(e) => "[" + Show(e) + "]"
    case Unknown => "?"
  }

  /** `to_rust_type` on a type with no `Unknown` inside it. */
  function RustType(t: ConfigType): string
    requires Known(t)
  {
    match t
    case Bool => "bool"
    case Int => "isize"
    case Uint => "usize"
    case Str => "&str"
    case Tuple(items) => "(" + CommaSpaced(seq(|items|, i requires 0 <= i < |items| => RustType(items[i]))) + ")"
    case Array(e) => "&[" + RustType(e) + "]"
  }

  /** `to_rust_type`: the Rust type of a constant of this type, or `None`
      where the source panics, on a type with `Unknown` inside it. */
  function ToRustType(t: ConfigType): (r: Option<string>)
    ensures r.Some? <==> Known(t)
  {
    if Known(t) then Some(RustType(t)) else None
  }

  lemma CommaSpaced2(a: string, b: string)
    ensures CommaSpaced([a, b]) == a + ", " + b
  {
    assert [a, b][1..] == [b];
  }

  lemma CommaSpaced3(a: string, b: string, c: string)
    ensures CommaSpaced([a, b, c]) == a + ", " + b + ", " + c
  {
    assert [a, b, c][1..] == [b, c];
    CommaSpaced2(b, c);
  }

  lemma RustPair()
    ensures Known(Tuple([Str, Str])) && RustType(Tuple([Str, Str])) == "(&str, &str)"
  {
    var inner := Tuple([Str, Str]);
    var p2 := seq(|inner.items|, i requires 0 <= i < |inner.items| => RustType(inner.items[i]));
    assert p2 == ["&str", "&str"];
    CommaSpaced2("&str", "&str");
    PairText("&str", "&str");
  }

  lemma PairText(a: string, b: string)
    requires a == "&str" && b == "&str"
    ensures "(" + (a + ", " + b) + ")" == "(&str, &str)"
  {
  }

  lemma RustTriple()
    ensures var t := Tuple([Uint, Tuple([Str, Str]), Uint]);
      Known(t) && RustType(t) == "(usize, (&str, &str), usize)"
  {
    var inner := Tuple([Str, Str]);
    RustPair();
    var t := Tuple([Uint, inner, Uint]);
    assert Known(t) by {
      assert forall i :: 0 <= i < |t.items| ==> t.items[i] in {Uint, inner};
    }
    var p3 := seq(|t.items|, i requires 0 <= i < |t.items| => RustType(t.items[i]));
    assert p3 == ["usize", "(&str, &str)", "usize"];
    CommaSpaced3("usize", "(&str, &str)", "usize");
    TripleText("usize", "(&str, &str)", "usize");
  }

  lemma TripleText(a: string, b: string, c: string)
    requires a == "usize" && b == "(&str, &str)" && c == "usize"
    ensures "(" + (a + ", " + b + ", " + c) + ")" == "(usize, (&str, &str), usize)"
  {
  }

  lemma NestText(x: string)
    requires x == "(usize, (&str, &str), usize)"
    ensures "&[" + x + "]" == "&[(usize, (&str, &str), usize)]"
  {
  }

  lemma NestText2(x: string)
    requires x == "&[(usize, (&str, &str), usize)]"
    ensures "&[" + x + "]" == "&[&[(usize, (&str, &str), usize)]]"
  {
  }

  /** The Rust type of the crate's first `to_rust` test. */
  lemma RustTypeExample()
    ensures ToRustType(Array(Array(Tuple([Uint, Tuple([Str, Str]), Uint]))))
         == Some("&[&[(usize, (&str, &str), usize)]]")
  {
    var t := Tuple([Uint, Tuple([Str, Str]), Uint]);
    RustTriple();
    NestText(RustType(t));
    NestText2(RustType(Array(t)));
  }

  // ---------------------------------------------------------------------
  // Parsing what `Display` writes gives the type back

  /** Scanning `s` from depth `d` keeps the depth non-negative and meets
      commas only inside parentheses. */
  predicate Safe(s: string, d: int)
    decreases |s|
  {
    s == [] || ((s[0] == ',' ==> d > 0) && d + Delta(s[0]) >= 0 && Safe(s[1..], d + Delta(s[0])))
  }

  lemma {:induction false} SafeAppend(a: string, b: string, d: int)
    requires Safe(a, d) && Safe(b, End(a, d))
    ensures Safe(a + b, d) && End(a + b, d) == End(b, End(a, d))
    decreases |a|
  {
    if a != [] {
      assert (a + b)[0] == a[0] && (a + b)[1..] == a[1..] + b;
      SafeAppend(a[1..], b, d + Delta(a[0]));
    } else {
      assert a + b == b;
    }
  }

  lemma {:induction false} SafeShift(s: string, d: int, k: nat)
    requires Safe(s, d)
    ensures Safe(s, d + k) && End(s, d + k) == End(s, d) + k
    decreases |s|
  {
    if s != [] {
      SafeShift(s[1..], d + Delta(s[0]), k);
    }
  }

  /** A string without parentheses and commas keeps any depth. */
  lemma {:induction false} SafePlain(s: string, d: nat)
    requires '(' !in s && ')' !in s && ',' !in s
    ensures Safe(s, d) && End(s, d) == d
    decreases |s|
  {
    if s != [] {
      assert s[0] in s && forall c :: c in s[1..] ==> c in s;
      SafePlain(s[1..], d);
    }
  }

  /** A balanced piece: depth back to zero, commas only inside. */
  predicate Balanced(p: string)
  {
    p != [] && Safe(p, 0) && End(p, 0) == 0
  }

  /** Skipping a balanced stretch adds it to the current item. */
  lemma {:induction false} ScanSkip(b: string, rest: string, cur: string, level: int, items: seq<string>)
    requires level >= 0 && Safe(b, level)
    ensures Scan(b + rest, cur, level, items) == Scan(rest, cur + b, End(b, level), items)
    decreases |b|
  {
    if b == [] {
      assert b + rest == rest && cur + b == cur;
    } else {
      var c := b[0];
      assert (b + rest)[0] == c && (b + rest)[1..] == b[1..] + rest;
      ScanSkip(b[1..], rest, cur + [c], level + Delta(c), items);
      assert cur + [c] + b[1..] == cur + b;
    }
  }

  /** Balanced pieces joined with commas split back into those pieces. */
  lemma {:induction false} ScanPieces(pieces: seq<string>, items: seq<string>)
    requires |pieces| >= 1 && forall k :: 0 <= k < |pieces| ==> Balanced(pieces[k])
    ensures Scan(Join(pieces, ','), [], 0, items) == Some(items + pieces)
    decreases |pieces|
  {
    var p := pieces[0];
    if |pieces| == 1 {
      assert Join(pieces, ',') == p + [];
      ScanSkip(p, [], [], 0, items);
      assert p + [] == p && [] + p == p && pieces == [p];
    } else {
      var j := Join(pieces[1..], ',');
      JoinCons(pieces, ',');
      assert Join(pieces, ',') == p + ([','] + j);
      ScanSkip(p, [','] + j, [], 0, items);
      assert [] + p == p;
      assert ([','] + j)[0] == ',' && ([','] + j)[1..] == j;
      ScanPieces(pieces[1..], items + [p]);
      assert items + [p] + pieces[1..] == items + pieces;
    }
  }

  /** Balanced pieces joined with commas, read inside one parenthesis. */
  lemma {:induction false} JoinSafe(pieces: seq<string>)
    requires |pieces| >= 1 && forall k :: 0 <= k < |pieces| ==> Balanced(pieces[k])
    ensures Safe(Join(pieces, ','), 1) && End(Join(pieces, ','), 1) == 1
    decreases |pieces|
  {
    var p := pieces[0];
    SafeShift(p, 0, 1);
    if |pieces| > 1 {
      JoinSafe(pieces[1..]);
      var j := Join(pieces[1..], ',');
      assert Safe([','], 1) && End([','], 1) == 1;
      SafeAppend([','], j, 1);
      SafeAppend(p, [','] + j, 1);
      JoinCons(pieces, ',');
      assert p + [','] + j == p + ([','] + j);
    }
  }

  /** A ", "-join is a ','-join of the pieces after the first each
      preceded by a space. */
  lemma {:induction false} CommaSpacedJoin(parts: seq<string>)
    ensures CommaSpaced(parts) == Join(Spaced(parts), ',')
    decreases |parts|
  {
    if |parts| >= 2 {
      var tail := parts[1..];
      CommaSpacedJoin(tail);
      var sp := Spaced(parts);
      var st := Spaced(tail);
      assert sp[1..] == [[' '] + st[0]] + st[1..];
      JoinCons(sp, ',');
      if |tail| >= 2 {
        JoinCons(st, ',');
        JoinCons(sp[1..], ',');
        assert sp[1..][1..] == st[1..];
      }
      assert parts[0] + ", " + Join(st, ',') == sp[0] + [','] + Join(sp[1..], ',');
    }
  }

  /** Balanced text with no white space at either end. */
  predicate Solid(p: string)
  {
    Balanced(p) && !IsWhiteSpace(p[0]) && !IsWhiteSpace(p[|p| - 1])
  }

  /** The pieces of a ", "-join of balanced text are balanced. */
  lemma SpacedBalanced(shows: seq<string>)
    requires forall k :: 0 <= k < |shows| ==> Solid(shows[k])
    ensures forall k :: 0 <= k < |shows| ==>
      (Balanced(Spaced(shows)[k]) && shows[k] != [] &&
       Spaced(shows)[k][|Spaced(shows)[k]| - 1] == shows[k][|shows[k]| - 1])
  {
    forall k | 0 < k < |shows| ensures Balanced([' '] + shows[k]) {
      SafeAppend([' '], shows[k], 0);
    }
  }

  /** Text read between an opening and a closing bracket that bring the
      depth back to where it was. */
  lemma Wrap(o: char, c: string, cl: char)
    requires o in "([" && cl in ")]" && Delta(o) + Delta(cl) == 0
    requires Safe(c, Delta(o)) && End(c, Delta(o)) == Delta(o)
    ensures Solid([o] + c + [cl])
  {
    var w := [o] + c + [cl];
    assert Safe([cl], Delta(o)) && End([cl], Delta(o)) == 0;
    SafeAppend(c, [cl], Delta(o));
    assert Safe([o], 0) && End([o], 0) == Delta(o);
    SafeAppend([o], c + [cl], 0);
    assert w == [o] + (c + [cl]);
    assert w[0] == o && w[|w| - 1] == cl;
  }

  /** A parenthesised ", "-join of balanced text is balanced. */
  lemma TupleBalanced(shows: seq<string>)
    requires forall k :: 0 <= k < |shows| ==> Solid(shows[k])
    ensures Solid("(" + CommaSpaced(shows) + ")")
  {
    CommaSpacedSafe(shows);
    WrapParen(CommaSpaced(shows));
  }

  lemma WrapParen(c: string)
    requires Safe(c, 1) && End(c, 1) == 1
    ensures Solid("(" + c + ")")
  {
    Wrap('(', c, ')');
  }

  /** A ", "-join of balanced text keeps the depth at one inside the
      parentheses and comes back to it. */
  lemma CommaSpacedSafe(shows: seq<string>)
    requires forall k :: 0 <= k < |shows| ==> Solid(shows[k])
    ensures Safe(CommaSpaced(shows), 1) && End(CommaSpaced(shows), 1) == 1
  {
    if shows == [] {
      SafePlain([], 1);
    } else {
      SpacedBalanced(shows);
      CommaSpacedJoin(shows);
      JoinSafe(Spaced(shows));
    }
  }

  /** A bracketed balanced text is balanced. */
  lemma ArrayBalanced(s: string)
    requires Solid(s)
    ensures Solid("[" + s + "]")
  {
    Wrap('[', s, ']');
  }

  /** The texts `Display` writes for the items of a tuple. */
  function Shows(items: seq<ConfigType>): (r: seq<string>)
    ensures |r| == |items|
  {
    seq(|items|, i requires 0 <= i < |items| => Show(items[i]))
  }

  /** `Display` writes balanced text with no white space at either end. */
  lemma {:induction false} ShowBalanced(t: ConfigType)
    ensures Solid(Show(t))
    decreases t
  {
    match t
    case Tuple(items) =>
      var shows := Shows(items);
      forall k | 0 <= k < |items| ensures Solid(shows[k]) {
        ShowBalanced(items[k]);
      }
      TupleBalanced(shows);
    case Array(e) =>
      ShowBalanced(e);
      ArrayBalanced(Show(e));
    case _ =>
      SafePlain(Show(t), 0);
  }

  /** `new` depends only on the trimmed string. */
  lemma NewTrim(s: string)
    ensures New(s) == New(Trim(s))
  {
    if Trim(s) != [] {
      TrimKept(Trim(s));
    }
  }

  lemma NewSpace(s: string)
    ensures New([' '] + s) == New(s)
  {
    TrimSpace(s);
    NewTrim([' '] + s);
    NewTrim(s);
  }

  /** Text with no white space at either end is parsed as it stands. */
  lemma NewUntrimmed(s: string)
    requires s != [] && !IsWhiteSpace(s[0]) && !IsWhiteSpace(s[|s| - 1])
    ensures New(s) == NewTrimmed(s)
  {
    TrimKept(s);
  }

  /** Parsing a parenthesised list whose items split and parse. */
  lemma TupleText(t: string, c: string, pieces: seq<string>, ts: seq<ConfigType>)
    requires t == "(" + c + ")" && c != [] && Trim(c) == c
    requires SplitItems(c) == Some(pieces)
    requires forall k :: 0 <= k < |pieces| ==> |pieces[k]| < |t|
    requires NewAll(pieces, |t|) == Ok(ts)
    ensures NewTrimmed(t) == Ok(Tuple(ts))
  {
    assert t[0] == '(' && t[|t| - 1] == ')' && t[1..|t| - 1] == c;
    assert t != "bool" && t != "int" && t != "uint" && t != "str";
  }

  /** Parsing a parenthesised list whose items do not split. */
  lemma TupleTextRejected(t: string, c: string)
    requires t == "(" + c + ")" && c != [] && Trim(c) == c && SplitItems(c) == None
    ensures NewTrimmed(t) == Err(InvalidType)
  {
    assert t[0] == '(' && t[|t| - 1] == ')' && t[1..|t| - 1] == c;
    assert t != "bool" && t != "int" && t != "uint" && t != "str";
  }

  lemma ArrayText(t: string, c: string, e: ConfigType)
    requires t == "[" + c + "]" && c != [] && Trim(c) == c
    requires New(c) == Ok(e)
    ensures NewTrimmed(t) == Ok(Array(e))
  {
    assert t[0] == '[' && t[|t| - 1] == ']' && t[1..|t| - 1] == c;
    assert t != "bool" && t != "int" && t != "uint" && t != "str";
  }

  lemma {:induction false} NewAllPieces(pieces: seq<string>, ts: seq<ConfigType>, bound: nat)
    requires |pieces| == |ts|
    requires forall k :: 0 <= k < |pieces| ==> |pieces[k]| < bound && New(pieces[k]) == Ok(ts[k])
    ensures NewAll(pieces, bound) == Ok(ts)
    decreases |pieces|
  {
    if pieces != [] {
      NewAllPieces(pieces[1..], ts[1..], bound);
      assert [ts[0]] + ts[1..] == ts;
    }
  }

  /** A parenthesised ", "-join of texts that parse parses as the tuple
      of what they parse as. */
  lemma TupleNew(shows: seq<string>, items: seq<ConfigType>)
    requires |shows| == |items|
    requires forall k :: 0 <= k < |shows| ==> Solid(shows[k]) && New(shows[k]) == Ok(items[k])
    ensures NewTrimmed("(" + CommaSpaced(shows) + ")") == Ok(Tuple(items))
  {
    var c := CommaSpaced(shows);
    var t := "(" + c + ")";
    if shows == [] {
      assert t == "()" && t[1..|t| - 1] == [];
    } else {
      var pieces := Spaced(shows);
      TupleSplit(shows);
      SplitItemsJoin(c);
      TupleItemsNew(shows, items, |t|);
      TupleText(t, c, pieces, items);
    }
  }

  /** The ", "-join of non-empty balanced texts is kept by trimming and
      splits back into its pieces. */
  lemma TupleSplit(shows: seq<string>)
    requires |shows| >= 1 && forall k :: 0 <= k < |shows| ==> Solid(shows[k])
    ensures var c := CommaSpaced(shows);
      c != [] && Trim(c) == c && SplitItems(c) == Some(Spaced(shows))
  {
    var c := CommaSpaced(shows);
    var pieces := Spaced(shows);
    SpacedBalanced(shows);
    CommaSpacedJoin(shows);
    ScanPieces(pieces, []);
    assert [] + pieces == pieces;
    CommaSpacedEnds(shows);
    assert Solid(shows[0]) && Solid(shows[|shows| - 1]);
    TrimKept(c);
  }

  /** A ", "-join of non-empty texts starts as the first and ends as the
      last. */
  lemma {:induction false} CommaSpacedEnds(shows: seq<string>)
    requires |shows| >= 1 && forall k :: 0 <= k < |shows| ==> shows[k] != []
    ensures var c := CommaSpaced(shows); var l := shows[|shows| - 1];
      c != [] && c[0] == shows[0][0] && c[|c| - 1] == l[|l| - 1]
    decreases |shows|
  {
    if |shows| >= 2 {
      var tail := shows[1..];
      assert forall k :: 0 <= k < |tail| ==> tail[k] == shows[k + 1];
      CommaSpacedEnds(tail);
      var rest := CommaSpaced(tail);
      var c := shows[0] + ", " + rest;
      assert c[0] == shows[0][0];
      assert c[|c| - 1] == rest[|rest| - 1];
      assert tail[|tail| - 1] == shows[|shows| - 1];
    }
  }

  /** The pieces of a ", "-join of texts that parse parse in turn. */
  lemma TupleItemsNew(shows: seq<string>, items: seq<ConfigType>, bound: nat)
    requires |shows| == |items|
    requires forall k :: 0 <= k < |shows| ==> New(shows[k]) == Ok(items[k])
    requires forall k :: 0 <= k < |shows| ==> |Spaced(shows)[k]| < bound
    ensures NewAll(Spaced(shows), bound) == Ok(items)
  {
    var pieces := Spaced(shows);
    forall k | 0 <= k < |shows| ensures New(pieces[k]) == Ok(items[k]) {
      SpacedNew(shows, k);
    }
    NewAllPieces(pieces, items, bound);
  }

  /** The space `Spaced` puts before a piece does not change its parse. */
  lemma SpacedNew(shows: seq<string>, k: nat)
    requires k < |shows|
    ensures New(Spaced(shows)[k]) == New(shows[k])
  {
    if k > 0 {
      assert Spaced(shows)[k] == [' '] + shows[k];
      NewSpace(shows[k]);
    }
  }

  /** Every type without `Unknown` is parsed back from what `Display`
      writes for it. */
  lemma {:induction false} ShowNew(t: ConfigType)
    requires Known(t)
    ensures New(Show(t)) == Ok(t)
    decreases t
  {
    ShowBalanced(t);
    NewUntrimmed(Show(t));
    match t
    case Tuple(items) =>
      var shows := Shows(items);
      forall k | 0 <= k < |items| ensures Solid(shows[k]) && New(shows[k]) == Ok(items[k]) {
        ShowBalanced(items[k]);
        ShowNew(items[k]);
      }
      TupleNew(shows, items);
    case Array(e) =>
      ShowBalanced(e);
      ShowNew(e);
      TrimKept(Show(e));
      ArrayText(Show(t), Show(e), e);
    case _ =>
  }
}

/** The type-parsing cases of the crate's `test_err` and `test_type_match`
    (vendor/axconfig-gen/src/tests.rs). */
module ConfigTypeCases {

  import opened Common
  import opened ConfigTypes

  lemma NewRejectsNames()
    ensures New("Bool") == Err(InvalidType) && New("u int") == Err(InvalidType)
    ensures New("") == Err(InvalidType)
  {
    NewUntrimmed("Bool");
    NewUntrimmed("u int");
  }

  lemma NewRejectsRustNames()
    ensures New("usize") == Err(InvalidType) && New("&str") == Err(InvalidType)
  {
    NewUntrimmed("usize");
    NewUntrimmed("&str");
  }

  lemma NewRejectsEmptyArray()
    ensures New("[]") == Err(InvalidType)
  {
    NewUntrimmed("[]");
    assert "[]"[1..1] == [];
  }

  lemma NewRejectsOpenOpen()
    ensures New("((") == Err(InvalidType)
  {
    NewUntrimmed("((");
  }

  lemma NewRejectsUnclosed()
    ensures New("(int,") == Err(InvalidType)
  {
    NewUntrimmed("(int,");
  }

  lemma NewRejectsEmptyItem()
    ensures New("(,)") == Err(InvalidType)
  {
    assert SplitItems(",") == None;
    assert "(,)" == "(" + "," + ")";
    NewRejectsUnsplit(",");
  }

  lemma NewRejectsUnbalanced()
    ensures New("()()") == Err(InvalidType)
  {
    assert SplitItems(")(") == None;
    assert "()()" == "(" + ")(" + ")";
    NewRejectsUnsplit(")(");
  }

  /** Parentheses around trimmed text that does not split are refused. */
  lemma NewRejectsUnsplit(c: string)
    requires c != [] && !IsWhiteSpace(c[0]) && !IsWhiteSpace(c[|c| - 1]) && SplitItems(c) == None
    ensures New("(" + c + ")") == Err(InvalidType)
  {
    var t := "(" + c + ")";
    assert t[0] == '(' && t[|t| - 1] == ')';
    NewUntrimmed(t);
    TrimKept(c);
    TupleTextRejected(t, c);
  }

  lemma NewAcceptsPaddedTuple()
    ensures New("(  )") == Ok(Tuple([]))
  {
    NewUntrimmed("(  )");
    assert "(  )"[1..3] == "  ";
    assert "  "[1..] == " " && " "[1..] == [];
    assert Trim("  ") == [];
  }
}
