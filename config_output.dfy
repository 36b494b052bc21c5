// The writer that renders a configuration as TOML or as Rust constants
// (vendor/axconfig-gen/src/output.rs).

module AxOutput {

  import opened Common
  import opened ConfigTypes
  import opened ConfigValues
  import opened AxConfigs

  /** `OutputFormat`. */
  datatype OutputFormat = Toml | Rust

  /** `Display for OutputFormat`. */
  function FormatName(f: OutputFormat): string
  {
    match f
    case Toml => "toml"
    case Rust => "rust"
  }

  /** `FromStr for OutputFormat`: exactly "toml" and "rust" are accepted,
      and any other text comes back as the error. */
  function FromStr(s: string): (r: Result<OutputFormat, string>)
    ensures r.Ok? <==> s == "toml" || s == "rust"
    ensures r.Ok? ==> FormatName(r.value) == s
    ensures r.Err? ==> r.error == s
  {
    if s == "toml" then Ok(Toml)
    else if s == "rust" then Ok(Rust)
    else Err(s)
  }

  /** The name a format is displayed with parses back to that format. */
  lemma FromStrFormatName(f: OutputFormat)
    ensures FromStr(FormatName(f)) == Ok(f)
  {
  }

  // ---------------------------------------------------------------------
  // names

  /** `mod_name`: every '-' becomes '_', everything else is kept. */
  function ModName(name: string): (r: string)
    ensures |r| == |name| && '-' !in r
    ensures forall i :: 0 <= i < |name| && name[i] != '-' ==> r[i] == name[i]
    ensures forall i :: 0 <= i < |name| && name[i] == '-' ==> r[i] == '_'
  {
    Replace(name, '-', '_')
  }

  /** A module name is its own module name. */
  lemma ModNameIdempotent(name: string)
    ensures ModName(ModName(name)) == ModName(name)
  {
  }

  /** A name without '-' is its own module name. */
  lemma ModNamePlain(name: string)
    requires '-' !in name
    ensures ModName(name) == name
  {
  }

  /** `char::to_uppercase` on ASCII letters. */
  function UpperChar(c: char): char
  {
    if 'a' <= c <= 'z' then (c as int - 'a' as int + 'A' as int) as char else c
  }

  function Upper(s: string): (r: string)
    ensures |r| == |s|
    ensures forall i :: 0 <= i < |s| ==> r[i] == UpperChar(s[i])
  {
    if s == [] then [] else [UpperChar(s[0])] + Upper(s[1..])
  }

  /** `const_name`: the name in upper case with every '-' turned into '_';
      no lower-case ASCII letter and no '-' is left. */
  function ConstName(name: string): (r: string)
    ensures |r| == |name| && '-' !in r
    ensures forall i :: 0 <= i < |r| ==> !('a' <= r[i] <= 'z')
    ensures forall i :: 0 <= i < |name| && name[i] != '-' ==> r[i] == UpperChar(name[i])
  {
    Replace(Upper(name), '-', '_')
  }

  /** A constant name is the upper-cased module name, and is its own
      constant name. */
  lemma ConstNameOfModName(name: string)
    ensures ConstName(name) == Upper(ModName(name))
    ensures ConstName(ConstName(name)) == ConstName(name)
  {
  }

  // ---------------------------------------------------------------------
  // lines

  /** `str::lines`: the pieces between '\n', each without a final '\r',
      with no piece after a final '\n'. */
  function Lines(s: string): (r: seq<string>)
    ensures s == "" ==> r == []
    ensures forall i :: 0 <= i < |r| ==> '\n' !in r[i]
  {
    if s == "" then []
    else
      var parts := Split(s, '\n');
      var ps := if parts[|parts| - 1] == "" then parts[..|parts| - 1] else parts;
      seq(|ps|, i requires 0 <= i < |ps| => StripCr(ps[i]))
  }

  function StripCr(l: string): (r: string)
    ensures '\n' !in l ==> '\n' !in r
  {
    if l != "" && l[|l| - 1] == '\r' then l[..|l| - 1] else l
  }

  /** `replacen("#", "///", 1)`: the first '#' becomes "///". */
  function DocComment(s: string): (r: string)
    ensures '#' !in s ==> r == s
    ensures '#' in s ==> |r| == |s| + 2
  {
    match Find(s, '#')
    case None => s
    case Some(i) => s[..i] + "///" + s[i + 1..]
  }

  /** The line operations `table_begin` and `write_item` pass to
      `print_lines`: trimming for TOML, trimming and turning the first '#'
      into "///" for Rust. */
  function LineOp(f: OutputFormat, l: string): string
  {
    match f
    case Toml => Trim(l)
    case Rust => DocComment(Trim(l))
  }

  /** The text `print_lines` appends, line by line. */
  method RenderLines(f: OutputFormat, ls: seq<string>, indent: nat) returns (text: string)
    ensures text == Rendered(f, ls, indent)
  {
    text := "";
    for i := 0 to |ls|
      invariant text == Rendered(f, ls[..i], indent)
    {
      RenderedStep(f, ls, i, indent);
      var l := LineOp(f, ls[i]);
      if l != "" {
        text := text + Line(indent, l);
      }
    }
    assert ls[..|ls|] == ls;
  }

  /** One level more or less of indent keeps it a whole number of levels. */
  lemma LevelStep(n: int)
    ensures n % 4 == 0 <==> (n + 4) % 4 == 0
  {
  }

  /** `n` spaces, the padding `{:indent$}` gives the empty string. */
  function Spaces(n: nat): (r: string)
    ensures |r| == n && forall i :: 0 <= i < n ==> r[i] == ' '
  {
    if n == 0 then "" else " " + Spaces(n - 1)
  }

  /** One printed line: `indent` spaces, the text and a newline. */
  function Line(indent: nat, s: string): (r: string)
    ensures |r| == indent + |s| + 1 && r[|r| - 1] == '\n'
    ensures forall i :: 0 <= i < indent ==> r[i] == ' '
  {
    Spaces(indent) + s + "\n"
  }

  /** What `print_lines` adds for the lines `ls`: each line after the
      operation, unless that leaves it empty. */
  function Rendered(f: OutputFormat, ls: seq<string>, indent: nat): string
  {
    if ls == [] then ""
    else
      var l := LineOp(f, ls[|ls| - 1]);
      Rendered(f, ls[..|ls| - 1], indent) + (if l == "" then "" else Line(indent, l))
  }

  lemma RenderedStep(f: OutputFormat, ls: seq<string>, i: nat, indent: nat)
    requires i < |ls|
    ensures var l := LineOp(f, ls[i]);
            Rendered(f, ls[..i + 1], indent) == Rendered(f, ls[..i], indent) + (if l == "" then "" else Line(indent, l))
  {
    var pre := ls[..i + 1];
    assert pre[..|pre| - 1] == ls[..i] && pre[|pre| - 1] == ls[i];
  }

  /** Only the lines that stay non-empty add text. */
  lemma {:induction false} RenderedBlank(f: OutputFormat, ls: seq<string>, indent: nat)
    requires forall i :: 0 <= i < |ls| ==> LineOp(f, ls[i]) == ""
    ensures Rendered(f, ls, indent) == ""
  {
    if ls != [] {
      RenderedBlank(f, ls[..|ls| - 1], indent);
    }
  }

  /** A comment line becomes a doc comment in Rust and stays as it is in
      TOML. */
  lemma DocCommentLine()
    ensures LineOp(Rust, "# doc") == "/// doc"
    ensures LineOp(Toml, "# doc") == "# doc"
  {
    var t := "# doc";
    assert !IsWhiteSpace(t[0]) && !IsWhiteSpace(t[|t| - 1]);
    TrimKept(t);
    DocCommentHash();
  }

  lemma DocCommentHash()
    ensures DocComment("# doc") == "/// doc"
  {
    var t := "# doc";
    assert Find(t, '#') == Some(0);
    assert t[..0] + "///" + t[1..] == "/// doc";
  }

  /** The type of an item as `write_item` resolves it in Rust mode: the
      declared one, otherwise the inferred one. */
  function ResolvedType(v: ConfigValue): Result<ConfigType, ConfigErr>
  {
    if v.ty.Some? then Ok(v.ty.value) else InferredType(v.value)
  }

  /** The `Unknown type` message of `write_item`. */
  function UnknownTypeFor(key: string): ConfigErr
  {
    Other("Unknown type for key `" + key + "`")
  }

  /** An item whose array value mixes a number, a string and an empty
      array, with no declared type, resolves to a tuple type with
      `Unknown` inside it: the one on which `write_item` panics in Rust
      mode rather than reporting the unknown type. */
  lemma ResolvedUnknownInTuple()
    ensures var t := ResolvedType(ConfigValue(VArray([VInt(1), VStr("a"), VArray([])]), None));
            t.Ok? && t.value != Unknown && !Known(t.value)
  {
    InferUnknownInTuple();
    UnknownTupleUnusable();
  }

  /** The end of `write_item`: written, refused with an error, or a panic
      (`to_rust_type` on a type with `Unknown` inside it). */
  datatype WriteOutcome = Written | Failed(err: ConfigErr) | Panicked

  /** What `table_end` does: close the module, or panic when the indent
      would go below zero. */
  datatype EndOutcome = Closed | Underflow

  /** `Output`: the format, the current indent and the text written so far. */
  class Output {
    var fmt: OutputFormat
    var indent: nat
    var result: string

    /** The indent is a whole number of levels of four, and TOML output is
        never indented. */
    predicate Valid()
      reads this
    {
      indent % 4 == 0 && (fmt == Toml ==> indent == 0)
    }

    /** `Output::new`. */
    constructor (f: OutputFormat)
      ensures Valid() && fmt == f && indent == 0 && result == ""
    {
      fmt, indent, result := f, 0, "";
    }

    /** `println`: the text on its own line at the current indent. */
    method Println(s: string)
      modifies this
      ensures fmt == old(fmt) && indent == old(indent)
      ensures result == old(result) + Line(indent, s)
    {
      result := result + Line(indent, s);
    }

    /** `print_lines`: every line of `s` through the format's line
        operation, empty results skipped. */
    method PrintLines(s: string)
      modifies this
      ensures fmt == old(fmt) && indent == old(indent)
      ensures result == old(result) + Rendered(fmt, Lines(s), indent)
    {
      var text := RenderLines(fmt, Lines(s), indent);
      result := result + text;
    }

    /** `table_begin`: a blank line unless nothing was written yet, the
        comments, then `[name]` for TOML or `pub mod name {` for Rust, which
        also indents what follows by four. */
    method TableBegin(name: string, comments: string)
      requires Valid()
      modifies this
      ensures Valid() && fmt == old(fmt)
      ensures fmt == Toml ==> indent == old(indent)
      ensures fmt == Rust ==> indent == old(indent) + 4
      ensures var sep := if old(result) == "" then "" else Line(old(indent), "");
              var head := if fmt == Toml then "[" + name + "]" else "pub mod " + ModName(name) + " {";
              result == old(result) + sep + Rendered(fmt, Lines(comments), old(indent)) + Line(old(indent), head)
    {
      ghost var r0 := result;
      ghost var sep := if result == "" then "" else Line(indent, "");
      if result != "" {
        Println("");
      }
      assert result == r0 + sep;
      PrintLines(comments);
      ghost var r1 := result;
      assert r1 == r0 + sep + Rendered(fmt, Lines(comments), indent);
      match fmt {
        case Toml =>
          Println("[" + name + "]");
        case Rust =>
          Println("pub mod " + ModName(name) + " {");
          LevelStep(indent);
          indent := indent + 4;
      }
    }

    /** `table_end`: for Rust, one level less indent and a closing `}`;
        nothing for TOML. The unsigned indent cannot go below zero: there
        the source panics. */
    method TableEnd() returns (r: EndOutcome)
      requires Valid()
      modifies this
      ensures Valid() && fmt == old(fmt)
      ensures r == Underflow <==> fmt == Rust && old(indent) == 0
      ensures r == Underflow || fmt == Toml ==> indent == old(indent) && result == old(result)
      ensures r == Closed && fmt == Rust ==> indent + 4 == old(indent) && result == old(result) + Line(indent, "}")
    {
      if fmt == Rust {
        if indent < 4 {
          return Underflow;
        }
        LevelStep(indent - 4);
        indent := indent - 4;
        Println("}");
      }
      return Closed;
    }

    /** `write_item`. For TOML: the comments, then `key = value` followed by
        ` # type` when the item declares one. For Rust: the comments, then
        `pub const KEY: type = value;` with the declared or inferred type; an
        inference error, an `Unknown` type or a value the type cannot render
        stops it after the comments, and a type with `Unknown` inside it
        panics. The renderings of values, `to_toml_value` and
        `to_rust_value`, are given. */
    method WriteItem(item: ConfigItem, toToml: Value -> string,
                     toRust: (Value, ConfigType, nat) -> Result<string, ConfigErr>) returns (r: WriteOutcome)
      requires Valid()
      modifies this
      ensures Valid() && fmt == old(fmt) && indent == old(indent)
      ensures fmt == Toml ==> r == Written
      ensures fmt == Toml ==>
        var suffix := if item.value.ty.Some? then " # " + Show(item.value.ty.value) else "";
        result == old(result) + Rendered(Toml, Lines(item.comments), indent)
                  + Line(indent, item.key + " = " + toToml(item.value.value) + suffix)
      ensures fmt == Rust && ResolvedType(item.value).Err? ==> r == Failed(ResolvedType(item.value).error)
      ensures fmt == Rust && ResolvedType(item.value) == Ok(Unknown) ==> r == Failed(UnknownTypeFor(item.key))
      ensures fmt == Rust ==>
        (r == Panicked <==> ResolvedType(item.value).Ok? && ResolvedType(item.value).value != Unknown &&
                            !Known(ResolvedType(item.value).value))
      ensures fmt == Rust && r == Written ==>
        var t := ResolvedType(item.value).value;
        Known(t) && toRust(item.value.value, t, indent).Ok? &&
        result == old(result) + Rendered(Rust, Lines(item.comments), indent)
                  + Line(indent, "pub const " + ConstName(item.key) + ": " + RustType(t) + " = "
                                 + toRust(item.value.value, t, indent).value + ";")
      ensures fmt == Rust && r != Written ==> result == old(result) + Rendered(Rust, Lines(item.comments), indent)
    {
      PrintLines(item.comments);
      match fmt {
        case Toml =>
          var suffix := if item.value.ty.Some? then " # " + Show(item.value.ty.value) else "";
          Println(item.key + " = " + toToml(item.value.value) + suffix);
        case Rust =>
          var key := ConstName(item.key);
          var ty := ResolvedType(item.value);
          if ty.Err? {
            return Failed(ty.error);
          }
          if ty.value == Unknown {
            return Failed(UnknownTypeFor(item.key));
          }
          var rustType := ToRustType(ty.value);
          if rustType.None? {
            return Panicked;
          }
          var val := toRust(item.value.value, ty.value, indent);
          if val.Err? {
            return Failed(val.error);
          }
          Println("pub const " + key + ": " + rustType.value + " = " + val.value + ";");
      }
      return Written;
    }
  }

  /** A Rust table opened and closed again leaves the indent where it was. */
  method TableRoundTrip(o: Output, name: string, comments: string) returns (r: EndOutcome)
    requires o.Valid() && o.fmt == Rust
    modifies o
    ensures o.Valid() && r == Closed && o.indent == old(o.indent)
  {
    o.TableBegin(name, comments);
    r := o.TableEnd();
  }
}
