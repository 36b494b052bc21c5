/** Runtime text styles of `owo-colors` (vendor/owo-colors/src/dyn_styles.rs):
    a foreground and a background colour, a bold flag and eight further
    effects packed into one byte, and the ANSI select-graphic-rendition
    (SGR, section 8.3.117 of ECMA-48) prefix and suffix that display
    them. */
module Styles {

  import opened Common

  /** The control sequence introducer `ESC [`. */
  const CSI: string := [27 as char, '[']

  /** A colour, by the SGR parameter text that selects it as foreground
      and as background (what `fmt_raw_ansi_fg` and `fmt_raw_ansi_bg`
      write, e.g. `97` and `107` for bright white). */
  datatype Color = Color(fgCode: string, bgCode: string)

  /** `Effect`. */
  datatype Effect = Bold | Dimmed | Italic | Underline | Blink | BlinkFast
                  | Reversed | Hidden | Strikethrough

  /** `StyleFlags`: the effects other than bold, one bit each. */
  datatype StyleFlags = StyleFlags(bits: bv8)

  /** `Style`. */
  datatype Style = Style(fg: Option<Color>, bg: Option<Color>, bold: bool, flags: StyleFlags)

  /** The bit of each effect other than bold (`DIMMED_SHIFT` ...
      `STRIKETHROUGH_SHIFT`). */
  function ShiftOf(e: Effect): (k: nat)
    requires e != Bold
    ensures k < 8
  {
    match e
    case Dimmed => 0
    case Italic => 1
    case Underline => 2
    case Blink => 3
    case BlinkFast => 4
    case Reversed => 5
    case Hidden => 6
    case Strikethrough => 7
  }

  /** `1 << k` for the eight bits of a byte. */
  function Mask(k: nat): (m: bv8)
    requires k < 8
  {
    match k
    case 0 => 0x01
    case 1 => 0x02
    case 2 => 0x04
    case 3 => 0x08
    case 4 => 0x10
    case 5 => 0x20
    case 6 => 0x40
    case _ => 0x80
  }

  /** The flag getters: `((b >> k) & 1) != 0`, bit `k` of the byte. */
  predicate Bit(b: bv8, k: nat)
    requires k < 8
  {
    b & Mask(k) != 0
  }

  /** The flag setters: `(b & !(1 << k)) | ((on as u8) << k)`. */
  function SetBit(b: bv8, k: nat, on: bool): (r: bv8)
    requires k < 8
    ensures Bit(r, k) == on
    ensures forall j :: 0 <= j < 8 && j != k ==> Bit(r, j) == Bit(b, j)
  {
    SetBitSpec(b, k, on);
    (b & !Mask(k)) | (if on then Mask(k) else 0)
  }

  lemma SetBitSpec(b: bv8, k: nat, on: bool)
    requires k < 8
    ensures var r := (b & !Mask(k)) | (if on then Mask(k) else 0);
      && Bit(r, k) == on
      && forall j :: 0 <= j < 8 && j != k ==> Bit(r, j) == Bit(b, j)
  {
    MaskNonZero(k);
    SetOwnBit(b, Mask(k), on);
    forall j | 0 <= j < 8 && j != k
      ensures Bit((b & !Mask(k)) | (if on then Mask(k) else 0), j) == Bit(b, j)
    {
      SetBitOther(b, k, on, j);
    }
  }

  lemma SetBitOther(b: bv8, k: nat, on: bool, j: nat)
    requires k < 8 && j < 8 && j != k
    ensures Bit((b & !Mask(k)) | (if on then Mask(k) else 0), j) == Bit(b, j)
  {
    MasksDisjoint(j, k);
    SetOtherBit(b, Mask(k), Mask(j), on);
  }

  lemma MaskNonZero(k: nat)
    requires k < 8
    ensures Mask(k) != 0
  {
  }

  /** Distinct bits have disjoint masks. */
  lemma MasksDisjoint(j: nat, k: nat)
    requires j < 8 && k < 8 && j != k
    ensures Mask(j) & Mask(k) == 0
  {
  }

  lemma SetOwnBit(b: bv8, m: bv8, on: bool)
    requires m != 0
    ensures ((b & !m) | (if on then m else 0)) & m != 0 <==> on
  {
  }

  lemma SetOtherBit(b: bv8, m: bv8, n: bv8, on: bool)
    requires n & m == 0
    ensures ((b & !m) | (if on then m else 0)) & n == b & n
  {
  }

  /** A byte with no bit set is zero. */
  lemma NoBitIsZero(b: bv8)
    requires forall k :: 0 <= k < 8 ==> !Bit(b, k)
    ensures b == 0
  {
    assert !Bit(b, 0) && !Bit(b, 1) && !Bit(b, 2) && !Bit(b, 3);
    assert !Bit(b, 4) && !Bit(b, 5) && !Bit(b, 6) && !Bit(b, 7);
  }

  /** `Style::new`: no colours and no effects. */
  function New(): Style
  {
    Style(None, None, false, StyleFlags(0))
  }

  /** The effect on bit `k`. */
  function EffectAt(k: nat): (e: Effect)
    requires k < 8
    ensures e != Bold && ShiftOf(e) == k
  {
    [Dimmed, Italic, Underline, Blink, BlinkFast, Reversed, Hidden, Strikethrough][k]
  }

  /** Whether the style has an effect. */
  predicate HasEffect(s: Style, e: Effect)
  {
    if e == Bold then s.bold else Bit(s.flags.bits, ShiftOf(e))
  }

  /** `set_effect`: turns one effect on or off; the bold flag for `Bold`,
      its bit otherwise. */
  function SetEffect(s: Style, e: Effect, to: bool): (r: Style)
    ensures r.fg == s.fg && r.bg == s.bg
    ensures HasEffect(r, e) == to
    ensures forall x :: x != e ==> HasEffect(r, x) == HasEffect(s, x)
  {
    if e == Bold then s.(bold := to)
    else
      var r := s.(flags := StyleFlags(SetBit(s.flags.bits, ShiftOf(e), to)));
      assert forall x :: x != e && x != Bold ==> ShiftOf(x) != ShiftOf(e);
      r
  }

  /** `set_effect` applied to each effect of the list in turn. */
  function SetEffectsSpec(s: Style, es: seq<Effect>, to: bool): Style
  {
    if es == [] then s else SetEffect(SetEffectsSpec(s, es[..|es| - 1], to), es[|es| - 1], to)
  }

  /** After `set_effects`, the effects in the list are as asked and the
      others and the colours are as before. */
  lemma {:induction false} SetEffectsHas(s: Style, es: seq<Effect>, to: bool)
    ensures SetEffectsSpec(s, es, to).fg == s.fg && SetEffectsSpec(s, es, to).bg == s.bg
    ensures forall x :: HasEffect(SetEffectsSpec(s, es, to), x)
                        == if x in es then to else HasEffect(s, x)
  {
    if es != [] {
      var init := es[..|es| - 1];
      SetEffectsHas(s, init, to);
      assert forall x :: x in es <==> x in init || x == es[|es| - 1];
    }
  }

  /** `set_effects`: the loop over the slice. */
  method SetEffects(s: Style, es: seq<Effect>, to: bool) returns (r: Style)
    ensures r == SetEffectsSpec(s, es, to)
  {
    r := s;
    var rest := es;
    while rest != []
      invariant |rest| <= |es| && rest == es[|es| - |rest|..]
      invariant r == SetEffectsSpec(s, es[..|es| - |rest|], to)
      decreases |rest|
    {
      ghost var done := es[..|es| - |rest|];
      r := SetEffect(r, rest[0], to);
      assert es[..|es| - |rest| + 1] == done + [rest[0]];
      assert (done + [rest[0]])[..|done|] == done;
      rest := rest[1..];
    }
    assert es[..|es|] == es;
  }

  /** `effects`: turn the listed effects on. */
  method Effects(s: Style, es: seq<Effect>) returns (r: Style)
    ensures r == SetEffectsSpec(s, es, true)
  {
    r := SetEffects(s, es, true);
  }

  /** `remove_effects`: turn the listed effects off. */
  method RemoveEffects(s: Style, es: seq<Effect>) returns (r: Style)
    ensures r == SetEffectsSpec(s, es, false)
  {
    r := SetEffects(s, es, false);
  }

  /** The foreground setters (`fg`, `red` ... `bright_white`, `color`,
      `fg_rgb`, `truecolor`) with `Some`, `remove_fg` with `None`. */
  function WithFg(s: Style, c: Option<Color>): (r: Style)
    ensures r.fg == c && r.bg == s.bg
    ensures forall e :: HasEffect(r, e) == HasEffect(s, e)
  {
    s.(fg := c)
  }

  /** The background setters (`bg`, `on_red` ..., `on_color`, `bg_rgb`,
      `on_truecolor`) with `Some`, `remove_bg` with `None`. */
  function WithBg(s: Style, c: Option<Color>): (r: Style)
    ensures r.bg == c && r.fg == s.fg
    ensures forall e :: HasEffect(r, e) == HasEffect(s, e)
  {
    s.(bg := c)
  }

  /** `remove_all_effects`: bold and every flag cleared, colours kept. */
  function RemoveAllEffects(s: Style): (r: Style)
    ensures r.fg == s.fg && r.bg == s.bg
    ensures forall e :: !HasEffect(r, e)
  {
    s.(bold := false, flags := StyleFlags(0))
  }

  /** `StyleFlags::is_plain` and `Style::is_plain`. */
  predicate IsPlain(s: Style)
  {
    !(s.fg.Some? || s.bg.Some? || s.bold) && s.flags.bits == 0
  }

  /** A style is plain exactly when it has no colour and no effect. */
  lemma PlainIffNothing(s: Style)
    ensures IsPlain(s) <==> s.fg.None? && s.bg.None? && forall e :: !HasEffect(s, e)
  {
    if s.fg.None? && s.bg.None? && forall e :: !HasEffect(s, e) {
      forall k | 0 <= k < 8
        ensures !Bit(s.flags.bits, k)
      {
        assert !HasEffect(s, EffectAt(k));
      }
      NoBitIsZero(s.flags.bits);
      assert !HasEffect(s, Bold);
    }
  }

  // ---------------------------------------------------------------------
  // SGR text

  /** The SGR parameter of the effect on bit `k`: `2` for dimmed up to
      `9` for strikethrough. */
  function FlagCode(k: nat): string
    requires k < 8
  {
    ["23456789"[k]]
  }

  /** The codes of the set bits below `k`, lowest bit first. */
  function FlagCodes(b: bv8, k: nat): seq<string>
    requires k <= 8
  {
    if k == 0 then []
    else FlagCodes(b, k - 1) + (if Bit(b, k - 1) then [FlagCode(k - 1)] else [])
  }

  /** The parameters a style selects, in the order `fmt_prefix` writes
      them: foreground, background, bold, then the flags. */
  function Codes(s: Style): seq<string>
  {
    Lead(s) + FlagCodes(s.flags.bits, 8)
  }

  /** The colour and bold parameters. */
  function Lead(s: Style): seq<string>
  {
    (if s.fg.Some? then [s.fg.value.fgCode] else [])
    + (if s.bg.Some? then [s.bg.value.bgCode] else [])
    + (if s.bold then ["1"] else [])
  }

  /** The prefix: nothing for a plain style, otherwise `ESC [`, the codes
      separated by `;`, and `m`. */
  function Prefix(s: Style): string
  {
    if IsPlain(s) then "" else CSI + Join(Codes(s), ';') + "m"
  }

  /** The suffix: the SGR reset `ESC [0m` unless the style is plain. */
  function Suffix(s: Style): string
  {
    if IsPlain(s) then "" else CSI + "0m"
  }

  /** No bit below `k` set gives no codes, and the other way round. */
  lemma {:induction false} FlagCodesEmpty(b: bv8, k: nat)
    requires k <= 8
    ensures FlagCodes(b, k) == [] <==> forall j :: 0 <= j < k ==> !Bit(b, j)
  {
    if k > 0 {
      FlagCodesEmpty(b, k - 1);
    }
  }

  lemma FlagCodesNext(b: bv8, k: nat, lead: seq<string>, before: seq<string>, after: seq<string>)
    requires k < 8 && before == lead + FlagCodes(b, k)
    requires after == if Bit(b, k) then before + [FlagCode(k)] else before
    ensures after == lead + FlagCodes(b, k + 1)
  {
  }

  lemma FlagCodesZero()
    ensures FlagCodes(0, 8) == []
  {
    FlagCodesEmpty(0, 8);
  }

  /** A style selects some parameter exactly when it is not plain, so the
      prefix is never an empty `ESC [m`. */
  lemma CodesEmptyIffPlain(s: Style)
    ensures Codes(s) == [] <==> IsPlain(s)
  {
    FlagCodesEmpty(s.flags.bits, 8);
    if FlagCodes(s.flags.bits, 8) == [] {
      NoBitIsZero(s.flags.bits);
    }
  }

  /** Appending a code: a `;` goes before it unless it is the first. */
  lemma JoinPush(codes: seq<string>, c: string)
    ensures Join(codes + [c], ';') == if codes == [] then c else Join(codes, ';') + ";" + c
  {
    if codes != [] {
      JoinSnoc(codes + [c], ';');
      assert (codes + [c])[..|codes|] == codes;
    }
  }

  /** `fmt::Formatter`, as the text written to it so far. */
  class Formatter {
    var written: string

    constructor ()
      ensures written == ""
    {
      written := "";
    }

    /** `write_str`. */
    method WriteStr(t: string)
      modifies this
      ensures written == old(written) + t
    {
      written := written + t;
    }
  }

  /** One parameter of `fmt_prefix`: a `;` first when something has
      been written since `ESC [`, then the code. */
  method WriteParam(f: Formatter, code: string, semicolon: bool, ghost start: string, ghost codes: seq<string>)
    requires f.written == start + Join(codes, ';') && semicolon == (codes != [])
    modifies f
    ensures f.written == start + Join(codes + [code], ';')
  {
    if semicolon {
      f.WriteStr(";");
    }
    f.WriteStr(code);
    JoinPush(codes, code);
  }

  /** The flag parameters of `fmt_prefix`, one step per flag from dimmed
      (bit 0) to strikethrough (bit 7). */
  method WriteFlags(f: Formatter, b: bv8, semicolon0: bool, ghost start: string, ghost lead: seq<string>)
    requires f.written == start + Join(lead, ';') && semicolon0 == (lead != [])
    modifies f
    ensures f.written == start + Join(lead + FlagCodes(b, 8), ';')
  {
    var semicolon := semicolon0;
    ghost var codes := lead;
    var k := 0;
    while k < 8
      invariant 0 <= k <= 8
      invariant codes == lead + FlagCodes(b, k)
      invariant f.written == start + Join(codes, ';') && semicolon == (codes != [])
    {
      ghost var before := codes;
      if Bit(b, k) {
        WriteParam(f, FlagCode(k), semicolon, start, codes);
        codes := codes + [FlagCode(k)];
        semicolon := true;
      }
      FlagCodesNext(b, k, lead, before, codes);
      k := k + 1;
    }
  }

  /** `fmt_prefix`: writes `ESC [` when the style is not plain, each code
      preceded by `;` once something has been written, then `m`. */
  method FmtPrefix(s: Style, f: Formatter)
    modifies f
    ensures f.written == old(f.written) + Prefix(s)
  {
    var lessImportant := s.flags.bits != 0;
    var formatEffect := s.bold || lessImportant;
    var formatAny := !IsPlain(s);
    ghost var start := f.written + (if formatAny then CSI else "");
    if formatAny {
      f.WriteStr(CSI);
    }
    var semicolon := WriteLead(s, f, formatEffect, start);
    if formatEffect && lessImportant {
      WriteFlags(f, s.flags.bits, semicolon, start, Lead(s));
    } else {
      FlagCodesZero();
      assert Codes(s) == Lead(s) + [] == Lead(s);
    }
    ghost var joined := Join(Codes(s), ';');
    assert f.written == start + joined;
    if formatAny {
      f.WriteStr("m");
      Append4(old(f.written), CSI, joined, "m");
    } else {
      FlagCodesZero();
      assert joined == "" && Prefix(s) == "";
    }
  }

  /** The colour and bold parameters of `fmt_prefix`; the result says
      whether a separator is due before the next parameter. */
  method WriteLead(s: Style, f: Formatter, formatEffect: bool, ghost start: string) returns (semicolon: bool)
    requires f.written == start && formatEffect == (s.bold || s.flags.bits != 0)
    modifies f
    ensures f.written == start + Join(Lead(s), ';') && semicolon == (Lead(s) != [])
  {
    semicolon := false;
    ghost var codes: seq<string> := [];
    if s.fg.Some? {
      WriteParam(f, s.fg.value.fgCode, false, start, codes);
      codes := codes + [s.fg.value.fgCode];
      semicolon := true;
    }
    if s.bg.Some? {
      WriteParam(f, s.bg.value.bgCode, s.fg.Some?, start, codes);
      codes := codes + [s.bg.value.bgCode];
      semicolon := true;
    }
    if formatEffect && s.bold {
      WriteParam(f, "1", semicolon, start, codes);
      codes := codes + ["1"];
      semicolon := true;
    }
    assert codes == Lead(s);
  }

  lemma Append4(a: string, b: string, c: string, d: string)
    ensures a + b + c + d == a + (b + c + d)
  {
  }

  /** `fmt_suffix`. */
  method FmtSuffix(s: Style, f: Formatter)
    modifies f
    ensures f.written == old(f.written) + Suffix(s)
  {
    if !IsPlain(s) {
      f.WriteStr(CSI + "0m");
    }
  }

  /** Displaying a `Styled` value: prefix, the target's own text, suffix. */
  method FmtStyled(s: Style, target: string, f: Formatter)
    modifies f
    ensures f.written == old(f.written) + Prefix(s) + target + Suffix(s)
  {
    FmtPrefix(s, f);
    f.WriteStr(target);
    FmtSuffix(s, f);
  }

  /** After `remove_all_effects` the prefix selects the colours only. */
  lemma RemoveAllEffectsCodes(s: Style)
    ensures Codes(RemoveAllEffects(s)) == (if s.fg.Some? then [s.fg.value.fgCode] else [])
                                          + (if s.bg.Some? then [s.bg.value.bgCode] else [])
  {
    FlagCodesZero();
  }

  /** A plain style displays its target unchanged; any other style
      wraps it in a non-empty SGR sequence and the reset. */
  lemma StyledText(s: Style, target: string)
    ensures IsPlain(s) ==> Prefix(s) + target + Suffix(s) == target
    ensures !IsPlain(s) ==> Codes(s) != [] && Suffix(s) == CSI + "0m"
  {
    if IsPlain(s) {
      assert Prefix(s) == "" && Suffix(s) == "";
      assert "" + target + "" == target;
    } else {
      CodesEmptyIffPlain(s);
    }
  }

  /** `Style::new().effects(&[Strikethrough, Underline])` displays with
      the prefix `ESC [4;9m`: the flags are written in bit order, not in
      the order given. */
  lemma EffectsOrder()
    ensures Prefix(SetEffectsSpec(New(), [Strikethrough, Underline], true)) == CSI + "4;9m"
  {
    var s := SetEffectsSpec(New(), [Strikethrough, Underline], true);
    assert [Strikethrough, Underline][..1] == [Strikethrough];
    assert s.flags.bits == 0x84;
    assert FlagCodes(s.flags.bits, 8) == ["4", "9"];
  }

  lemma FlagCodes8F()
    ensures FlagCodes(0x8f, 8) == ["2", "3", "4", "5", "9"]
  {
  }

  lemma Regroup(a: string, f: string, b: string, t: string, m: string)
    ensures a + (f + ";" + (b + ";" + t)) + m == a + f + ";" + b + (";" + t + m)
  {
  }

  lemma JoinDigits()
    ensures Join(["1", "2", "3", "4", "5", "9"], ';') == "1;2;3;4;5;9"
  {
    var d := ["1", "2", "3", "4", "5", "9"];
    assert Join(d[4..], ';') == "5;9";
    assert Join(d[2..], ';') == "3;4;5;9";
  }

  /** Colours come first: a foreground, a background, bold and five more
      effects give `ESC [fg;bg;1;2;3;4;5;9m`. */
  lemma FullPrefix(fg: Color, bg: Color)
    ensures var s := Style(Some(fg), Some(bg), true, StyleFlags(0x8f));
      Prefix(s) == CSI + fg.fgCode + ";" + bg.bgCode + ";1;2;3;4;5;9m"
  {
    var s := Style(Some(fg), Some(bg), true, StyleFlags(0x8f));
    var t := "1;2;3;4;5;9";
    FullCodes(fg, bg);
    FullJoin(fg.fgCode, bg.bgCode);
    assert Prefix(s) == CSI + (fg.fgCode + ";" + (bg.bgCode + ";" + t)) + "m";
    Regroup(CSI, fg.fgCode, bg.bgCode, t, "m");
    FullTail();
  }

  lemma FullCodes(fg: Color, bg: Color)
    ensures Codes(Style(Some(fg), Some(bg), true, StyleFlags(0x8f))) == [fg.fgCode, bg.bgCode] + ["1", "2", "3", "4", "5", "9"]
  {
    FlagCodes8F();
  }

  lemma FullJoin(f: string, b: string)
    ensures Join([f, b] + ["1", "2", "3", "4", "5", "9"], ';') == f + ";" + (b + ";" + "1;2;3;4;5;9")
  {
    var digits := ["1", "2", "3", "4", "5", "9"];
    JoinDigits();
    JoinCons([b] + digits, ';');
    assert ([b] + digits)[1..] == digits;
    JoinCons([f, b] + digits, ';');
    assert ([f, b] + digits)[1..] == [b] + digits;
  }

  lemma FullTail()
    ensures ";" + "1;2;3;4;5;9" + "m" == ";1;2;3;4;5;9m"
  {
  }
}
