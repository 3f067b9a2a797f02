/** What a format string and its arguments stand for (the table above `_Print` in `print.c`), without
  * any buffers: directives are parsed, applied to the arguments, laid out, and newlines expanded. */
module Format {
  import opened Options
  import opened Words
  import opened Digits

  const PERCENT: Char16 := 0x25
  const STAR: Char16 := 0x2A
  const DOT: Char16 := 0x2E
  const QUESTION: Char16 := 0x3F
  const LF: Char16 := 0x0A
  const CR: Char16 := 0x0D
  const LOWER_C: Char16 := 0x63
  const LOWER_D: Char16 := 0x64
  const LOWER_L: Char16 := 0x6C
  const LOWER_S: Char16 := 0x73
  const LOWER_U: Char16 := 0x75
  const LOWER_X: Char16 := 0x78
  const UPPER_X: Char16 := 0x58

  /** `g`, `D`, `f`, `t`, `r` and the text attributes `n`, `h`, `e`, `N`, `H`, `E`. */
  const UNSUPPORTED: set<Char16> := {0x67, 0x44, 0x66, 0x74, 0x72, 0x6E, 0x68, 0x65, 0x4E, 0x48, 0x45}

  /** An argument slot: a machine word, or a pointer to a string (None is NULL). */
  datatype Arg = Number(bits: nat) | AsciiPtr(text: Option<CText>) | WidePtr(text: Option<CText>)

  /** The characters of a string, up to its NUL. */
  type CText = s: seq<Char16> | 0 !in s

  const NULL_TEXT: CText := [0x28, 0x6E, 0x75, 0x6C, 0x6C, 0x29]

  // ---------- directives ----------

  datatype Flag = ZeroPad | LeftJustify | Commas | FieldNext | WidthArg | WidthIs(n: nat) | Long

  /** The flags of a directive, its conversion character, and where the format goes on. */
  datatype Directive = Directive(flags: seq<Flag>, conv: Char16, next: nat)

  function With(f: Flag, d: Option<Directive>): Option<Directive> {
    match d
    case None => None
    case Some(d) => Some(d.(flags := [f] + d.flags))
  }

  function FlagOf(c: Char16): Option<Flag> {
    if c == ZERO then Some(ZeroPad)
    else if c == MINUS then Some(LeftJustify)
    else if c == COMMA then Some(Commas)
    else if c == DOT then Some(FieldNext)
    else if c == STAR then Some(WidthArg)
    else if c == LOWER_L then Some(Long)
    else None
  }

  /** A directive from position `i`, after its percent sign; None when the format ends within it or it
    * is not supported. */
  function ParseDirective(fmt: seq<Char16>, i: nat): Option<Directive>
    requires i <= |fmt|
    decreases |fmt| - i
  {
    if i == |fmt| || fmt[i] in UNSUPPORTED then None
    else if FlagOf(fmt[i]).Some? then With(FlagOf(fmt[i]).value, ParseDirective(fmt, i + 1))
    else if DigitOf(fmt[i], 10) >= 0 then
      var digits := LeadingDigits(fmt[i..], 10);
      LeadingFits(fmt[i..]);
      With(WidthIs(Value(digits, 10) % W64), ParseDirective(fmt, i + |digits|))
    else Some(Directive([], fmt[i], i + 1))
  }

  lemma {:induction false} LeadingFits(s: seq<Char16>)
    ensures |LeadingDigits(s, 10)| <= |s|
    ensures s != [] && DigitOf(s[0], 10) >= 0 ==> |LeadingDigits(s, 10)| > 0
  {
    if s != [] && DigitOf(s[0], 10) >= 0 {
      LeadingFits(s[1..]);
    }
  }

  // ---------- settings ----------

  /** The field width when none is given: the largest UINTN. */
  const NO_FIELD: nat := W64 - 1

  datatype Settings = Settings(fieldWidth: nat, width: nat, toField: bool,
                               pad: Char16, padBefore: bool, comma: bool, long: bool)

  const DEFAULT: Settings := Settings(NO_FIELD, 0, false, SPACE, true, false, false)

  function SetWidth(s: Settings, n: nat): Settings {
    if s.toField then s.(fieldWidth := n) else s.(width := n)
  }

  function ApplyFlag(s: Settings, f: Flag, args: seq<Arg>): Option<(Settings, seq<Arg>)> {
    match f
    case ZeroPad => Some((s.(pad := ZERO), args))
    case LeftJustify => Some((s.(padBefore := false), args))
    case Commas => Some((s.(comma := true), args))
    case FieldNext => Some((s.(toField := true), args))
    case WidthIs(n) => Some((SetWidth(s, n), args))
    case Long => Some((s.(long := true), args))
    case WidthArg =>
      if args != [] && args[0].Number? then Some((SetWidth(s, args[0].bits % W64), args[1..])) else None
  }

  function ApplyFlags(s: Settings, flags: seq<Flag>, args: seq<Arg>): Option<(Settings, seq<Arg>)>
    decreases |flags|
  {
    if flags == [] then Some((s, args))
    else match ApplyFlag(s, flags[0], args)
      case None => None
      case Some((s', rest)) => ApplyFlags(s', flags[1..], rest)
  }

  // ---------- items ----------

  function Unsigned(bits: nat, long: bool): nat {
    if long then bits % W64 else bits % 0x1_0000_0000
  }

  /** A 64-bit word read as INT64. */
  function AsInt64(v: nat): int {
    if v < INT64_LIMIT then v else v - W64
  }

  function Signed(bits: nat, long: bool): int {
    var v := Unsigned(bits, long);
    if long then AsInt64(v) else if v < 0x8000_0000 then v else v - 0x1_0000_0000
  }

  /** The number that a decimal conversion prints; an unsigned one passes through INT64 as well. */
  function DecimalOf(conv: Char16, bits: nat, long: bool): int {
    if conv == LOWER_D then Signed(bits, long) else AsInt64(Unsigned(bits, long))
  }

  function Settle(s: Settings, conv: Char16): Settings {
    if conv == UPPER_X then s.(width := if s.long then 16 else 8, pad := ZERO) else s
  }

  function Takes(conv: Char16): bool {
    conv in {LOWER_A, LOWER_S, LOWER_C, UPPER_X, LOWER_X, LOWER_U, LOWER_D}
  }

  /** The text of an item, before it is laid out; None when the argument is not of the right kind. */
  function ItemText(s: Settings, conv: Char16, args: seq<Arg>): Option<seq<Char16>> {
    if conv == PERCENT then Some([PERCENT])
    else if !Takes(conv) then Some([QUESTION])
    else if args == [] then None
    else if conv == LOWER_A then if args[0].AsciiPtr? then Some(StringText(args[0].text)) else None
    else if conv == LOWER_S then if args[0].WidePtr? then Some(StringText(args[0].text)) else None
    else if !args[0].Number? then None
    else
      var bits := args[0].bits;
      if conv == LOWER_C then Some(if bits % 0x1_0000 == 0 then [] else [bits % 0x1_0000])
      else if conv == UPPER_X || conv == LOWER_X then Some(NumText(Unsigned(bits, s.long), 16))
      else if DecimalOf(conv, bits, s.long) == -(INT64_LIMIT as int) then None
      else Some(SignedText(s.comma, DecimalOf(conv, bits, s.long)))
  }

  function StringText(text: Option<CText>): CText {
    if text.None? then NULL_TEXT else text.value
  }

  function Repeat(c: Char16, n: nat): seq<Char16> {
    seq(n, _ => c)
  }

  function Max(a: nat, b: nat): nat {
    if a < b then b else a
  }

  /** How much of the text is shown: the field width cuts it off. */
  function Shown(s: Settings, text: seq<Char16>): seq<Char16> {
    if s.fieldWidth < |text| then text[..s.fieldWidth] else text
  }

  /** The spaces that fill the field beyond the width. */
  function FieldSpaces(s: Settings, text: seq<Char16>): nat {
    var n := |Shown(s, text)|;
    var field := if s.fieldWidth == NO_FIELD then n else s.fieldWidth;
    if field > Max(s.width, n) then field - Max(s.width, n) else 0
  }

  function Padded(s: Settings, text: seq<Char16>): seq<Char16> {
    var shown := Shown(s, text);
    Repeat(s.pad, Max(s.width, |shown|) - |shown|) + shown
  }

  function Layout(s: Settings, text: seq<Char16>): seq<Char16> {
    var spaces := Repeat(SPACE, FieldSpaces(s, text));
    if s.padBefore then spaces + Padded(s, text) else Padded(s, text) + spaces
  }

  // ---------- rendering ----------

  /** A laid-out item, where the format goes on, and the arguments that are left. */
  datatype Item = Item(text: seq<Char16>, next: nat, rest: seq<Arg>)

  function RenderItem(s: Settings, d: Option<Directive>, args: seq<Arg>): Option<Item> {
    match d
    case None => None
    case Some(d) =>
      match ApplyFlags(s, d.flags, args)
      case None => None
      case Some((s', rest)) => Convert(s', d.conv, d.next, rest)
  }

  function Convert(s: Settings, conv: Char16, next: nat, args: seq<Arg>): Option<Item> {
    match ItemText(s, conv, args)
    case None => None
    case Some(text) => Some(Item(Layout(Settle(s, conv), text), next, if Takes(conv) then args[1..] else args))
  }

  function Before(a: seq<Char16>, b: Option<seq<Char16>>): Option<seq<Char16>> {
    match b
    case None => None
    case Some(b) => Some(a + b)
  }

  /** The rendering from position `i` on, newlines not yet expanded. */
  function RenderFrom(fmt: seq<Char16>, i: nat, args: seq<Arg>): Option<seq<Char16>>
    requires i <= |fmt|
    decreases |fmt| - i
  {
    if i == |fmt| then Some([])
    else if fmt[i] != PERCENT then Before([fmt[i]], RenderFrom(fmt, i + 1, args))
    else
      NextInside(fmt, i + 1);
      match RenderItem(DEFAULT, ParseDirective(fmt, i + 1), args)
      case None => None
      case Some(item) => Before(item.text, RenderFrom(fmt, item.next, item.rest))
  }

  /** A flag at the front of a directive takes effect before the rest of it. */
  lemma RenderWith(s: Settings, f: Flag, d: Option<Directive>, args: seq<Arg>)
    ensures RenderItem(s, With(f, d), args) ==
            match ApplyFlag(s, f, args)
            case None => None
            case Some((s', rest)) => RenderItem(s', d, rest)
  {
    if d.Some? {
      assert ([f] + d.value.flags)[1..] == d.value.flags;
    }
  }

  lemma {:induction false} NextInside(fmt: seq<Char16>, i: nat)
    requires i <= |fmt|
    ensures ParseDirective(fmt, i).Some? ==> i < ParseDirective(fmt, i).value.next <= |fmt|
    decreases |fmt| - i
  {
    if i < |fmt| && fmt[i] !in UNSUPPORTED {
      if FlagOf(fmt[i]).Some? {
        NextInside(fmt, i + 1);
      } else if DigitOf(fmt[i], 10) >= 0 {
        LeadingFits(fmt[i..]);
        NextInside(fmt, i + |LeadingDigits(fmt[i..], 10)|);
      }
    }
  }

  /** Every line feed gets a carriage return before it. */
  function CrLf(s: seq<Char16>): seq<Char16> {
    if s == [] then [] else (if s[0] == LF then [CR, LF] else [s[0]]) + CrLf(s[1..])
  }

  /** What `fmt` prints with these arguments; None unless every directive is complete, supported, and
    * matched by arguments of the right kind. */
  function Rendering(fmt: seq<Char16>, args: seq<Arg>): Option<seq<Char16>> {
    match RenderFrom(fmt, 0, args)
    case None => None
    case Some(s) => Some(CrLf(s))
  }

  // ---------- about renderings ----------

  /** Without a percent sign, a format stands for itself. */
  lemma {:induction false} RenderingOfPlainText(fmt: seq<Char16>, i: nat, args: seq<Arg>)
    requires i <= |fmt| && PERCENT !in fmt
    ensures RenderFrom(fmt, i, args) == Some(fmt[i..])
    ensures i == 0 ==> Rendering(fmt, args) == Some(CrLf(fmt))
    decreases |fmt| - i
  {
    if i < |fmt| {
      assert fmt[i] in fmt;
      RenderingOfPlainText(fmt, i + 1, args);
      assert fmt[i..] == [fmt[i]] + fmt[i + 1..];
      assert RenderFrom(fmt, i, args) == Before([fmt[i]], RenderFrom(fmt, i + 1, args));
    } else {
      assert fmt[i..] == [];
    }
    assert fmt[0..] == fmt;
  }

  lemma {:induction false} CrLfAppend(a: seq<Char16>, b: seq<Char16>)
    ensures CrLf(a + b) == CrLf(a) + CrLf(b)
  {
    if a == [] {
      assert a + b == b;
    } else {
      assert (a + b)[1..] == a[1..] + b;
      CrLfAppend(a[1..], b);
    }
  }

  lemma {:induction false} GroupedFirst(s: seq<Char16>)
    requires s != []
    ensures Grouped(s) != [] && Grouped(s)[0] == s[0]
    decreases |s|
  {
    if |s| > 3 {
      GroupedFirst(s[..|s| - 3]);
    }
  }

  /** An unsigned decimal shows its number exactly when it is not a long one of 2^63 or more. */
  lemma UnsignedShown(s: Settings, bits: nat)
    ensures var digits := NumText(Unsigned(bits, s.long), 10);
            ItemText(s, LOWER_U, [Number(bits)]) == Some(if s.comma then Grouped(digits) else digits)
            <==> !s.long || bits % W64 < INT64_LIMIT
  {
    var v := Unsigned(bits, s.long);
    var digits := NumText(v, 10);
    GroupedFirst(digits);
    assert digits[0] == HexChar(Numeral(v, 10)[0]) != MINUS;
    hide Grouped, NumText;
    var d := DecimalOf(LOWER_U, bits, s.long);
    if s.long && v > INT64_LIMIT {
      assert d < 0 && SignedText(s.comma, d)[0] == MINUS;
    } else if v < INT64_LIMIT {
      assert SignedText(s.comma, d) == if s.comma then Grouped(digits) else digits;
    }
  }

  /** For instance, 2^63 + 1 is shown as -(2^63 - 1); and 2^63 has no text, since its negative does not
    * fit. */
  lemma UnsignedNotShown(s: Settings)
    requires s.long
    ensures ItemText(s, LOWER_U, [Number(INT64_LIMIT + 1)]) == Some(SignedText(s.comma, 1 - INT64_LIMIT))
    ensures ItemText(s, LOWER_U, [Number(INT64_LIMIT)]) == None
    ensures !s.comma ==> SignedText(s.comma, 1 - INT64_LIMIT) == [MINUS] + NumText(INT64_LIMIT - 1, 10)
  {
    hide NumText, Grouped;
  }

  /** Despite its name, the minus flag has no effect on an item without a field width: the width alone
    * always pads on the left. */
  lemma MinusNeedsField(s: Settings, text: seq<Char16>)
    requires s.fieldWidth == NO_FIELD && |text| < NO_FIELD
    ensures Layout(s.(padBefore := false), text) == Layout(s.(padBefore := true), text)
  {
    SidesAlike(s, text, false);
    SidesAlike(s, text, true);
    assert FieldSpaces(s, text) == 0;
    hide Padded, FieldSpaces;
    var p := Padded(s, text);
    assert Repeat(SPACE, 0) + p == p == p + Repeat(SPACE, 0);
  }

  /** With a field, it moves the spaces exactly when there are any and the item is not itself blank. */
  lemma MinusMovesSpaces(s: Settings, text: seq<Char16>)
    ensures Layout(s.(padBefore := false), text) == Layout(s.(padBefore := true), text)
       <==> FieldSpaces(s, text) == 0 || forall c <- Padded(s, text) :: c == SPACE
  {
    hide Padded, FieldSpaces, Repeat;
    SidesAlike(s, text, false);
    SidesAlike(s, text, true);
    SpacesCommute(Padded(s, text), FieldSpaces(s, text));
  }

  lemma SidesAlike(s: Settings, text: seq<Char16>, before: bool)
    ensures Padded(s.(padBefore := before), text) == Padded(s, text)
    ensures FieldSpaces(s.(padBefore := before), text) == FieldSpaces(s, text)
  {
    hide Repeat, Max;
    assert Shown(s.(padBefore := before), text) == Shown(s, text);
  }

  lemma SpacesCommute(p: seq<Char16>, n: nat)
    ensures Repeat(SPACE, n) + p == p + Repeat(SPACE, n) <==> n == 0 || forall c <- p :: c == SPACE
  {
    var before, after := Repeat(SPACE, n) + p, p + Repeat(SPACE, n);
    if n > 0 && before == after {
      BlankByShift(p, n, |p|);
    } else if forall c <- p :: c == SPACE {
      assert forall i | 0 <= i < |p| :: p[i] in p;
      assert before == after;
    }
  }

  lemma {:induction false} BlankByShift(p: seq<Char16>, n: nat, k: nat)
    requires n > 0 && Repeat(SPACE, n) + p == p + Repeat(SPACE, n) && k <= |p|
    ensures forall i | 0 <= i < k :: p[i] == SPACE
    decreases k
  {
    if k > 0 {
      BlankByShift(p, n, k - 1);
      assert (Repeat(SPACE, n) + p)[k - 1] == p[k - 1];
    }
  }

  /** The laid-out item is as wide as the widest of text, width and field. */
  lemma LayoutWidth(s: Settings, text: seq<Char16>)
    requires |text| < NO_FIELD
    ensures var field := if s.fieldWidth == NO_FIELD then 0 else s.fieldWidth;
            |Layout(s, text)| == Max(Max(s.width, |Shown(s, text)|), field)
  {
  }
}
