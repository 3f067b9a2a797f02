/** What each character of a format string does (the table above `_Print` in `print.c`), in laws that
  * determine every rendering. */
module FormatLaws {
  import opened Options
  import opened Words
  import opened Digits
  import opened DigitLaws
  import opened Format

  /** What a directive shows that goes on at position `i` with these settings. */
  function Show(s: Settings, fmt: seq<Char16>, i: nat, args: seq<Arg>): Option<Item>
    requires i <= |fmt|
  {
    RenderItem(s, ParseDirective(fmt, i), args)
  }

  // ---------- the format as a whole ----------

  lemma RenderedPlain(fmt: seq<Char16>, i: nat, args: seq<Arg>)
    requires i <= |fmt|
    ensures i == |fmt| ==> RenderFrom(fmt, i, args) == Some([])
    ensures i < |fmt| && fmt[i] != 0x25 ==>
              RenderFrom(fmt, i, args) == match RenderFrom(fmt, i + 1, args)
                case None => None
                case Some(rest) => Some([fmt[i]] + rest)
  {
    hide ParseDirective, RenderItem;
  }

  /** A percent sign begins a directive, with no widths, padding with spaces before the item; another
    * character stands for itself. */
  lemma RenderedFrom(fmt: seq<Char16>, i: nat, args: seq<Arg>)
    requires i < |fmt| && fmt[i] == 0x25
    ensures var item := Show(Settings(0xFFFF_FFFF_FFFF_FFFF, 0, false, 0x20, true, false, false), fmt, i + 1, args);
      && (item.None? ==> RenderFrom(fmt, i, args) == None)
      && (item.Some? ==>
            && i < item.value.next <= |fmt|
            && RenderFrom(fmt, i, args) == match RenderFrom(fmt, item.value.next, item.value.rest)
                 case None => None
                 case Some(rest) => Some(item.value.text + rest))
  {
    NextInside(fmt, i + 1);
    assert DEFAULT == Settings(0xFFFF_FFFF_FFFF_FFFF, 0, false, 0x20, true, false, false);
    hide ParseDirective, Layout, ItemText, ApplyFlags, Settle;
  }

  /** A line feed is sent with a carriage return before it, and other characters are sent as they are. */
  lemma LineFeeds(a: seq<Char16>, b: seq<Char16>)
    ensures CrLf(a + [0x0A] + b) == CrLf(a) + [0x0D, 0x0A] + CrLf(b)
    ensures 0x0A !in a ==> CrLf(a) == a
  {
    CrLfAppend(a + [0x0A], b);
    CrLfAppend(a, [0x0A]);
    assert [0x0A][1..] == [] && CrLf([0x0A]) == [0x0D, 0x0A];
    NoLineFeed(a);
  }

  lemma {:induction false} NoLineFeed(a: seq<Char16>)
    ensures 0x0A !in a ==> CrLf(a) == a
    decreases |a|
  {
    if a != [] && 0x0A !in a {
      assert a[0] in a && forall c <- a[1..] :: c in a;
      NoLineFeed(a[1..]);
    }
  }

  /** A format that is one directive. */
  lemma OneDirective(fmt: seq<Char16>, args: seq<Arg>, item: Item)
    requires fmt != [] && fmt[0] == 0x25 && item.next == |fmt|
    requires Show(Settings(0xFFFF_FFFF_FFFF_FFFF, 0, false, 0x20, true, false, false), fmt, 1, args) == Some(item)
    ensures Rendering(fmt, args) == Some(CrLf(item.text))
  {
    hide ParseDirective, RenderItem, RenderFrom, Show;
    RenderedFrom(fmt, 0, args);
    RenderedPlain(fmt, |fmt|, item.rest);
    assert item.text + [] == item.text;
  }

  lemma WholeFormat(fmt: seq<Char16>, args: seq<Arg>)
    ensures Rendering(fmt, args) == match RenderFrom(fmt, 0, args)
              case None => None
              case Some(text) => Some(CrLf(text))
  {
  }

  // ---------- flags ----------

  lemma OneFlag(s: Settings, fmt: seq<Char16>, i: nat, args: seq<Arg>)
    requires i < |fmt| && fmt[i] !in UNSUPPORTED && FlagOf(fmt[i]).Some?
    ensures Show(s, fmt, i, args) == match ApplyFlag(s, FlagOf(fmt[i]).value, args)
              case None => None
              case Some((s', rest)) => Show(s', fmt, i + 1, rest)
  {
    RenderWith(s, FlagOf(fmt[i]).value, ParseDirective(fmt, i + 1), args);
  }

  /** `0` pads with zeros, `-` puts the spaces of the field behind the item, `,` groups, `.` says that the
    * next number is the field width, and `l` that the argument has 64 bits. */
  lemma Flags(s: Settings, fmt: seq<Char16>, i: nat, args: seq<Arg>)
    requires i < |fmt|
    ensures fmt[i] == 0x30 ==> Show(s, fmt, i, args) == Show(s.(pad := 0x30), fmt, i + 1, args)
    ensures fmt[i] == 0x2D ==> Show(s, fmt, i, args) == Show(s.(padBefore := false), fmt, i + 1, args)
    ensures fmt[i] == 0x2C ==> Show(s, fmt, i, args) == Show(s.(comma := true), fmt, i + 1, args)
    ensures fmt[i] == 0x2E ==> Show(s, fmt, i, args) == Show(s.(toField := true), fmt, i + 1, args)
    ensures fmt[i] == 0x6C ==> Show(s, fmt, i, args) == Show(s.(long := true), fmt, i + 1, args)
  {
    hide RenderItem, ParseDirective;
    if fmt[i] in {0x30, 0x2D, 0x2C, 0x2E, 0x6C} {
      OneFlag(s, fmt, i, args);
    }
  }

  /** `*` takes the number from the arguments. */
  lemma WidthArgument(s: Settings, fmt: seq<Char16>, i: nat, args: seq<Arg>)
    requires i < |fmt| && fmt[i] == 0x2A && args != [] && args[0].Number?
    ensures var n := args[0].bits % 0x1_0000_0000_0000_0000;
            Show(s, fmt, i, args)
            == Show(if s.toField then s.(fieldWidth := n) else s.(width := n), fmt, i + 1, args[1..])
  {
    hide RenderItem, ParseDirective;
    OneFlag(s, fmt, i, args);
  }

  /** Digits that do not begin with a zero are the number. */
  lemma WidthDigits(s: Settings, fmt: seq<Char16>, i: nat, j: nat, args: seq<Arg>)
    requires i < j <= |fmt| && 0x31 <= fmt[i] <= 0x39 && AllDigits(fmt[i..j], 10)
    requires j == |fmt| || !(0x30 <= fmt[j] <= 0x39)
    ensures var n := NumberOf(fmt[i..j], 10) % 0x1_0000_0000_0000_0000;
            Show(s, fmt, i, args) == Show(if s.toField then s.(fieldWidth := n) else s.(width := n), fmt, j, args)
  {
    hide RenderItem, ParseDirective, NumberOf;
    ParsedDigits(fmt, i, j);
    RenderWith(s, WidthIs(NumberOf(fmt[i..j], 10) % 0x1_0000_0000_0000_0000), ParseDirective(fmt, j), args);
  }

  lemma ParsedDigits(fmt: seq<Char16>, i: nat, j: nat)
    requires i < j <= |fmt| && 0x31 <= fmt[i] <= 0x39 && AllDigits(fmt[i..j], 10)
    requires j == |fmt| || !(0x30 <= fmt[j] <= 0x39)
    ensures ParseDirective(fmt, i)
         == With(WidthIs(NumberOf(fmt[i..j], 10) % 0x1_0000_0000_0000_0000), ParseDirective(fmt, j))
  {
    hide NumberOf, LeadingDigits, Value;
    var cs, tail := fmt[i..j], fmt[j..];
    assert fmt[i..] == cs + tail;
    assert tail != [] ==> tail[0] == fmt[j];
    LeadingOf(cs, tail, 10);
    ValueOf(cs, 10);
    LeadingFits(fmt[i..]);
  }

  /** A format that ends within a directive has no rendering. */
  lemma Unfinished(s: Settings, fmt: seq<Char16>, args: seq<Arg>)
    ensures Show(s, fmt, |fmt|, args) == None
  {
  }

  // ---------- conversions ----------

  lemma Conversion(s: Settings, fmt: seq<Char16>, i: nat, args: seq<Arg>)
    requires i < |fmt| && fmt[i] !in UNSUPPORTED && FlagOf(fmt[i]).None? && DigitOf(fmt[i], 10) < 0
    ensures Show(s, fmt, i, args) == Convert(s, fmt[i], i + 1, args)
  {
  }

  /** The argument of an item, laid out with these settings. */
  function Shows(s: Settings, text: seq<Char16>, i: nat, args: seq<Arg>): Option<Item>
    requires args != []
  {
    Some(Item(Layout(s, text), i + 1, args[1..]))
  }

  /** `%d` shows the signed number that the low 32 bits are, and `%ld` the one that 64 bits are. */
  lemma Decimal(s: Settings, fmt: seq<Char16>, i: nat, args: seq<Arg>, x: int)
    requires i < |fmt| && fmt[i] == 0x64 && args != [] && args[0].Number?
    requires if s.long
             then -0x8000_0000_0000_0000 < x < 0x8000_0000_0000_0000
                  && args[0].bits % 0x1_0000_0000_0000_0000 == x % 0x1_0000_0000_0000_0000
             else -0x8000_0000 <= x < 0x8000_0000 && args[0].bits % 0x1_0000_0000 == x % 0x1_0000_0000
    ensures Show(s, fmt, i, args) == Shows(s, SignedText(s.comma, x), i, args)
  {
    hide Layout, SignedText, ParseDirective, RenderItem, DecimalOf;
    Conversion(s, fmt, i, args);
    SignedIs(args[0].bits, s.long, x);
  }

  lemma SignedIs(bits: nat, long: bool, x: int)
    requires if long
             then -0x8000_0000_0000_0000 < x < 0x8000_0000_0000_0000
                  && bits % 0x1_0000_0000_0000_0000 == x % 0x1_0000_0000_0000_0000
             else -0x8000_0000 <= x < 0x8000_0000 && bits % 0x1_0000_0000 == x % 0x1_0000_0000
    ensures DecimalOf(0x64, bits, long) == x
  {
    if long {
      assert x % 0x1_0000_0000_0000_0000 == if x < 0 then x + 0x1_0000_0000_0000_0000 else x;
    } else {
      assert x % 0x1_0000_0000 == if x < 0 then x + 0x1_0000_0000 else x;
    }
  }

  /** `%u` shows the number that the low 32 bits are, and `%lu` the one that 64 bits are, below 2^63. */
  lemma Unsigned10(s: Settings, fmt: seq<Char16>, i: nat, args: seq<Arg>, x: nat)
    requires i < |fmt| && fmt[i] == 0x75 && args != [] && args[0].Number?
    requires if s.long then x < 0x8000_0000_0000_0000 && args[0].bits % 0x1_0000_0000_0000_0000 == x
             else args[0].bits % 0x1_0000_0000 == x
    ensures Show(s, fmt, i, args) == Shows(s, SignedText(s.comma, x), i, args)
  {
    Conversion(s, fmt, i, args);
    hide Layout, SignedText, ParseDirective;
  }

  /** `%x` shows the hexadecimal numeral, and `%X` the same with zeros, to 8 or 16 digits. */
  lemma Hexadecimal(s: Settings, fmt: seq<Char16>, i: nat, args: seq<Arg>)
    requires i < |fmt| && args != [] && args[0].Number?
    ensures var x := if s.long then args[0].bits % 0x1_0000_0000_0000_0000 else args[0].bits % 0x1_0000_0000;
      && (fmt[i] == 0x78 ==> Show(s, fmt, i, args) == Shows(s, NumText(x, 16), i, args))
      && (fmt[i] == 0x58 ==>
            Show(s, fmt, i, args)
            == Shows(s.(width := if s.long then 16 else 8, pad := 0x30), NumText(x, 16), i, args))
  {
    if fmt[i] == 0x78 || fmt[i] == 0x58 {
      Conversion(s, fmt, i, args);
      hide Layout, NumText, ParseDirective;
    }
  }

  /** `%c` shows one character, but no NUL. */
  lemma Character(s: Settings, fmt: seq<Char16>, i: nat, args: seq<Arg>)
    requires i < |fmt| && fmt[i] == 0x63 && args != [] && args[0].Number?
    ensures var c := args[0].bits % 0x1_0000;
            Show(s, fmt, i, args) == Shows(s, if c == 0 then [] else [c], i, args)
  {
    Conversion(s, fmt, i, args);
    hide Layout, ParseDirective;
  }

  /** `%s` and `%a` show a string, and "(null)" for NULL. */
  lemma Strings(s: Settings, fmt: seq<Char16>, i: nat, args: seq<Arg>)
    requires i < |fmt| && args != []
    ensures fmt[i] == 0x73 && args[0].WidePtr? && args[0].text.Some? ==>
              Show(s, fmt, i, args) == Shows(s, args[0].text.value, i, args)
    ensures fmt[i] == 0x61 && args[0].AsciiPtr? && args[0].text.Some? ==>
              Show(s, fmt, i, args) == Shows(s, args[0].text.value, i, args)
    ensures fmt[i] == 0x73 && args[0] == WidePtr(None) ==>
              Show(s, fmt, i, args) == Shows(s, [0x28, 0x6E, 0x75, 0x6C, 0x6C, 0x29], i, args)
    ensures fmt[i] == 0x61 && args[0] == AsciiPtr(None) ==>
              Show(s, fmt, i, args) == Shows(s, [0x28, 0x6E, 0x75, 0x6C, 0x6C, 0x29], i, args)
  {
    if fmt[i] == 0x73 || fmt[i] == 0x61 {
      Conversion(s, fmt, i, args);
      hide Layout, ParseDirective;
    }
  }

  /** The characters that are flags, digits or conversions, also those without a model. */
  const KNOWN: set<Char16> := {
    0x25, 0x2A, 0x2C, 0x2D, 0x2E, 0x30, 0x31, 0x32, 0x33, 0x34, 0x35, 0x36, 0x37, 0x38, 0x39, 0x44, 0x45, 0x48, 0x4E,
    0x58, 0x61, 0x63, 0x64, 0x65, 0x66, 0x67, 0x68, 0x6C, 0x6E, 0x72, 0x73, 0x74, 0x75, 0x78}

  /** `%%` shows a percent sign, and an unknown conversion a question mark; neither takes an argument. */
  lemma Others(s: Settings, fmt: seq<Char16>, i: nat, args: seq<Arg>)
    requires i < |fmt|
    ensures fmt[i] == 0x25 ==> Show(s, fmt, i, args) == Some(Item(Layout(s, [0x25]), i + 1, args))
    ensures fmt[i] !in KNOWN ==> Show(s, fmt, i, args) == Some(Item(Layout(s, [0x3F]), i + 1, args))
  {
    if fmt[i] == 0x25 || fmt[i] !in KNOWN {
      Conversion(s, fmt, i, args);
      hide Layout, ParseDirective;
    }
  }

  // ---------- layout ----------

  /** The field width cuts the text off; the width is filled with the padding character before the text;
    * and the field with spaces, before or behind. Without a field width there is no field. */
  lemma LayoutCells(s: Settings, text: seq<Char16>, k: nat)
    ensures var n := if s.fieldWidth < |text| then s.fieldWidth else |text|;
      var m := if s.width < n then n else s.width;
      var size := if s.fieldWidth == 0xFFFF_FFFF_FFFF_FFFF || s.fieldWidth < m then m else s.fieldWidth;
      var front := if s.padBefore then size - m else 0;
      && |Layout(s, text)| == size
      && (k < front ==> Layout(s, text)[k] == 0x20)
      && (front <= k < front + (m - n) ==> Layout(s, text)[k] == s.pad)
      && (front + (m - n) <= k < front + m ==> Layout(s, text)[k] == text[k - front - (m - n)])
      && (front + m <= k < size ==> Layout(s, text)[k] == 0x20)
  {
  }

  // ---------- whole formats ----------

  /** The settings of a directive without flags. */
  const PLAIN: Settings := Settings(0xFFFF_FFFF_FFFF_FFFF, 0, false, 0x20, true, false, false)

  /** `%d` alone, for every 32-bit number. */
  lemma PrintDecimal(x: int, bits: nat)
    requires -0x8000_0000 <= x < 0x8000_0000 && bits % 0x1_0000_0000 == x % 0x1_0000_0000
    ensures Rendering([0x25, 0x64], [Number(bits)]) == Some(SignedText(false, x))
  {
    hide SignedText, RenderItem, ParseDirective, RenderFrom, Show, Layout;
    var fmt, args := [0x25, 0x64], [Number(bits)];
    Decimal(PLAIN, fmt, 1, args, x);
    DecimalFits(false, x);
    PlainLayout(PLAIN, SignedText(false, x));
    assert args[1..] == [];
    OneDirective(fmt, args, Item(SignedText(false, x), 2, []));
    DecimalWithoutLineFeed(x);
    NoLineFeed(SignedText(false, x));
  }

  /** Without widths, the layout is the text. */
  lemma PlainLayout(s: Settings, text: seq<Char16>)
    requires s.fieldWidth == 0xFFFF_FFFF_FFFF_FFFF && s.width == 0 && |text| < 0xFFFF_FFFF_FFFF_FFFF
    ensures Layout(s, text) == text
  {
  }

  lemma DecimalWithoutLineFeed(x: int)
    ensures 0x0A !in SignedText(false, x)
  {
  }

  function Spaces(n: int): seq<Char16> {
    seq(if n < 0 then 0 else n, _ => 0x20)
  }

  /** `%5d`, for every width of one digit, and `%05d`: the number is moved to the right, by spaces or by
    * zeros. */
  lemma PrintWidth(w: nat, zeros: bool, x: int, bits: nat)
    requires 1 <= w <= 9 && -0x8000_0000 <= x < 0x8000_0000 && bits % 0x1_0000_0000 == x % 0x1_0000_0000
    ensures var text := SignedText(false, x);
      Rendering([0x25] + (if zeros then [0x30] else []) + [0x30 + w, 0x64], [Number(bits)])
      == Some((if w > |text| then seq(w - |text|, _ => if zeros then 0x30 else 0x20) else []) + text)
  {
    hide SignedText, RenderItem, ParseDirective, RenderFrom, Show, Layout, AllDigits, NumberOf;
    var fmt, args := [0x25] + (if zeros then [0x30] else []) + [0x30 + w, 0x64], [Number(bits)];
    var i := if zeros then 2 else 1;
    var s := PLAIN.(pad := if zeros then 0x30 else 0x20);
    if zeros {
      Flags(PLAIN, fmt, 1, args);
    }
    OneDigit(fmt, i, w);
    WidthDigits(s, fmt, i, i + 1, args);
    Decimal(s.(width := w), fmt, i + 1, args, x);
    var text := SignedText(false, x);
    DecimalFits(false, x);
    WidthLayout(s.(width := w), text);
    var whole := (if w > |text| then seq(w - |text|, _ => s.pad) else []) + text;
    assert args[1..] == [];
    OneDirective(fmt, args, Item(whole, |fmt|, []));
    DecimalWithoutLineFeed(x);
    NoLineFeed(whole);
  }

  lemma OneDigit(fmt: seq<Char16>, i: nat, w: nat)
    requires i < |fmt| && 1 <= w <= 9 && fmt[i] == 0x30 + w
    ensures AllDigits(fmt[i..i + 1], 10) && NumberOf(fmt[i..i + 1], 10) == w
  {
    assert fmt[i..i + 1] == [fmt[i]] && [fmt[i]][..0] == [];
  }

  lemma WidthLayout(s: Settings, text: seq<Char16>)
    requires s.fieldWidth == 0xFFFF_FFFF_FFFF_FFFF && |text| < 0xFFFF_FFFF_FFFF_FFFF
    ensures Layout(s, text) == (if s.width > |text| then seq(s.width - |text|, _ => s.pad) else []) + text
  {
  }

  /** `%.5s`, for every field width of one digit, and `%-.5s`: the string is cut off at the field, or moved
    * to its right or to its left. */
  lemma PrintField(w: nat, minus: bool, t: CText)
    requires 1 <= w <= 9
    ensures var shown := if w < |t| then t[..w] else t;
      Rendering([0x25] + (if minus then [0x2D] else []) + [0x2E, 0x30 + w, 0x73], [WidePtr(Some(t))])
      == Some(CrLf(if minus then shown + Spaces(w - |shown|) else Spaces(w - |shown|) + shown))
  {
    hide RenderItem, ParseDirective, RenderFrom, Show, Layout, AllDigits, NumberOf, CrLf;
    var fmt, args := [0x25] + (if minus then [0x2D] else []) + [0x2E, 0x30 + w, 0x73], [WidePtr(Some(t))];
    var i := if minus then 2 else 1;
    var s := PLAIN.(padBefore := !minus);
    if minus {
      Flags(PLAIN, fmt, 1, args);
    }
    Flags(s, fmt, i, args);
    s := s.(toField := true);
    OneDigit(fmt, i + 1, w);
    WidthDigits(s, fmt, i + 1, i + 2, args);
    Strings(s.(fieldWidth := w), fmt, i + 2, args);
    FieldLayout(s.(fieldWidth := w), t);
    var shown := if w < |t| then t[..w] else t;
    assert args[1..] == [];
    var text := if minus then shown + Spaces(w - |shown|) else Spaces(w - |shown|) + shown;
    OneDirective(fmt, args, Item(text, |fmt|, []));
  }

  lemma FieldLayout(s: Settings, text: seq<Char16>)
    requires s.fieldWidth < 10 && s.width == 0
    ensures var shown := if s.fieldWidth < |text| then text[..s.fieldWidth] else text;
            Layout(s, text) == if s.padBefore then Spaces(s.fieldWidth - |shown|) + shown
                               else shown + Spaces(s.fieldWidth - |shown|)
  {
    assert [] + Shown(s, text) == Shown(s, text);
  }
}
