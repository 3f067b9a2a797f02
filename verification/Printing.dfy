/** The printing engine of `print.c`: characters go through a small buffer, which is flushed into a
  * console, a bounded string or a growing string. */
module Printing {
  import opened Options
  import opened Words
  import opened Digits
  import opened Format

  const PRINT_STRING_LEN: nat := 200

  /** The function that `ps->Output` points to: a console, `_SPrint`, or `_PoolPrint`. */
  datatype Kind = Console | SPrint | PoolPrint

  function Min(a: nat, b: nat): (r: nat)
    ensures r <= a && r <= b && (r == a || r == b)
  {
    if a < b then a else b
  }

  method StrLen(b: seq<Char16>, ghost text: seq<Char16>) returns (len: nat)
    requires Text(b, text) && 0 !in text
    ensures len == |text|
  {
    len := 0;
    ReadCell(b, text, 0);
    while b[len] != 0
      invariant len <= |text| && len < |b| && (b[len] == 0 <==> len == |text|)
      decreases |text| - len
    {
      ReadCell(b, text, len + 1);
      len := len + 1;
    }
  }

  class Target {
    const kind: Kind
    var console: seq<Char16>
    var str: array?<Char16>
    var len: nat
    var maxlen: nat
    /** All the text that was ever delivered, and what came since an allocation last failed. */
    ghost var received: seq<Char16>
    ghost var kept: seq<Char16>
    ghost var failures: nat
    ghost var fed: bool
    /** What a bounded string held before anything was printed into it. */
    ghost var origin: seq<Char16>
    /** A bounded string that is not bounded enough: the code has written behind it. */
    ghost var overrun: bool

    ghost function Repr(): set<object>
      reads this
    {
      if str == null then {this} else {this, str}
    }

    ghost predicate Valid()
      reads this, Repr()
    {
      match kind
      case Console => console == received
      case SPrint =>
        && str != null && len == Min(|received|, maxlen)
        && (overrun <==> maxlen > 0 && len >= str.Length)
        && (!overrun && maxlen > 0 ==> Prefix(received))
        && (maxlen == 0 ==> str[..] == origin)
      case PoolPrint =>
        && !overrun && (failures == 0 ==> kept == received)
        && (failures == 0 && fed ==> str != null)
        && (str == null ==> len == 0 && maxlen == 0 && kept == [])
        && (str != null ==> len < maxlen == str.Length && str[..len] == kept && str[len] == 0)
    }

    /** The string holds as much of the text as its bound allows, terminated, and is as it was behind. */
    ghost predicate Prefix(text: seq<Char16>)
      requires len <= |text|
      reads this, str
    {
      && str != null && len < str.Length && |origin| == str.Length
      && str[..len] == text[..len] && (fed ==> str[len] == 0) && str[len + 1..] == origin[len + 1..]
    }

    /** A bounded string stays where it is. */
    ghost predicate SameString(str: array?<Char16>, maxlen: nat, origin: seq<Char16>)
      reads this
    {
      this.str == str && this.maxlen == maxlen && this.origin == origin
    }

    constructor OnConsole()
      ensures Valid() && fresh(Repr()) && kind == Console && received == []
    {
      kind, console, str, len, maxlen := Console, [], null, 0, 0;
      received, kept, failures, fed, origin, overrun := [], [], 0, false, [], false;
    }

    /** As `VSPrint` sets it up. */
    constructor OnString(str: array<Char16>, maxlen: nat)
      requires str.Length > 0
      ensures Valid() && kind == SPrint && received == [] && this.str == str && this.maxlen == maxlen
      ensures origin == str[..]
    {
      kind, console, len := SPrint, [], 0;
      received, kept, failures, fed, origin, overrun := [], [], 0, false, str[..], false;
      this.str, this.maxlen := str, maxlen;
    }

    /** A cleared POOL_PRINT. */
    constructor OnPool()
      ensures Valid() && fresh(Repr()) && kind == PoolPrint && received == [] && failures == 0 && str == null
    {
      kind, console, str, len, maxlen := PoolPrint, [], null, 0, 0;
      received, kept, failures, fed, origin, overrun := [], [], 0, false, [], false;
    }

    /** `_SPrint`, which truncates. What it would write behind the string is not written here. */
    method Append(buffer: seq<Char16>, ghost text: seq<Char16>)
      requires Text(buffer, text) && 0 !in text
      requires len <= maxlen && (str == null ==> maxlen == 0)
      requires overrun ==> str != null && maxlen > 0 && len >= str.Length
      modifies Repr()
      ensures str == old(str) && maxlen == old(maxlen) && console == old(console) && origin == old(origin)
      ensures received == old(received) && kept == old(kept) && failures == old(failures) && fed == old(fed)
      ensures len == Min(old(len) + |text|, maxlen)
      ensures overrun <==> str != null && maxlen > 0 && len >= str.Length
      ensures !overrun && maxlen > 0 ==>
                && str != null && str[..len] == old(str[..])[..old(len)] + text[..len - old(len)]
                && str[len] == 0 && str[len + 1..] == old(str[..])[len + 1..]
      ensures maxlen == 0 && str != null ==> str[..] == old(str[..])
    {
      var n := StrLen(buffer, text);
      if len + n > maxlen {
        n := maxlen - len;
      }
      assert buffer[..n] == text[..n];
      if maxlen > 0 {
        if len + n < str.Length {
          CopyMem(str, len, buffer[..n]);
          str[len + n] := 0;
        } else {
          overrun := true;
        }
      }
      len := len + n;
    }

    /** `ReallocatePool`: the string moves to a larger block, without its terminator, if the pool grants
      * it; if not, it is lost. */
    method Grow(newlen: nat)
      requires Valid() && kind == PoolPrint && newlen > maxlen && newlen > len
      modifies Repr()
      ensures fresh(Repr() - old(Repr())) && received == old(received) && fed == old(fed) && overrun == old(overrun)
      ensures str != null ==>
                && failures == old(failures) && kept == old(kept) && len == old(len)
                && len < maxlen == str.Length == newlen && str[..len] == kept
      ensures str == null ==> failures == old(failures) + 1 && kept == [] && len == maxlen == 0
    {
      maxlen := newlen;
      var inPool: bool := *;
      if inPool {
        var bigger := new Char16[newlen];
        if str != null {
          CopyMem(bigger, 0, str[..len]);
        }
        assert bigger[..len] == kept;
        str := bigger;
      } else {
        str := null;
        len := 0;
        maxlen := 0;
        failures := failures + 1;
        kept := [];
      }
    }

    /** `_PoolPrint` */
    method AppendGrowing(buffer: seq<Char16>, ghost text: seq<Char16>)
      requires Valid() && kind == PoolPrint && Text(buffer, text) && 0 !in text
      modifies Repr()
      ensures Valid() && fresh(Repr() - old(Repr()))
      ensures received == old(received) + text && fed == old(fed)
      ensures || (failures == old(failures) && kept == old(kept) + text)
              || (failures == old(failures) + 1 && kept == [])
      ensures failures == 0 ==> str != null
    {
      hide Text;
      var n := StrLen(buffer, text);
      var newlen := len + n + 1;
      if newlen > maxlen {
        newlen := newlen + PRINT_STRING_LEN;
        Grow(newlen);
      }
      Append(buffer, text);
      received := received + text;
      if str != null {
        kept := kept + text;
      }
    }

    method AppendBounded(buffer: seq<Char16>, ghost text: seq<Char16>)
      requires Valid() && kind == SPrint && Text(buffer, text) && 0 !in text
      modifies Repr()
      ensures Valid() && str == old(str) && maxlen == old(maxlen) && origin == old(origin)
      ensures received == old(received) + text && fed
    {
      hide Text;
      ghost var s, n := str[..], len;
      Append(buffer, text);
      if !overrun && maxlen > 0 {
        KeptBehind(s, origin, n, len);
        Extended(s[..n], received, text, n, len);
      }
      received, fed := received + text, true;
    }

    /** The call through `ps->Output`. */
    method Output(buffer: seq<Char16>, ghost text: seq<Char16>)
      requires Valid() && Text(buffer, text) && 0 !in text
      modifies Repr()
      ensures Valid() && fresh(Repr() - old(Repr()))
      ensures received == old(received) + text && fed
      ensures kind == SPrint ==> str == old(str) && maxlen == old(maxlen) && origin == old(origin)
    {
      match kind {
        case Console =>
          var n := StrLen(buffer, text);
          console := console + buffer[..n];
          received := received + text;
        case SPrint =>
          AppendBounded(buffer, text);
        case PoolPrint =>
          AppendGrowing(buffer, text);
      }
      fed := true;
    }
  }

  lemma KeptBehind(s: seq<Char16>, origin: seq<Char16>, n: nat, m: nat)
    requires n <= m < |s| == |origin| && s[n + 1..] == origin[n + 1..]
    ensures s[m + 1..] == origin[m + 1..]
  {
    assert s[m + 1..] == s[n + 1..][m - n..] && origin[m + 1..] == origin[n + 1..][m - n..];
  }

  /** A prefix of the text so far, extended by what follows unless it has been cut off. */
  lemma Extended(s: seq<Char16>, received: seq<Char16>, text: seq<Char16>, n: nat, m: nat)
    requires n <= |received| && s == received[..n] && n <= m <= n + |text| && (n < |received| ==> m == n)
    ensures s + text[..m - n] == (received + text)[..m]
  {
  }

  /** How far `to` is beyond `from`. */
  function Excess(from: nat, to: nat): nat {
    if from < to then to - from else 0
  }

  class Printer {
    const buffer: array<Char16>
    const target: Target
    var pos: nat
    var len: nat

    ghost predicate Valid()
      reads this, buffer, target, target.Repr()
    {
      && buffer.Length == PRINT_STRING_LEN
      && pos < PRINT_STRING_LEN - 1
      && buffer !in target.Repr() && (this as object) !in target.Repr()
      && 0 !in buffer[..pos]
      && target.Valid()
    }

    /** Everything that was printed, whether flushed or still in the buffer. */
    ghost function Sent(): seq<Char16>
      requires pos <= buffer.Length
      reads this, buffer, target
    {
      target.received + buffer[..pos]
    }

    constructor (target: Target)
      requires target.Valid()
      ensures Valid() && fresh(this) && fresh(buffer) && this.target == target
      ensures pos == 0 && len == 0
    {
      this.target := target;
      buffer := new Char16[PRINT_STRING_LEN];
      pos, len := 0, 0;
    }

    /** `PFLUSH` */
    method Flush()
      requires buffer.Length == PRINT_STRING_LEN && pos < PRINT_STRING_LEN
      requires buffer !in target.Repr() && (this as object) !in target.Repr() && 0 !in buffer[..pos] && target.Valid()
      modifies this`pos, buffer, target.Repr()
      ensures Valid() && fresh(target.Repr() - old(target.Repr()))
      ensures pos == 0 && target.received == old(Sent()) && target.fed
      ensures target.kind == SPrint ==> target.SameString(old(target.str), old(target.maxlen), old(target.origin))
    {
      ghost var text := buffer[..pos];
      buffer[pos] := 0;
      assert buffer[..pos] == text;
      target.Output(buffer[..], text);
      pos := 0;
    }

    /** The body of `PPUTC`: store the character, and flush a full buffer. */
    method Store(c: Char16)
      requires Valid() && c != 0
      modifies this, buffer, target.Repr()
      ensures Valid() && fresh(target.Repr() - old(target.Repr()))
      ensures Sent() == old(Sent()) + [c] && len == old(len) + 1
      ensures target.kind == SPrint ==> target.SameString(old(target.str), old(target.maxlen), old(target.origin))
    {
      ghost var text := buffer[..pos];
      buffer[pos] := c;
      pos := pos + 1;
      assert buffer[..pos] == text + [c];
      len := len + 1;
      if pos >= PRINT_STRING_LEN - 1 {
        Flush();
      }
    }

    /** `PPUTC` */
    method PutChar(c: Char16)
      requires Valid() && c != 0
      modifies this, buffer, target.Repr()
      ensures Valid() && fresh(target.Repr() - old(target.Repr()))
      ensures Sent() == old(Sent()) + CrLf([c]) && len == old(len) + |CrLf([c])|
      ensures target.kind == SPrint ==> target.SameString(old(target.str), old(target.maxlen), old(target.origin))
      decreases if c == LF then 1 else 0
    {
      OneChar(CR);
      OneChar(c);
      hide CrLf;
      if c == LF {
        PutChar(CR);
      }
      Store(c);
    }

    /** A padding loop. */
    method PutRepeated(c: Char16, from: nat, to: nat)
      requires Valid() && c != 0
      modifies this, buffer, target.Repr()
      ensures Valid() && fresh(target.Repr() - old(target.Repr()))
      ensures var text := Repeat(c, Excess(from, to));
              Sent() == old(Sent()) + CrLf(text) && len == old(len) + |CrLf(text)|
      ensures target.kind == SPrint ==> target.SameString(old(target.str), old(target.maxlen), old(target.origin))
    {
      hide CrLf;
      NothingMore(old(Sent()));
      var i := from;
      while i < to
        invariant from <= i && (i <= to || i == from)
        invariant Valid() && fresh(target.Repr() - old(target.Repr()))
        invariant Sent() == old(Sent()) + CrLf(Repeat(c, i - from)) && len == old(len) + |CrLf(Repeat(c, i - from))|
        invariant target.kind == SPrint ==> target.SameString(old(target.str), old(target.maxlen), old(target.origin))
      {
        RepeatStep(c, i - from);
        OneMore(old(Sent()), Repeat(c, i - from), [c]);
        PutChar(c);
        i := i + 1;
      }
    }

    /** The loop of `PITEM` that adds the first `n` characters of the item. */
    method PutText(text: seq<Char16>, n: nat)
      requires Valid() && n <= |text| && 0 !in text
      modifies this, buffer, target.Repr()
      ensures Valid() && fresh(target.Repr() - old(target.Repr()))
      ensures Sent() == old(Sent()) + CrLf(text[..n]) && len == old(len) + |CrLf(text[..n])|
      ensures target.kind == SPrint ==> target.SameString(old(target.str), old(target.maxlen), old(target.origin))
    {
      hide CrLf;
      NothingMore(old(Sent()));
      assert text[..0] == [];
      var index := 0;
      while index < n
        invariant index <= n
        invariant Valid() && fresh(target.Repr() - old(target.Repr()))
        invariant Sent() == old(Sent()) + CrLf(text[..index]) && len == old(len) + |CrLf(text[..index])|
        invariant target.kind == SPrint ==> target.SameString(old(target.str), old(target.maxlen), old(target.origin))
      {
        assert text[index] in text && text[..index + 1] == text[..index] + [text[index]];
        OneMore(old(Sent()), text[..index], [text[index]]);
        PutChar(text[index]);
        index := index + 1;
      }
    }

    /** `PITEM`, for an item with this text. */
    method PutItem(s: Settings, text: seq<Char16>)
      requires Valid() && 0 !in text && s.pad != 0
      modifies this, buffer, target.Repr()
      ensures Valid() && fresh(target.Repr() - old(target.Repr()))
      ensures Sent() == old(Sent()) + CrLf(Layout(s, text)) && len == old(len) + |CrLf(Layout(s, text))|
      ensures target.kind == SPrint ==> target.SameString(old(target.str), old(target.maxlen), old(target.origin))
    {
      hide CrLf;
      var n := 0;
      while n < s.fieldWidth
        invariant n <= |text| && n <= s.fieldWidth
        decreases |text| - n
      {
        if n == |text| {
          break;
        }
        n := n + 1;
      }
      var fieldWidth := if s.fieldWidth == NO_FIELD then n else s.fieldWidth;
      var width := if n > s.width then n else s.width;
      assert text[..n] == Shown(s, text);
      LayoutParts(s, text);
      if s.padBefore {
        PutRightJustified(s.pad, text, n, width, fieldWidth);
      } else {
        PutLeftJustified(s.pad, text, n, width, fieldWidth);
      }
    }

    method PutRightJustified(pad: Char16, text: seq<Char16>, n: nat, width: nat, fieldWidth: nat)
      requires Valid() && 0 !in text && pad != 0 && n <= |text| && n <= width
      modifies this, buffer, target.Repr()
      ensures Valid() && fresh(target.Repr() - old(target.Repr()))
      ensures var all := Repeat(SPACE, Excess(width, fieldWidth)) + Repeat(pad, width - n) + text[..n];
              Sent() == old(Sent()) + CrLf(all) && len == old(len) + |CrLf(all)|
      ensures target.kind == SPrint ==> target.SameString(old(target.str), old(target.maxlen), old(target.origin))
    {
      hide CrLf, Repeat;
      ghost var start, spaces, pads := Sent(), Repeat(SPACE, Excess(width, fieldWidth)), Repeat(pad, width - n);
      PutRepeated(SPACE, width, fieldWidth);
      PutRepeated(pad, n, width);
      PutText(text, n);
      OneMore(start, spaces, pads);
      OneMore(start, spaces + pads, text[..n]);
    }

    method PutLeftJustified(pad: Char16, text: seq<Char16>, n: nat, width: nat, fieldWidth: nat)
      requires Valid() && 0 !in text && pad != 0 && n <= |text| && n <= width
      modifies this, buffer, target.Repr()
      ensures Valid() && fresh(target.Repr() - old(target.Repr()))
      ensures var all := Repeat(pad, width - n) + text[..n] + Repeat(SPACE, Excess(width, fieldWidth));
              Sent() == old(Sent()) + CrLf(all) && len == old(len) + |CrLf(all)|
      ensures target.kind == SPrint ==> target.SameString(old(target.str), old(target.maxlen), old(target.origin))
    {
      hide CrLf, Repeat;
      ghost var start, spaces, pads := Sent(), Repeat(SPACE, Excess(width, fieldWidth)), Repeat(pad, width - n);
      PutRepeated(pad, n, width);
      PutText(text, n);
      PutRepeated(SPACE, width, fieldWidth);
      OneMore(start, pads, text[..n]);
      OneMore(start, pads + text[..n], spaces);
    }

    /** The conversion of one argument into the scratch buffer or a string. */
    method ItemOf(s: Settings, conv: Char16, args: seq<Arg>) returns (text: seq<Char16>)
      requires ItemText(s, conv, args).Some?
      ensures Some(text) == ItemText(s, conv, args) && 0 !in text
    {
      hide NumText, SignedText;
      if conv == PERCENT {
        return [PERCENT];
      }
      if !Takes(conv) {
        return [QUESTION];
      }
      if conv == LOWER_A || conv == LOWER_S {
        return StringText(args[0].text);
      }
      var bits := args[0].bits;
      if conv == LOWER_C {
        return if bits % 0x1_0000 == 0 then [] else [bits % 0x1_0000];
      }
      var scratch := new Char16[100];
      ghost var spec: seq<Char16>;
      if conv == UPPER_X || conv == LOWER_X {
        HexFits(Unsigned(bits, s.long));
        ValueToHex(scratch, Unsigned(bits, s.long));
        spec := NumText(Unsigned(bits, s.long), 16);
        NumberReadBack(Unsigned(bits, s.long), 16);
      } else {
        DecimalRange(conv, bits, s.long);
        DecimalFits(s.comma, DecimalOf(conv, bits, s.long));
        ValueToString(scratch, s.comma, DecimalOf(conv, bits, s.long));
        spec := SignedText(s.comma, DecimalOf(conv, bits, s.long));
        SignedTextNoNul(s.comma, DecimalOf(conv, bits, s.long));
      }
      var n := StrLen(scratch[..], spec);
      text := scratch[..n];
    }

    /** The inner loop of `_Print`: one directive, from after its percent sign. */
    method PrintDirective(fb: seq<Char16>, index: nat, args: seq<Arg>, ghost fmt: seq<Char16>, ghost item: Item)
      returns (next: nat, rest: seq<Arg>)
      requires Valid() && Text(fb, fmt) && 0 !in fmt && index <= |fmt|
      requires RenderItem(DEFAULT, ParseDirective(fmt, index), args) == Some(item)
      modifies this, buffer, target.Repr()
      ensures Valid() && fresh(target.Repr() - old(target.Repr()))
      ensures next == item.next && rest == item.rest
      ensures Sent() == old(Sent()) + CrLf(item.text) && len == old(len) + |CrLf(item.text)|
      ensures target.kind == SPrint ==> target.SameString(old(target.str), old(target.maxlen), old(target.origin))
    {
      var conv, s;
      conv, s, next, rest := ReadFlags(fb, index, args, fmt, item);
      var text := ItemOf(s, conv, rest);
      PadKept(s, conv);
      PutItem(Settle(s, conv), text);
      if Takes(conv) {
        rest := rest[1..];
      }
    }

    /** One pass of the outer loop of `_Print`: a plain character or a directive. `done` is what has
      * been rendered so far of the whole, and `sent` what the target had before. */
    method Advance(fb: seq<Char16>, index: nat, args: seq<Arg>,
                   ghost fmt: seq<Char16>, ghost whole: Option<seq<Char16>>,
                   ghost done: seq<Char16>, ghost sent: seq<Char16>)
      returns (next: nat, rest: seq<Arg>, ghost done': seq<Char16>)
      requires Valid() && Text(fb, fmt) && 0 !in fmt && index < |fmt|
      requires whole.Some? && Before(done, RenderFrom(fmt, index, args)) == whole
      requires Sent() == sent + CrLf(done) && len == |CrLf(done)|
      modifies this, buffer, target.Repr()
      ensures Valid() && fresh(target.Repr() - old(target.Repr()))
      ensures index < next <= |fmt| && Before(done', RenderFrom(fmt, next, rest)) == whole
      ensures Sent() == sent + CrLf(done') && len == |CrLf(done')|
      ensures target.kind == SPrint ==> target.SameString(old(target.str), old(target.maxlen), old(target.origin))
    {
      hide Text, RenderFrom, RenderItem, CrLf, Before;
      ReadCell(fb, fmt, index);
      var c := fb[index];
      if c != PERCENT {
        RenderPlain(fmt, index, args, done, whole);
        OneMore(sent, done, [c]);
        PutChar(c);
        next, rest, done' := index + 1, args, done + [c];
      } else {
        ghost var item := RenderDirective(fmt, index, args, done, whole);
        OneMore(sent, done, item.text);
        next, rest := PrintDirective(fb, index + 1, args, fmt, item);
        done' := done + item.text;
      }
    }

    /** The flag cases of that loop, up to the conversion character. */
    method ReadFlags(fb: seq<Char16>, index: nat, args: seq<Arg>, ghost fmt: seq<Char16>, ghost item: Item)
      returns (conv: Char16, s: Settings, next: nat, rest: seq<Arg>)
      requires Text(fb, fmt) && 0 !in fmt && index <= |fmt|
      requires RenderItem(DEFAULT, ParseDirective(fmt, index), args) == Some(item)
      ensures Convert(s, conv, next, rest) == Some(item) && s.pad != 0
    {
      hide Convert, LeadingDigits, Value, Text;
      s, rest, next := DEFAULT, args, index;
      while true
        invariant next <= |fmt| && s.pad != 0
        invariant RenderItem(s, ParseDirective(fmt, next), rest) == Some(item)
        decreases |fmt| - next
      {
        ReadCell(fb, fmt, next);
        conv := fb[next];
        if FlagOf(conv).Some? {
          RenderWith(s, FlagOf(conv).value, ParseDirective(fmt, next + 1), rest);
          next := next + 1;
          match FlagOf(conv).value {
            case ZeroPad => s := s.(pad := ZERO);
            case LeftJustify => s := s.(padBefore := false);
            case Commas => s := s.(comma := true);
            case FieldNext => s := s.(toField := true);
            case Long => s := s.(long := true);
            case WidthArg =>
              s := SetWidth(s, rest[0].bits % W64);
              rest := rest[1..];
          }
        } else if DigitOf(conv, 10) >= 0 {
          LeadingFits(fmt[next..]);
          ghost var digits := LeadingDigits(fmt[next..], 10);
          RenderWith(s, WidthIs(Value(digits, 10) % W64), ParseDirective(fmt, next + |digits|), rest);
          var n;
          n, next := ReadDigits(fb, next, 10, fmt);
          s := SetWidth(s, n);
        } else {
          next := next + 1;
          return;
        }
      }
    }
  }

  lemma DecimalRange(conv: Char16, bits: nat, long: bool)
    ensures -(INT64_LIMIT as int) <= DecimalOf(conv, bits, long) < INT64_LIMIT
    ensures Unsigned(bits, long) < W64
  {
  }

  lemma PadKept(s: Settings, conv: Char16)
    requires s.pad != 0
    ensures Settle(s, conv).pad != 0
  {
  }

  /** The layout as the loops produce it. */
  lemma LayoutParts(s: Settings, text: seq<Char16>)
    ensures var shown, n := Shown(s, text), |Shown(s, text)|;
      var width, field := Max(s.width, n), if s.fieldWidth == NO_FIELD then n else s.fieldWidth;
      var spaces, pads := Repeat(SPACE, Excess(width, field)), Repeat(s.pad, width - n);
      Layout(s, text) == if s.padBefore then spaces + pads + shown else pads + shown + spaces
  {
    var spaces, p := Repeat(SPACE, FieldSpaces(s, text)), Padded(s, text);
    hide Repeat;
  }

  lemma NothingMore(sent: seq<Char16>)
    ensures sent + CrLf([]) == sent && |CrLf([])| == 0
    ensures forall c: Char16 :: Repeat(c, 0) == []
  {
  }

  lemma RepeatStep(c: Char16, n: nat)
    ensures Repeat(c, n + 1) == Repeat(c, n) + [c]
  {
  }

  lemma OneMore(sent: seq<Char16>, a: seq<Char16>, b: seq<Char16>)
    ensures sent + CrLf(a) + CrLf(b) == sent + CrLf(a + b)
    ensures |CrLf(a + b)| == |CrLf(a)| + |CrLf(b)|
  {
    CrLfAppend(a, b);
    hide CrLf;
    assert sent + CrLf(a) + CrLf(b) == sent + (CrLf(a) + CrLf(b));
  }

  lemma OneChar(c: Char16)
    ensures CrLf([c]) == if c == LF then [CR, LF] else [c]
  {
    assert CrLf([c][1..]) == [];
  }

  lemma RenderPlain(fmt: seq<Char16>, i: nat, args: seq<Arg>, done: seq<Char16>, whole: Option<seq<Char16>>)
    requires i < |fmt| && fmt[i] != PERCENT && whole.Some?
    requires Before(done, RenderFrom(fmt, i, args)) == whole
    ensures Before(done + [fmt[i]], RenderFrom(fmt, i + 1, args)) == whole
  {
    Rejoin(done, [fmt[i]], RenderFrom(fmt, i + 1, args));
  }

  lemma RenderDirective(fmt: seq<Char16>, i: nat, args: seq<Arg>, done: seq<Char16>, whole: Option<seq<Char16>>)
    returns (item: Item)
    requires i < |fmt| && fmt[i] == PERCENT && whole.Some?
    requires Before(done, RenderFrom(fmt, i, args)) == whole
    ensures RenderItem(DEFAULT, ParseDirective(fmt, i + 1), args) == Some(item)
    ensures i < item.next <= |fmt|
    ensures Before(done + item.text, RenderFrom(fmt, item.next, item.rest)) == whole
  {
    NextInside(fmt, i + 1);
    item := RenderItem(DEFAULT, ParseDirective(fmt, i + 1), args).value;
    hide ParseDirective, ApplyFlags, ItemText, Layout, Settle;
    Rejoin(done, item.text, RenderFrom(fmt, item.next, item.rest));
  }

  lemma Rejoin(a: seq<Char16>, b: seq<Char16>, rest: Option<seq<Char16>>)
    ensures Before(a, Before(b, rest)) == Before(a + b, rest)
  {
    if rest.Some? {
      assert a + (b + rest.value) == a + b + rest.value;
    }
  }

  /** `_Print`: everything that is delivered, joined together, is the rendering, however it was cut
    * into flushes; the result is its length. */
  method Print(target: Target, fb: seq<Char16>, args: seq<Arg>, ghost fmt: seq<Char16>) returns (len: nat)
    requires target.Valid() && Text(fb, fmt) && 0 !in fmt && Rendering(fmt, args).Some?
    modifies target.Repr()
    ensures target.Valid() && fresh(target.Repr() - old(target.Repr()))
    ensures target.received == old(target.received) + Rendering(fmt, args).value && target.fed
    ensures len == |Rendering(fmt, args).value|
    ensures target.kind == SPrint ==> target.SameString(old(target.str), old(target.maxlen), old(target.origin))
  {
    ghost var sent, whole, done := target.received, RenderFrom(fmt, 0, args), [];
    NothingMore(sent);
    RenderEnds(fmt, whole, []);
    hide Text, RenderFrom, RenderItem, CrLf, Before;
    var ps := new Printer(target);
    var index, rest := 0, args;
    ReadCell(fb, fmt, 0);
    assert ps.buffer[..0] == [];
    while fb[index] != 0
      invariant index <= |fmt| && index < |fb| && (fb[index] == 0 <==> index == |fmt|)
      invariant ps.Valid() && ps.target == target && fresh(ps) && fresh(ps.buffer)
      invariant fresh(target.Repr() - old(target.Repr()))
      invariant Before(done, RenderFrom(fmt, index, rest)) == whole
      invariant ps.Sent() == sent + CrLf(done) && ps.len == |CrLf(done)|
      invariant target.kind == SPrint ==> target.SameString(old(target.str), old(target.maxlen), old(target.origin))
      decreases |fmt| - index
    {
      index, rest, done := ps.Advance(fb, index, rest, fmt, whole, done, sent);
      ReadCell(fb, fmt, index);
    }
    RenderEnds(fmt, RenderFrom(fmt, |fmt|, rest), done);
    ps.Flush();
    len := ps.len;
  }

  lemma RenderEnds(fmt: seq<Char16>, r: Option<seq<Char16>>, done: seq<Char16>)
    ensures Before([], r) == r
    ensures forall args: seq<Arg> :: RenderFrom(fmt, |fmt|, args) == Some([])
    ensures Before(done, Some([])) == Some(done)
  {
    assert done + [] == done;
    assert r.Some? ==> [] + r.value == r.value;
  }

  /** `VSPrint`, into a string that has room for what is printed. A size without a whole character wraps
    * around to no limit at all. It keeps as much of the rendering as the limit allows, and terminates it
    * unless the limit leaves room for the terminator only. */
  method VSPrint(str: array<Char16>, strSize: nat, fb: seq<Char16>, args: seq<Arg>, ghost fmt: seq<Char16>)
    returns (len: nat)
    requires Text(fb, fmt) && 0 !in fmt && Rendering(fmt, args).Some?
    requires |Rendering(fmt, args).value| < str.Length || (2 <= strSize && strSize / 2 <= str.Length)
    modifies str
    ensures var text := Rendering(fmt, args).value;
      && len == (if strSize < 2
                 then if |text| < 0xFFFF_FFFF_FFFF_FFFF then |text| else 0xFFFF_FFFF_FFFF_FFFF
                 else if |text| < strSize / 2 - 1 then |text| else strSize / 2 - 1)
      && len < str.Length && str[..len] == text[..len]
      && (str[len] == 0 <==> strSize < 2 || strSize >= 4 || old(str[0]) == 0)
      && str[len + 1..] == old(str[..])[len + 1..]
      && (2 <= strSize < 4 ==> str[..] == old(str[..]))
  {
    hide Rendering, Text;
    var maxlen := if strSize < 2 then W64 - 1 else strSize / 2 - 1;
    var spc := new Target.OnString(str, maxlen);
    var n := Print(spc, fb, args, fmt);
    len := spc.len;
    assert [] + Rendering(fmt, args).value == Rendering(fmt, args).value;
  }

  /** `_IPrint` on a console, without a cursor position. */
  method IPrint(out: Target, fb: seq<Char16>, args: seq<Arg>, ghost fmt: seq<Char16>) returns (len: nat)
    requires out.Valid() && out.kind == Console
    requires Text(fb, fmt) && 0 !in fmt && Rendering(fmt, args).Some?
    modifies out.Repr()
    ensures out.Valid() && fresh(out.Repr() - old(out.Repr()))
    ensures out.console == old(out.console) + Rendering(fmt, args).value && len == |Rendering(fmt, args).value|
  {
    hide Rendering, Text;
    len := Print(out, fb, args, fmt);
  }

  /** `CatPrint` on a POOL_PRINT. As long as no allocation has failed, the string holds everything that
    * was printed into it, without truncation, and is terminated. */
  method CatPrint(str: Target, fb: seq<Char16>, args: seq<Arg>, ghost fmt: seq<Char16>)
    requires str.Valid() && str.kind == PoolPrint
    requires Text(fb, fmt) && 0 !in fmt && Rendering(fmt, args).Some?
    modifies str.Repr()
    ensures str.Valid() && fresh(str.Repr() - old(str.Repr()))
    ensures str.received == old(str.received) + Rendering(fmt, args).value && str.fed
    ensures str.failures == 0 ==>
              && str.str != null && str.len < str.maxlen
              && str.str[..str.len] == str.received && str.str[str.len] == 0
  {
    var _ := Print(str, fb, args, fmt);
  }

  datatype Call = Call(buffer: seq<Char16>, args: seq<Arg>, fmt: seq<Char16>)

  ghost function Renderings(calls: seq<Call>): seq<Char16>
    requires forall c <- calls :: Rendering(c.fmt, c.args).Some?
  {
    if calls == [] then []
    else Renderings(calls[..|calls| - 1]) + Rendering(calls[|calls| - 1].fmt, calls[|calls| - 1].args).value
  }

  /** Any number of `CatPrint` calls into a cleared POOL_PRINT. */
  method CatPrintAll(calls: seq<Call>) returns (str: Target)
    requires forall c <- calls :: Text(c.buffer, c.fmt) && 0 !in c.fmt && Rendering(c.fmt, c.args).Some?
    ensures fresh(str) && str.Valid() && str.kind == PoolPrint
    ensures str.received == Renderings(calls)
    ensures calls != [] && str.failures == 0 ==>
              && str.str != null && str.len < str.maxlen
              && str.str[..str.len] == Renderings(calls) && str.str[str.len] == 0
  {
    hide Rendering, Text;
    str := new Target.OnPool();
    var i := 0;
    while i < |calls|
      invariant i <= |calls| && str.Valid() && fresh(str.Repr()) && str.kind == PoolPrint
      invariant str.received == Renderings(calls[..i]) && (i > 0 ==> str.fed)
    {
      assert calls[..i + 1][..i] == calls[..i];
      CatPrint(str, calls[i].buffer, calls[i].args, calls[i].fmt);
      i := i + 1;
    }
    assert calls[..i] == calls;
  }
}
