/** kernel/stdio.c, formatting part: vsnprintf_internal and snprintf. The variadic
    arguments, which the C code walks with pointer-arithmetic va_arg macros, are a sequence
    of values: a 32-bit word (an int, an unsigned int or a char promoted to int) or a string
    pointer. What the formatter writes is the function Render; the loop in
    VsnprintfInternal is proved to write exactly that. */
module KFormat {
  import opened CTypes
  import opened CStrings
  import KStdio

  const PERCENT: Byte := 0x25     // '%'
  const CONV_D: Byte := 0x64      // 'd'
  const CONV_I: Byte := 0x69      // 'i'
  const CONV_U: Byte := 0x75      // 'u'
  const CONV_X: Byte := 0x78      // 'x'
  const CONV_UPPER_X: Byte := 0x58 // 'X'
  const CONV_S: Byte := 0x73      // 's'
  const CONV_C: Byte := 0x63      // 'c'
  const LOWER_F: Byte := 0x66     // 'f'
  const UPPER_A: Byte := 0x41     // 'A'
  /** The size of the local buffer num_str each numeric conversion formats into. */
  const NUM_STR_SIZE: nat := 32

  /** One variadic argument. */
  datatype Arg = Word(w: U32) | Text(s: Option<seq<Byte>>)

  /** "(null)", printed for a NULL %s argument. */
  function NullText(): seq<Byte>
  {
    Ascii("(null)")
  }

  /** %X: 'a'..'f' become 'A'..'F', everything else is kept. */
  function UpperHex(s: seq<Byte>): (r: seq<Byte>)
    ensures |r| == |s|
  {
    if s == [] then [] else [UpperHexByte(s[0])] + UpperHex(s[1..])
  }

  function UpperHexByte(c: Byte): Byte
  {
    if LOWER_A <= c <= LOWER_F then c - LOWER_A + UPPER_A else c
  }

  /** The conversions that format into num_str or copy a string, each dropped whole when
      it does not fit. */
  predicate IsTextConversion(c: Byte)
  {
    c == CONV_D || c == CONV_I || c == CONV_U || c == CONV_X || c == CONV_UPPER_X || c == CONV_S
  }

  /** The text a conversion produces for its argument; None where C leaves the behaviour
      undefined (an argument of the wrong kind, INT_MIN for %d, whose negation overflows,
      or a string with no terminator). */
  function ConversionText(c: Byte, arg: Arg): Option<seq<Byte>>
    requires IsTextConversion(c)
  {
    match arg
    case Word(w) =>
      if c == CONV_D || c == CONV_I then
        if ToInt32(w) == -I32_LIMIT then None else Some(SignedText(ToInt32(w), 10))
      else if c == CONV_U then Some(Digits(w, 10))
      else if c == CONV_X then Some(Digits(w, 16))
      else if c == CONV_UPPER_X then Some(UpperHex(Digits(w, 16)))
      else None
    case Text(p) =>
      if c != CONV_S then None
      else if p.None? then Some(NullText())
      else if NUL in p.value then Some(Str(p.value))
      else None
  }

  /** The effect of the directive '%' c on the unused arguments and the output so far;
      None where C leaves the behaviour undefined: a missing or ill-typed argument, or an
      unknown conversion whose two bytes would overrun the buffer. A text conversion that
      would reach the limit is dropped whole. */
  function Directive(c: Byte, args: seq<Arg>, limit: nat, out: seq<Byte>): Option<(seq<Arg>, seq<Byte>)>
  {
    if c == PERCENT then Some((args, out + [PERCENT]))
    else if IsTextConversion(c) then
      if args == [] then None
      else match ConversionText(c, args[0])
        case None => None
        case Some(t) => Some((args[1..], if |out| + |t| < limit then out + t else out))
    else if c == CONV_C then
      if args == [] || !args[0].Word? then None
      else Some((args[1..], out + [ToByte(args[0].w)]))
    else if |out| + 2 > limit then None
    else Some((args, out + [PERCENT, c]))
  }

  /** What the formatter writes for the rest of the format text `fmt` (the bytes before the
      format's terminator), when `out` has been written so far and at most `limit` (size - 1)
      bytes may be written; None where C leaves the outcome undefined, including a '%' that
      ends the format. */
  function Render(fmt: seq<Byte>, args: seq<Arg>, limit: nat, out: seq<Byte>): Option<seq<Byte>>
    decreases |fmt|
  {
    if fmt == [] || |out| >= limit then Some(out)
    else if fmt[0] != PERCENT then Render(fmt[1..], args, limit, out + [fmt[0]])
    else if |fmt| == 1 then None
    else match Directive(fmt[1], args, limit, out)
      case None => None
      case Some((args', out')) => Render(fmt[2..], args', limit, out')
  }

  /** The output only grows from what was written, and never passes the limit. */
  lemma {:induction false} RenderBounded(fmt: seq<Byte>, args: seq<Arg>, limit: nat, out: seq<Byte>)
    requires |out| <= limit && Render(fmt, args, limit, out).Some?
    ensures |Render(fmt, args, limit, out).value| <= limit
    ensures out <= Render(fmt, args, limit, out).value
    decreases |fmt|
  {
    if fmt == [] || |out| >= limit {
    } else if fmt[0] != PERCENT {
      RenderBounded(fmt[1..], args, limit, out + [fmt[0]]);
    } else {
      var (args', out') := Directive(fmt[1], args, limit, out).value;
      RenderBounded(fmt[2..], args', limit, out');
    }
  }

  /** A format with no conversions is copied, cut at the limit. */
  lemma {:induction false} RenderPlainText(fmt: seq<Byte>, args: seq<Arg>, limit: nat, out: seq<Byte>)
    requires PERCENT !in fmt && |out| <= limit
    ensures Render(fmt, args, limit, out) ==
      Some(out + fmt[..if |out| + |fmt| <= limit then |fmt| else limit - |out|])
    decreases |fmt|
  {
    if fmt == [] || |out| >= limit {
      var k := if |out| + |fmt| <= limit then |fmt| else limit - |out|;
      assert k == 0 && out + fmt[..k] == out;
    } else {
      assert fmt[0] != PERCENT && PERCENT !in fmt[1..];
      assert Render(fmt, args, limit, out) == Render(fmt[1..], args, limit, out + [fmt[0]]);
      RenderPlainText(fmt[1..], args, limit, out + [fmt[0]]);
      var k := if |out| + |fmt| <= limit then |fmt| else limit - |out|;
      assert k - 1 == if |out| + 1 + |fmt[1..]| <= limit then |fmt[1..]| else limit - |out| - 1;
      assert fmt[..k] == [fmt[0]] + fmt[1..][..k - 1];
      assert out + [fmt[0]] + fmt[1..][..k - 1] == out + fmt[..k];
    }
  }

  /** A conversion dropped for lack of room does not stop the formatting: a later, shorter
      one can still be written. The first conversion here is dropped whole, the second kept. */
  lemma DroppedConversionExample()
    ensures Render([PERCENT, CONV_S, PERCENT, CONV_C], [Text(Some([0x61, 0x62, 0x63, NUL])), Word(LOWER_Z)], 2, [])
      == Some([LOWER_Z])
  {
    var fmt := [PERCENT, CONV_S, PERCENT, CONV_C];
    var abc := [0x61, 0x62, 0x63];
    var args := [Text(Some(abc + [NUL])), Word(LOWER_Z)];
    assert ConversionText(CONV_S, args[0]) == Some(abc) by {
      StrOfTerminated(abc, []);
    }
    assert Render(fmt, args, 2, []) == Render(fmt[2..], args[1..], 2, []);
    assert Render(fmt[2..], args[1..], 2, []) == Some([LOWER_Z]) by {
      assert fmt[2..] == [PERCENT, CONV_C] && args[1..] == [Word(LOWER_Z)];
      var d := Directive(CONV_C, [Word(LOWER_Z)], 2, []);
      assert d.Some? && d.value.0 == [] && d.value.1 == [LOWER_Z];
    }
  }

  /** Every numeric conversion of a 32-bit word fits num_str with its terminator: at most
      11 bytes of text (a sign and 10 decimal digits). */
  lemma NumberTextFits(c: Byte, w: U32)
    requires IsTextConversion(c) && c != CONV_S
    requires ConversionText(c, Word(w)).Some?
    ensures |ConversionText(c, Word(w)).value| <= 11 < NUM_STR_SIZE
  {
    assert Pow(10, 10) == 10000000000;
    assert Pow(16, 8) == U32_LIMIT;
    if c == CONV_D || c == CONV_I {
      var v := ToInt32(w);
      DigitsLength(if v < 0 then -v else v, 10, 10);
    } else if c == CONV_U {
      DigitsLength(w, 10, 10);
    } else {
      DigitsLength(w, 16, 8);
    }
  }

  /** %X prints upper-case hexadecimal: only '0'..'9' and 'A'..'F'. */
  lemma UpperHexDigits(w: U32)
    ensures forall i :: 0 <= i < |UpperHex(Digits(w, 16))| ==> IsUpperHexDigit(UpperHex(Digits(w, 16))[i])
  {
    var s := Digits(w, 16);
    DigitsWellFormed(w, 16);
    UpperHexAt(s);
    forall i | 0 <= i < |s|
      ensures IsUpperHexDigit(UpperHex(s)[i])
    {
      UpperHexOfDigit(s[i]);
    }
  }

  predicate IsUpperHexDigit(c: Byte)
  {
    ZERO_CHAR <= c <= NINE_CHAR || UPPER_A <= c <= UPPER_A + 5
  }

  lemma UpperHexOfDigit(c: Byte)
    requires IsDigit(c, 16)
    ensures IsUpperHexDigit(UpperHexByte(c))
  {
  }

  lemma {:induction false} UpperHexAt(s: seq<Byte>)
    ensures forall i :: 0 <= i < |s| ==> UpperHex(s)[i] == UpperHexByte(s[i])
  {
    if s != [] {
      UpperHexAt(s[1..]);
    }
  }

  /** The %X loop over num_str: upper-case 'a'..'f' in place, up to the terminator. */
  method UpperHexInPlace(a: array<Byte>)
    requires NUL in a[..]
    modifies a
    ensures NUL in a[..] && Str(a[..]) == UpperHex(old(Str(a[..])))
    ensures forall k :: StrLen(old(a[..])) <= k < a.Length ==> a[k] == old(a[k])
  {
    ghost var s := a[..StrLen(a[..])];
    UpperHexAt(s);
    var i := 0;
    while a[i] != NUL
      invariant i <= |s|
      invariant forall k :: 0 <= k < i ==> a[k] == UpperHex(s)[k]
      invariant forall k :: i <= k < a.Length ==> a[k] == old(a[k])
      decreases |s| - i
    {
      if LOWER_A <= a[i] && a[i] <= LOWER_F {
        a[i] := a[i] - LOWER_A + UPPER_A;
      }
      i := i + 1;
    }
    assert a[..i] == UpperHex(s);
    assert a[i] == NUL;
    assert NUL !in UpperHex(s);
    StrOfTerminated(UpperHex(s), a[i + 1..]);
    assert a[..] == UpperHex(s) + [NUL] + a[i + 1..];
  }

  /** A numeric conversion as the C code performs it: format into a fresh 32-byte num_str
      with itoa or uitoa, upper-case it for %X, and take its text. */
  method NumberText(c: Byte, w: U32) returns (t: seq<Byte>)
    requires IsTextConversion(c) && c != CONV_S
    requires ConversionText(c, Word(w)).Some?
    ensures Some(t) == ConversionText(c, Word(w))
  {
    NumberTextFits(c, w);
    var numStr := new Byte[NUM_STR_SIZE];
    if c == CONV_D || c == CONV_I {
      var _ := KStdio.Itoa(ToInt32(w), numStr, 10);
    } else if c == CONV_U {
      var _ := KStdio.Uitoa(w, numStr, 10);
    } else {
      var _ := KStdio.Uitoa(w, numStr, 16);
      if c == CONV_UPPER_X {
        UpperHexInPlace(numStr);
      }
    }
    var len := KStdio.Strlen(numStr);
    t := numStr[..len];
  }

  /** strcpy(ptr, text) at offset `at` of str: text, then a terminator. */
  method CopyText(str: array<Byte>, at: nat, text: seq<Byte>)
    requires at + |text| < str.Length
    modifies str
    ensures str[..at] == old(str[..at])
    ensures str[at..at + |text|] == text && str[at + |text|] == NUL
    ensures forall k :: at + |text| < k < str.Length ==> str[k] == old(str[k])
  {
    var i := 0;
    while i < |text|
      invariant i <= |text|
      invariant str[..at] == old(str[..at])
      invariant forall k :: at <= k < at + i ==> str[k] == text[k - at]
      invariant forall k :: at + i <= k < str.Length ==> str[k] == old(str[k])
    {
      str[at + i] := text[i];
      i := i + 1;
    }
    str[at + i] := NUL;
  }

  /** vsnprintf_internal: format into str, at most size - 1 bytes and a terminator, and
      return the number of bytes written; 0, writing nothing, for a NULL str or format or a
      zero size. */
  method VsnprintfInternal(str: array?<Byte>, size: U32, format: array?<Byte>, args: seq<Arg>)
    returns (r: I32)
    requires format != null ==> NUL in format[..]
    requires str != null && format != null && size > 0 ==>
      str != format && size <= str.Length && Render(Str(format[..]), args, size - 1, []).Some?
    modifies str
    ensures str == null || format == null || size == 0 ==> r == 0
    ensures str != null && (format == null || size == 0) ==> str[..] == old(str[..])
    ensures str != null && format != null && size > 0 ==>
      var out := Render(Str(format[..]), args, size - 1, []).value;
      |out| < size && r == ToInt32(|out|) &&
      str[..|out| + 1] == out + [NUL] &&
      forall k :: |out| < k < str.Length ==> str[k] == old(str[k])
  {
    if str == null || format == null || size == 0 {
      return 0;
    }
    ghost var f := Str(format[..]);
    ghost var limit := size - 1;
    ghost var result := Render(f, args, limit, []).value;
    RenderBounded(f, args, limit, []);
    var fi: nat := 0;
    var ai: nat := 0;
    var written: nat := 0;
    while format[fi] != NUL && written < size - 1
      invariant fi <= |f| && ai <= |args| && written <= limit
      invariant Render(f[fi..], args[ai..], limit, str[..written]) == Some(result)
      invariant forall k :: written < k < str.Length ==> str[k] == old(str[k])
      decreases |f| - fi
    {
      fi, ai, written := FormatStep(str, size, format, f, args, fi, ai, written);
    }
    assert str[..written] == result;
    str[written] := NUL;
    r := ToInt32(written);
  }

  /** One turn of the formatting loop: a literal byte or one directive. */
  method FormatStep(str: array<Byte>, size: U32, format: array<Byte>, ghost f: seq<Byte>,
                    args: seq<Arg>, fi: nat, ai: nat, written: nat)
    returns (fi': nat, ai': nat, written': nat)
    requires str != format && size <= str.Length
    requires NUL in format[..] && f == Str(format[..])
    requires fi < |f| && ai <= |args| && written < size - 1
    requires Render(f[fi..], args[ai..], size - 1, str[..written]).Some?
    modifies str
    ensures fi < fi' <= |f| && ai' <= |args| && written <= written' <= size - 1
    ensures Render(f[fi'..], args[ai'..], size - 1, str[..written']) ==
      old(Render(f[fi..], args[ai..], size - 1, str[..written]))
    ensures forall k :: written' < k < str.Length ==> str[k] == old(str[k])
  {
    ghost var rest := f[fi..];
    ghost var out := str[..written];
    if format[fi] != PERCENT {
      assert rest[0] == format[fi] && rest[1..] == f[fi + 1..];
      str[written] := format[fi];
      assert str[..written + 1] == out + [rest[0]];
      return fi + 1, ai, written + 1;
    }
    assert rest[0] == PERCENT && |rest| >= 2;
    assert rest[1] == format[fi + 1] && rest[2..] == f[fi + 2..];
    ai', written' := FormatDirective(str, size, format[fi + 1], args, ai, written);
    fi' := fi + 2;
  }

  /** The directive '%' c: print '%' for "%%"; format a number or copy a string, dropping
      it whole when it does not fit; store a char; or print '%' and c for anything else. */
  method FormatDirective(str: array<Byte>, size: U32, c: Byte, args: seq<Arg>, ai: nat, written: nat)
    returns (ai': nat, written': nat)
    requires size <= str.Length && ai <= |args| && written < size - 1
    requires Directive(c, args[ai..], size - 1, str[..written]).Some?
    modifies str
    ensures ai' <= |args| && written <= written' <= size - 1
    ensures Directive(c, args[ai..], size - 1, old(str[..written])) == Some((args[ai'..], str[..written']))
    ensures forall k :: written' < k < str.Length ==> str[k] == old(str[k])
  {
    ghost var out := str[..written];
    if c == PERCENT {
      str[written] := PERCENT;
      assert str[..written + 1] == out + [PERCENT];
      return ai, written + 1;
    }
    if IsTextConversion(c) {
      var t := ConversionOf(c, args[ai]);
      written' := AppendWhole(str, size, t, written);
      assert args[ai..][1..] == args[ai + 1..];
      return ai + 1, written';
    }
    if c == CONV_C {
      str[written] := ToByte(args[ai].w);
      assert str[..written + 1] == out + [ToByte(args[ai].w)];
      assert args[ai..][1..] == args[ai + 1..];
      return ai + 1, written + 1;
    }
    str[written] := PERCENT;
    str[written + 1] := c;
    assert str[..written + 2] == out + [PERCENT, c];
    return ai, written + 2;
  }

  /** The text of a %d, %i, %u, %x, %X or %s conversion. */
  method ConversionOf(c: Byte, arg: Arg) returns (t: seq<Byte>)
    requires IsTextConversion(c) && ConversionText(c, arg).Some?
    ensures Some(t) == ConversionText(c, arg)
  {
    if c == CONV_S {
      t := if arg.s.None? then NullText() else Str(arg.s.value);
    } else {
      t := NumberText(c, arg.w);
    }
  }

  /** Copy t at offset `written` when it leaves room for the terminator, else write nothing. */
  method AppendWhole(str: array<Byte>, size: U32, t: seq<Byte>, written: nat) returns (written': nat)
    requires size <= str.Length && written < size - 1
    modifies str
    ensures written' == if written + |t| < size - 1 then written + |t| else written
    ensures str[..written'] == if written + |t| < size - 1 then old(str[..written]) + t else old(str[..written])
    ensures forall k :: written' < k < str.Length ==> str[k] == old(str[k])
  {
    if written + |t| < size - 1 {
      CopyText(str, written, t);
      assert str[..written + |t|] == old(str[..written]) + t;
      return written + |t|;
    }
    return written;
  }

  /** snprintf: vsnprintf_internal over the arguments that follow the format. */
  method Snprintf(str: array?<Byte>, size: U32, format: array?<Byte>, args: seq<Arg>) returns (r: I32)
    requires format != null ==> NUL in format[..]
    requires str != null && format != null && size > 0 ==>
      str != format && size <= str.Length && Render(Str(format[..]), args, size - 1, []).Some?
    modifies str
    ensures str == null || format == null || size == 0 ==> r == 0
    ensures str != null && (format == null || size == 0) ==> str[..] == old(str[..])
    ensures str != null && format != null && size > 0 ==>
      var out := Render(Str(format[..]), args, size - 1, []).value;
      |out| < size && r == ToInt32(|out|) &&
      str[..|out| + 1] == out + [NUL] &&
      forall k :: |out| < k < str.Length ==> str[k] == old(str[k])
  {
    r := VsnprintfInternal(str, size, format, args);
  }
}
