/** What the kernel's two C libraries (kernel/string.c and kernel/stdio.c) compute,
    stated once as functions over byte sequences: NUL-terminated strings, the
    comparison results, and the digit strings of the number conversions. The
    imperative code in modules KString and KStdio is proved against these. */
module CStrings {
  import opened CTypes

  const ZERO_CHAR: Byte := 0x30   // '0'
  const NINE_CHAR: Byte := 0x39   // '9'
  const LOWER_A: Byte := 0x61     // 'a'
  const LOWER_Z: Byte := 0x7A     // 'z'
  const MINUS: Byte := 0x2D       // '-'

  // ---------------------------------------------------------------------------
  // NUL-terminated strings
  // ---------------------------------------------------------------------------

  /** strlen: the number of bytes before the first NUL. */
  function StrLen(s: seq<Byte>): (n: nat)
    requires NUL in s
    ensures n < |s| && s[n] == NUL
    ensures forall i :: 0 <= i < n ==> s[i] != NUL
  {
    if s[0] == NUL then 0
    else
      assert NUL in s[1..] by {
        var k :| 0 <= k < |s| && s[k] == NUL;
        assert s[1..][k - 1] == NUL;
      }
      1 + StrLen(s[1..])
  }

  /** The text of a C string: the bytes before its terminator. */
  function Str(s: seq<Byte>): seq<Byte>
    requires NUL in s
  {
    s[..StrLen(s)]
  }

  /** The first NUL of s is at n exactly when s[n] is NUL and no byte before it is. */
  lemma StrLenAt(s: seq<Byte>, n: nat)
    requires n < |s| && s[n] == NUL
    requires forall i :: 0 <= i < n ==> s[i] != NUL
    ensures NUL in s && StrLen(s) == n
  {
    assert s[n] in s;
  }

  /** A buffer that starts with text t and a terminator holds the C string t. */
  lemma StrOfTerminated(t: seq<Byte>, rest: seq<Byte>)
    requires NUL !in t
    ensures NUL in t + [NUL] + rest
    ensures StrLen(t + [NUL] + rest) == |t| && Str(t + [NUL] + rest) == t
  {
    var s := t + [NUL] + rest;
    assert forall i :: 0 <= i < |t| ==> s[i] == t[i];
    StrLenAt(s, |t|);
    assert s[..|t|] == t;
  }

  /** A buffer that kept the text of the C string in before and then got t and a
      terminator written after that text holds the concatenation. */
  lemma Appended(after: seq<Byte>, before: seq<Byte>, l: nat, t: seq<Byte>)
    requires NUL in before && l == StrLen(before)
    requires NUL !in t && l + |t| < |after|
    requires forall k :: 0 <= k < l ==> after[k] == before[k]
    requires forall k :: 0 <= k < |t| ==> after[l + k] == t[k]
    requires after[l + |t|] == NUL
    ensures after[..l + |t| + 1] == before[..l] + t + [NUL]
    ensures NUL in after && Str(after) == Str(before) + t
  {
    var h := before[..l];
    var rest := after[l + |t| + 1..];
    assert after[..l + |t| + 1] == h + t + [NUL];
    assert after == h + t + [NUL] + rest;
    StrOfTerminated(h + t, rest);
  }

  /** A buffer that agrees with s up to and including s's terminator holds the same C string. */
  lemma StrOfPrefix(s: seq<Byte>, t: seq<Byte>)
    requires NUL in s && StrLen(s) < |t|
    requires t[..StrLen(s) + 1] == s[..StrLen(s) + 1]
    ensures NUL in t && StrLen(t) == StrLen(s) && Str(t) == Str(s)
  {
    var n := StrLen(s);
    assert forall i :: 0 <= i <= n ==> t[i] == t[..n + 1][i] == s[i];
    StrLenAt(t, n);
    assert t[..n] == s[..n];
  }

  /** The bytes strncpy and strncat take from s: at most n, stopping before a NUL
      (or at the end of the sequence). */
  function NLen(s: seq<Byte>, n: nat): (k: nat)
    ensures k <= n && k <= |s|
    ensures forall i :: 0 <= i < k ==> s[i] != NUL
    ensures k < n && k < |s| ==> s[k] == NUL
  {
    if n == 0 || s == [] || s[0] == NUL then 0 else 1 + NLen(s[1..], n - 1)
  }

  /** A scan of at most n bytes of s that stops at a NUL stays inside s. */
  predicate Scannable(s: seq<Byte>, n: nat)
  {
    NUL in s || n <= |s|
  }

  /** For a C string, NLen is strlen capped at n; and the scan stays in bounds. */
  lemma {:induction false} NLenOfString(s: seq<Byte>, n: nat)
    requires Scannable(s, n)
    ensures NLen(s, n) == n || (NLen(s, n) < |s| && s[NLen(s, n)] == NUL)
    ensures NUL in s ==> NLen(s, n) == if StrLen(s) < n then StrLen(s) else n
  {
    if NUL in s {
      var z := StrLen(s);
    }
  }

  /** What strncpy leaves in dest[0..n): the text of src (at most n bytes), then NUL padding. */
  function StrNCpy(src: seq<Byte>, n: nat): (r: seq<Byte>)
  {
    src[..NLen(src, n)] + Zeros(n - NLen(src, n))
  }

  /** strncpy writes exactly n bytes; the result is terminated iff src is shorter than n,
      and then it holds the same string as src. */
  lemma StrNCpyTerminated(src: seq<Byte>, n: nat)
    requires NUL in src
    ensures |StrNCpy(src, n)| == n
    ensures NUL in StrNCpy(src, n) <==> StrLen(src) < n
    ensures StrLen(src) < n ==> Str(StrNCpy(src, n)) == Str(src)
  {
    NLenOfString(src, n);
    var r := StrNCpy(src, n);
    var k := NLen(src, n);
    if StrLen(src) < n {
      assert r == src[..k] + [NUL] + Zeros(n - k - 1);
      StrOfTerminated(src[..k], Zeros(n - k - 1));
    } else {
      assert r == src[..n];
      assert forall i :: 0 <= i < n ==> r[i] != NUL;
    }
  }

  // ---------------------------------------------------------------------------
  // Comparisons
  // ---------------------------------------------------------------------------

  /** Where strcmp stops: the first position where the strings differ or the first ends. */
  function CmpIndex(a: seq<Byte>, b: seq<Byte>): (k: nat)
    requires NUL in a && NUL in b
    ensures k < |a| && k < |b|
    ensures forall i :: 0 <= i < k ==> a[i] == b[i] && a[i] != NUL
    ensures a[k] == NUL || a[k] != b[k]
  {
    if a[0] == NUL || a[0] != b[0] then 0
    else
      assert NUL in a[1..] && NUL in b[1..] by {
        var x :| 0 <= x < |a| && a[x] == NUL;
        var y :| 0 <= y < |b| && b[y] == NUL;
        assert a[1..][x - 1] == NUL && b[1..][y - 1] == NUL;
      }
      1 + CmpIndex(a[1..], b[1..])
  }

  /** strcmp's result: the unsigned difference of the bytes where the scan stops. */
  function StrCmp(a: seq<Byte>, b: seq<Byte>): int
    requires NUL in a && NUL in b
  {
    a[CmpIndex(a, b)] as int - b[CmpIndex(a, b)] as int
  }

  /** strcmp is 0 exactly when the two strings are equal. */
  lemma StrCmpZeroIff(a: seq<Byte>, b: seq<Byte>)
    requires NUL in a && NUL in b
    ensures StrCmp(a, b) == 0 <==> Str(a) == Str(b)
  {
    var k := CmpIndex(a, b);
    var la, lb := StrLen(a), StrLen(b);
    if a[k] == b[k] {
      assert la == k && lb == k;
      assert a[..k] == b[..k];
    } else if a[k] == NUL {
      assert la == k && lb > k;
    } else if b[k] == NUL {
      assert lb == k && la > k;
    } else {
      assert la > k && lb > k;
      assert Str(a)[k] != Str(b)[k];
    }
  }

  /** Swapping the arguments of strcmp negates its result. */
  lemma StrCmpAntisymmetric(a: seq<Byte>, b: seq<Byte>)
    requires NUL in a && NUL in b
    ensures StrCmp(b, a) == -StrCmp(a, b)
  {
    assert CmpIndex(b, a) == CmpIndex(a, b);
  }

  /** Where strncmp stops: within the first n positions, the first one where the strings
      differ or one of them ends; n when there is none. */
  function NCmpIndex(a: seq<Byte>, b: seq<Byte>, n: nat): (k: nat)
    requires (NUL in a && NUL in b) || (n <= |a| && n <= |b|)
    ensures k <= n
    ensures k < n ==> k < |a| && k < |b| && (a[k] == NUL || a[k] != b[k])
    ensures forall i :: 0 <= i < k ==> i < |a| && i < |b| && a[i] == b[i] && a[i] != NUL
  {
    if n == 0 || a[0] == NUL || a[0] != b[0] then 0
    else
      assert (NUL in a[1..] && NUL in b[1..]) || (n - 1 <= |a[1..]| && n - 1 <= |b[1..]|) by {
        if NUL in a && NUL in b {
          var x :| 0 <= x < |a| && a[x] == NUL;
          var y :| 0 <= y < |b| && b[y] == NUL;
          assert a[1..][x - 1] == NUL && b[1..][y - 1] == NUL;
        }
      }
      1 + NCmpIndex(a[1..], b[1..], n - 1)
  }

  /** strncmp's result: the unsigned difference where the scan stops, 0 after n equal bytes. */
  function StrNCmp(a: seq<Byte>, b: seq<Byte>, n: nat): int
    requires (NUL in a && NUL in b) || (n <= |a| && n <= |b|)
  {
    var k := NCmpIndex(a, b, n);
    if k < n then a[k] as int - b[k] as int else 0
  }

  /** strncmp is 0 exactly when the strings agree on their first n bytes up to a NUL. */
  lemma StrNCmpZeroIff(a: seq<Byte>, b: seq<Byte>, n: nat)
    requires (NUL in a && NUL in b) || (n <= |a| && n <= |b|)
    ensures StrNCmp(a, b, n) == 0 <==> a[..NLen(a, n)] == b[..NLen(b, n)]
  {
    var k := NCmpIndex(a, b, n);
    var la, lb := NLen(a, n), NLen(b, n);
    if k == n {
      assert la == n && lb == n;
      assert a[..n] == b[..n];
    } else if a[k] == b[k] {
      assert la == k && lb == k;
      assert a[..k] == b[..k];
    } else if a[k] == NUL {
      assert la == k && lb > k;
    } else if b[k] == NUL {
      assert lb == k && la > k;
    } else {
      assert la > k && lb > k;
      assert a[..la][k] != b[..lb][k];
    }
  }

  /** Where memcmp stops: the first of the n positions where the two buffers differ. */
  function MemCmpIndex(a: seq<Byte>, b: seq<Byte>, n: nat): (k: nat)
    requires n <= |a| && n <= |b|
    ensures k <= n
    ensures forall i :: 0 <= i < k ==> a[i] == b[i]
    ensures k < n ==> a[k] != b[k]
  {
    if n == 0 || a[0] != b[0] then 0 else 1 + MemCmpIndex(a[1..], b[1..], n - 1)
  }

  /** memcmp's result: the unsigned difference at the first differing byte, else 0. */
  function MemCmp(a: seq<Byte>, b: seq<Byte>, n: nat): int
    requires n <= |a| && n <= |b|
  {
    var k := MemCmpIndex(a, b, n);
    if k < n then a[k] as int - b[k] as int else 0
  }

  /** memcmp is 0 exactly when the first n bytes agree, and its sign is that of the
      first differing byte. */
  lemma MemCmpMeaning(a: seq<Byte>, b: seq<Byte>, n: nat)
    requires n <= |a| && n <= |b|
    ensures MemCmp(a, b, n) == 0 <==> a[..n] == b[..n]
    ensures MemCmp(a, b, n) < 0 <==>
      exists k :: 0 <= k < n && a[..k] == b[..k] && a[k] < b[k]
  {
    var k := MemCmpIndex(a, b, n);
    if k < n {
      assert a[..n][k] != b[..n][k];
      assert a[..k] == b[..k];
    } else {
      assert a[..n] == b[..n];
    }
  }

  // ---------------------------------------------------------------------------
  // Number conversion: itoa, uitoa, ltoa, ultoa
  // ---------------------------------------------------------------------------

  /** The digit character for d: '0'..'9', then lower-case 'a'.. */
  function DigitChar(d: nat): Byte
    requires d < 36
  {
    if d < 10 then ZERO_CHAR + d else LOWER_A + d - 10
  }

  /** The value of a digit character. */
  function DigitValue(c: Byte): nat
  {
    if ZERO_CHAR <= c <= NINE_CHAR then c - ZERO_CHAR
    else if LOWER_A <= c <= LOWER_Z then c - LOWER_A + 10
    else 0
  }

  /** The base-`base` digits of v, most significant first; "0" for zero. */
  function Digits(v: nat, base: nat): (s: seq<Byte>)
    requires 2 <= base <= 36
    ensures |s| >= 1
    decreases v
  {
    if v < base then [DigitChar(v)] else Digits(v / base, base) + [DigitChar(v % base)]
  }

  /** The digits of v in the order the conversion loops produce them: least significant first. */
  function LsbDigits(v: nat, base: nat): seq<Byte>
    requires 2 <= base <= 36
    decreases v
  {
    if v == 0 then [] else [DigitChar(v % base)] + LsbDigits(v / base, base)
  }

  /** The value a digit string denotes (an independent reading of Digits). */
  function FromDigits(s: seq<Byte>, base: nat): nat
  {
    if s == [] then 0 else FromDigits(s[..|s| - 1], base) * base + DigitValue(s[|s| - 1])
  }

  function Reverse(s: seq<Byte>): (r: seq<Byte>)
    ensures |r| == |s|
  {
    if s == [] then [] else Reverse(s[1..]) + [s[0]]
  }

  lemma {:induction false} ReverseAt(s: seq<Byte>, k: nat)
    requires k < |s|
    ensures Reverse(s)[k] == s[|s| - 1 - k]
  {
    if k < |s| - 1 {
      ReverseAt(s[1..], k);
    }
  }

  lemma DivModSmall(v: nat, base: nat)
    requires 0 < base && v < base
    ensures v / base == 0 && v % base == v
  {
  }

  lemma QuotientPositive(v: nat, base: nat)
    requires 2 <= base <= v
    ensures 0 < v / base < v
  {
    DivModSplit(v, base);
  }

  lemma DivModSplit(v: nat, base: nat)
    requires 0 < base
    ensures v == (v / base) * base + v % base && 0 <= v % base < base
  {
  }

  /** A digit character reads back as the digit it was made from. */
  lemma DigitValueOfChar(d: nat)
    requires d < 36
    ensures DigitValue(DigitChar(d)) == d
  {
  }

  /** Appending digit d to the digits of q reads back as q * base + d. */
  lemma FromDigitsSnoc(p: seq<Byte>, d: nat, base: nat, q: nat)
    requires d < 36 && FromDigits(p, base) == q
    ensures FromDigits(p + [DigitChar(d)], base) == q * base + d
  {
    assert (p + [DigitChar(d)])[..|p|] == p;
    DigitValueOfChar(d);
  }

  /** A value below the base is a single digit, which reads back as the value. */
  lemma DigitRoundTrip(v: nat, base: nat)
    requires 2 <= base <= 36 && v < base
    ensures FromDigits(Digits(v, base), base) == v
  {
    FromDigitsSnoc([], v, base, 0);
    assert Digits(v, base) == [] + [DigitChar(v)];
  }

  /** One step of the round trip: the digits of v are those of v / base followed by
      the digit v % base. */
  lemma DigitsRoundTripStep(v: nat, base: nat)
    requires 2 <= base <= 36 && v >= base
    requires FromDigits(Digits(v / base, base), base) == v / base
    ensures FromDigits(Digits(v, base), base) == v
  {
    FromDigitsSnoc(Digits(v / base, base), v % base, base, v / base);
    DivModSplit(v, base);
  }

  /** Reading back the digits of v gives v. */
  lemma {:induction false} DigitsRoundTrip(v: nat, base: nat)
    requires 2 <= base <= 36
    ensures FromDigits(Digits(v, base), base) == v
    decreases v
  {
    if v < base {
      DigitRoundTrip(v, base);
    } else {
      DigitsRoundTrip(v / base, base);
      DigitsRoundTripStep(v, base);
    }
  }

  /** c is a digit character ('0'..'9', 'a'..'z') denoting a value below base. */
  predicate IsDigit(c: Byte, base: nat)
  {
    (ZERO_CHAR <= c <= NINE_CHAR && c - ZERO_CHAR < base) ||
    (LOWER_A <= c <= LOWER_Z && c - LOWER_A + 10 < base)
  }

  /** Every character of Digits is a digit of the base (so neither NUL nor '-'), and there
      is no leading zero except for the value 0 itself. */
  lemma {:induction false} DigitsWellFormed(v: nat, base: nat)
    requires 2 <= base <= 36
    ensures forall i :: 0 <= i < |Digits(v, base)| ==> IsDigit(Digits(v, base)[i], base)
    ensures Digits(v, base)[0] == ZERO_CHAR <==> v == 0
    decreases v
  {
    if v >= base {
      QuotientPositive(v, base);
      DivModSplit(v, base);
      DigitsWellFormed(v / base, base);
      assert Digits(v, base)[0] == Digits(v / base, base)[0];
    }
  }

  /** The least-significant-first digits, reversed, are the digits. */
  lemma {:induction false} LsbDigitsReversed(v: nat, base: nat)
    requires 2 <= base <= 36 && v > 0
    ensures Reverse(LsbDigits(v, base)) == Digits(v, base)
    decreases v
  {
    var l := LsbDigits(v, base);
    assert l == [DigitChar(v % base)] + LsbDigits(v / base, base);
    assert l[1..] == LsbDigits(v / base, base);
    assert Reverse(l) == Reverse(l[1..]) + [DigitChar(v % base)];
    if v < base {
      DivModSmall(v, base);
    } else {
      QuotientPositive(v, base);
      LsbDigitsReversed(v / base, base);
    }
  }

  function Pow(base: nat, k: nat): nat
  {
    if k == 0 then 1 else base * Pow(base, k - 1)
  }

  /** A value below base^k has at most k digits. */
  lemma {:induction false} DigitsLength(v: nat, base: nat, k: nat)
    requires 2 <= base <= 36 && k >= 1 && v < Pow(base, k)
    ensures |Digits(v, base)| <= k
    decreases k
  {
    if v >= base {
      DivModSplit(v, base);
      assert k >= 2;
      assert v / base < Pow(base, k - 1);
      DigitsLength(v / base, base, k - 1);
    }
  }

  /** The sign prefix itoa writes. */
  function Sign(negative: bool): seq<Byte>
  {
    if negative then [MINUS] else []
  }

  /** The text itoa and ltoa produce: a leading '-' only for negative values, which are
      converted in base 10 only. */
  function SignedText(v: int, base: nat): seq<Byte>
    requires 2 <= base <= 36 && (v < 0 ==> base == 10)
  {
    if v < 0 then Sign(true) + Digits(-v, base) else Digits(v, base)
  }

  /** Reading a signed text back (an independent reading of SignedText). */
  function FromSignedText(s: seq<Byte>, base: nat): int
  {
    if |s| > 0 && s[0] == MINUS then -(FromDigits(s[1..], base) as int) else FromDigits(s, base)
  }

  lemma SignedTextRoundTrip(v: int, base: nat)
    requires 2 <= base <= 36 && (v < 0 ==> base == 10)
    ensures FromSignedText(SignedText(v, base), base) == v
  {
    if v < 0 {
      DigitsRoundTrip(-v, base);
      assert SignedText(v, base)[1..] == Digits(-v, base);
    } else {
      DigitsRoundTrip(v, base);
      DigitsWellFormed(v, base);
    }
  }

  /** Reverse(a + b) == Reverse(b) + Reverse(a). */
  lemma {:induction false} ReverseAppend(a: seq<Byte>, b: seq<Byte>)
    ensures Reverse(a + b) == Reverse(b) + Reverse(a)
  {
    if a == [] {
      assert a + b == b;
    } else {
      assert (a + b)[1..] == a[1..] + b;
      ReverseAppend(a[1..], b);
    }
  }

  /** Reverse a[0..n) in place with two indices moving towards each other. */
  method ReverseRange(a: array<Byte>, n: int)
    requires 0 <= n <= a.Length
    modifies a
    ensures a[..n] == Reverse(old(a[..n]))
    ensures forall k :: n <= k < a.Length ==> a[k] == old(a[k])
  {
    ghost var w := a[..n];
    var i, j := 0, n - 1;
    while i < j
      invariant 0 <= i <= n && -1 <= j < n && i + j == n - 1
      invariant forall k :: 0 <= k < i ==> a[k] == w[n - 1 - k]
      invariant forall k :: j < k < n ==> a[k] == w[n - 1 - k]
      invariant forall k :: i <= k <= j ==> a[k] == w[k]
      invariant forall k :: n <= k < a.Length ==> a[k] == old(a[k])
    {
      a[i], a[j] := a[j], a[i];
      i := i + 1;
      j := j - 1;
    }
    forall k | 0 <= k < n
      ensures a[k] == Reverse(w)[k]
    {
      ReverseAt(w, k);
    }
  }

  lemma LsbDigitsStep(v: nat, base: nat)
    requires 2 <= base <= 36 && v > 0
    ensures 0 <= v / base < v && 0 <= v % base < base
    ensures LsbDigits(v, base) == [DigitChar(v % base)] + LsbDigits(v / base, base)
  {
  }

  /** The first loop of the conversion: the digits of v, least significant first. */
  method WriteLsbDigits(str: array<Byte>, magnitude: nat, base: nat) returns (p: nat)
    requires 2 <= base <= 36
    requires |LsbDigits(magnitude, base)| <= str.Length
    modifies str
    ensures p == |LsbDigits(magnitude, base)|
    ensures str[..p] == LsbDigits(magnitude, base)
    ensures forall k :: p <= k < str.Length ==> str[k] == old(str[k])
  {
    ghost var lsb := LsbDigits(magnitude, base);
    p := 0;
    var v: nat := magnitude;
    while v != 0
      invariant p <= |lsb| && LsbDigits(v, base) == lsb[p..]
      invariant forall k :: 0 <= k < p ==> str[k] == lsb[k]
      invariant forall k :: p <= k < str.Length ==> str[k] == old(str[k])
      decreases v
    {
      LsbDigitsStep(v, base);
      var d := v % base;
      var q := v / base;
      assert lsb[p + 1..] == lsb[p..][1..];
      str[p] := DigitChar(d);
      p := p + 1;
      v := q;
    }
    assert str[..p] == lsb;
  }

  /** The text of a number holds no NUL: it is digits with at most a leading '-'. */
  lemma SignedTextHasNoNul(v: int, base: nat)
    requires 2 <= base <= 36 && (v < 0 ==> base == 10)
    ensures forall i :: 0 <= i < |SignedText(v, base)| ==> SignedText(v, base)[i] != NUL
  {
    var m: nat := if v < 0 then -v else v;
    DigitsWellFormed(m, base);
    assert SignedText(v, base) == Sign(v < 0) + Digits(m, base);
  }

  /** A buffer holding SignedText(v, base) and a terminator is a C string that reads back as v. */
  lemma SignedTextIsString(v: int, base: nat, buf: seq<Byte>)
    requires 2 <= base <= 36 && (v < 0 ==> base == 10)
    requires |SignedText(v, base)| < |buf|
    requires buf[..|SignedText(v, base)| + 1] == SignedText(v, base) + [NUL]
    ensures NUL in buf && Str(buf) == SignedText(v, base)
    ensures FromSignedText(Str(buf), base) == v
  {
    var t := SignedText(v, base);
    var n := |t|;
    assert forall i :: 0 <= i <= n ==> buf[i] == buf[..n + 1][i] == (t + [NUL])[i];
    SignedTextHasNoNul(v, base);
    StrLenAt(buf, n);
    assert buf[..n] == t;
    SignedTextRoundTrip(v, base);
  }

  /** The conversion loop shared by itoa, uitoa, ltoa and ultoa (every copy of it in the
      kernel is the same): write the digits of `magnitude` least significant first, then
      '-' when `negative`, then the terminator, and reverse the text in place with two
      pointers moving towards each other. */
  method WriteDigits(str: array<Byte>, magnitude: nat, negative: bool, base: nat)
    requires 2 <= base <= 36 && magnitude > 0
    requires |Sign(negative) + Digits(magnitude, base)| < str.Length
    modifies str
    ensures var t := Sign(negative) + Digits(magnitude, base);
      str[..|t| + 1] == t + [NUL] && forall k :: |t| < k < str.Length ==> str[k] == old(str[k])
  {
    LsbDigitsReversed(magnitude, base);
    ghost var lsb := LsbDigits(magnitude, base);
    var p := WriteLsbDigits(str, magnitude, base);
    if negative {
      str[p] := MINUS;
      p := p + 1;
    }
    str[p] := NUL;
    ghost var w := str[..p];
    assert w == lsb + Sign(negative);
    ReverseRange(str, p);
    ReverseAppend(lsb, Sign(negative));
    assert Reverse(Sign(negative)) == Sign(negative) by {
      if negative {
        assert Reverse([MINUS]) == Reverse([MINUS][1..]) + [MINUS];
      }
    }
    ghost var t := Sign(negative) + Digits(magnitude, base);
    assert str[..p + 1] == t + [NUL];

  }
}
