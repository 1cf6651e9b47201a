/** kernel/string.c: the freestanding string, memory and number-conversion routines.
    Every routine is a loop over caller buffers; a C buffer is an array whose index 0
    is the pointer passed in. The C functions return their `dest` argument unchanged,
    so the methods here return nothing. */
module KString {
  import opened CTypes
  import opened CStrings

  /** strlen: count the bytes before the terminator. */
  method Strlen(s: array<Byte>) returns (n: nat)
    requires NUL in s[..]
    ensures n == StrLen(s[..])
  {
    n := 0;
    while s[n] != NUL
      invariant n <= StrLen(s[..])
      decreases StrLen(s[..]) - n
    {
      n := n + 1;
    }
  }

  /** strcpy: copy src, terminator included (the C loop copies a byte, then tests it). */
  method Strcpy(dest: array<Byte>, src: array<Byte>)
    requires dest != src
    requires NUL in src[..] && StrLen(src[..]) < dest.Length
    modifies dest
    ensures dest[..StrLen(src[..]) + 1] == src[..StrLen(src[..]) + 1]
    ensures forall k :: StrLen(src[..]) < k < dest.Length ==> dest[k] == old(dest[k])
    ensures NUL in dest[..] && Str(dest[..]) == Str(src[..])
  {
    CopyString(dest, 0, src);
    StrOfPrefix(src[..], dest[..]);
  }

  /** The copy loop of strcpy and strcat: src, terminator included, into dest from `at` on. */
  method CopyString(dest: array<Byte>, at: nat, src: array<Byte>)
    requires dest != src
    requires NUL in src[..] && at + StrLen(src[..]) < dest.Length
    modifies dest
    ensures dest[at..at + StrLen(src[..]) + 1] == src[..StrLen(src[..]) + 1]
    ensures forall k :: 0 <= k < dest.Length && !(at <= k <= at + StrLen(src[..])) ==>
      dest[k] == old(dest[k])
  {
    ghost var m := StrLen(src[..]);
    var i := 0;
    while src[i] != NUL
      invariant i <= m
      invariant forall k :: 0 <= k < i ==> dest[at + k] == src[k]
      invariant forall k :: 0 <= k < dest.Length && !(at <= k < at + i) ==> dest[k] == old(dest[k])
      decreases m - i
    {
      dest[at + i] := src[i];
      i := i + 1;
    }
    dest[at + i] := src[i];
  }

  /** strncpy: exactly n bytes: the text of src up to n bytes, then NUL padding. */
  method Strncpy(dest: array<Byte>, src: array<Byte>, n: nat)
    requires dest != src
    requires n <= dest.Length && Scannable(src[..], n)
    modifies dest
    ensures dest[..n] == StrNCpy(src[..], n)
    ensures forall k :: n <= k < dest.Length ==> dest[k] == old(dest[k])
  {
    NLenOfString(src[..], n);
    ghost var t := NLen(src[..], n);
    var i := 0;
    while i < n && src[i] != NUL
      invariant i <= t
      invariant forall k :: 0 <= k < i ==> dest[k] == src[k]
      invariant forall k :: i <= k < dest.Length ==> dest[k] == old(dest[k])
      decreases t - i
    {
      dest[i] := src[i];
      i := i + 1;
    }
    while i < n
      invariant t <= i <= n
      invariant forall k :: 0 <= k < t ==> dest[k] == src[k]
      invariant forall k :: t <= k < i ==> dest[k] == NUL
      invariant forall k :: i <= k < dest.Length ==> dest[k] == old(dest[k])
    {
      dest[i] := NUL;
      i := i + 1;
    }
    assert dest[..n] == src[..t] + Zeros(n - t);
  }

  /** strcmp: walk while the bytes agree and are not the terminator; the result is the
      difference of the bytes read as unsigned char. */
  method Strcmp(a: array<Byte>, b: array<Byte>) returns (r: int)
    requires NUL in a[..] && NUL in b[..]
    ensures r == StrCmp(a[..], b[..])
  {
    ghost var k := CmpIndex(a[..], b[..]);
    var i := 0;
    while a[i] != NUL && a[i] == b[i]
      invariant i <= k
      decreases k - i
    {
      i := i + 1;
    }
    r := a[i] as int - b[i] as int;
  }

  /** strncmp (string.c version): at most n positions; stop at the first difference or NUL. */
  method Strncmp(a: array<Byte>, b: array<Byte>, n: nat) returns (r: int)
    requires (NUL in a[..] && NUL in b[..]) || (n <= a.Length && n <= b.Length)
    ensures r == StrNCmp(a[..], b[..], n)
  {
    ghost var k := NCmpIndex(a[..], b[..], n);
    var i := 0;
    while i < n
      invariant i <= k
    {
      if a[i] != b[i] || a[i] == NUL || b[i] == NUL {
        return a[i] as int - b[i] as int;
      }
      i := i + 1;
    }
    r := 0;
  }

  /** strcat: find the end of dest, then copy src there, terminator included. */
  method Strcat(dest: array<Byte>, src: array<Byte>)
    requires dest != src
    requires NUL in dest[..] && NUL in src[..]
    requires StrLen(dest[..]) + StrLen(src[..]) < dest.Length
    modifies dest
    ensures var l := old(StrLen(dest[..])); var m := StrLen(src[..]);
      dest[..l + m + 1] == old(dest[..l]) + Str(src[..]) + [NUL] &&
      forall k :: l + m < k < dest.Length ==> dest[k] == old(dest[k])
    ensures NUL in dest[..] && Str(dest[..]) == old(Str(dest[..])) + Str(src[..])
  {
    ghost var before := dest[..];
    var d := Strlen(dest);
    CopyString(dest, d, src);
    ghost var m := StrLen(src[..]);
    forall k | 0 <= k <= m
      ensures dest[d + k] == src[k]
    {
      assert dest[d..d + m + 1][k] == src[..m + 1][k];
    }
    Appended(dest[..], before, d, Str(src[..]));
  }

  /** strncat: append at most n bytes of src (stopping at its NUL), then always a terminator. */
  method Strncat(dest: array<Byte>, src: array<Byte>, n: nat)
    requires dest != src
    requires NUL in dest[..] && Scannable(src[..], n)
    requires StrLen(dest[..]) + NLen(src[..], n) < dest.Length
    modifies dest
    ensures var l := old(StrLen(dest[..])); var m := NLen(src[..], n);
      dest[..l + m + 1] == old(dest[..l]) + src[..m] + [NUL] &&
      forall k :: l + m < k < dest.Length ==> dest[k] == old(dest[k])
    ensures NUL in dest[..] && Str(dest[..]) == old(Str(dest[..])) + src[..NLen(src[..], n)]
  {
    ghost var before := dest[..];
    var d := Strlen(dest);
    var i := CopyBounded(dest, d, src, n);
    dest[d + i] := NUL;
    Appended(dest[..], before, d, src[..i]);
  }

  /** The copy loop of strncat: bytes of src go to dest from index at, until n are copied
      or src's NUL is reached; the terminator is not copied. */
  method CopyBounded(dest: array<Byte>, at: nat, src: array<Byte>, n: nat) returns (i: nat)
    requires dest != src
    requires Scannable(src[..], n) && at + NLen(src[..], n) < dest.Length
    modifies dest
    ensures i == NLen(src[..], n)
    ensures forall k :: 0 <= k < i ==> dest[at + k] == src[k]
    ensures forall k :: 0 <= k < dest.Length && !(at <= k < at + i) ==> dest[k] == old(dest[k])
  {
    NLenOfString(src[..], n);
    ghost var m := NLen(src[..], n);
    i := 0;
    while i < n && src[i] != NUL
      invariant i <= m
      invariant forall k :: 0 <= k < i ==> dest[at + k] == src[k]
      invariant forall k :: 0 <= k < dest.Length && !(at <= k < at + i) ==> dest[k] == old(dest[k])
      decreases m - i
    {
      dest[at + i] := src[i];
      i := i + 1;
    }
  }

  /** memcpy: copy n bytes (the regions must not overlap). */
  method Memcpy(dest: array<Byte>, src: array<Byte>, n: nat)
    requires dest != src
    requires n <= dest.Length && n <= src.Length
    modifies dest
    ensures dest[..n] == src[..n]
    ensures forall k :: n <= k < dest.Length ==> dest[k] == old(dest[k])
  {
    var i := 0;
    while i < n
      invariant i <= n
      invariant forall k :: 0 <= k < i ==> dest[k] == src[k]
      invariant forall k :: i <= k < dest.Length ==> dest[k] == old(dest[k])
    {
      dest[i] := src[i];
      i := i + 1;
    }
  }

  /** memset: n bytes set to (unsigned char)c. */
  method Memset(dest: array<Byte>, c: I32, n: nat)
    requires n <= dest.Length
    modifies dest
    ensures forall k :: 0 <= k < n ==> dest[k] == ToByte(c)
    ensures forall k :: n <= k < dest.Length ==> dest[k] == old(dest[k])
  {
    var i := 0;
    while i < n
      invariant i <= n
      invariant forall k :: 0 <= k < i ==> dest[k] == ToByte(c)
      invariant forall k :: i <= k < dest.Length ==> dest[k] == old(dest[k])
    {
      dest[i] := ToByte(c);
      i := i + 1;
    }
  }

  /** memcmp: the difference at the first differing byte of n, or 0. */
  method Memcmp(a: array<Byte>, b: array<Byte>, n: nat) returns (r: int)
    requires n <= a.Length && n <= b.Length
    ensures r == MemCmp(a[..], b[..], n)
  {
    ghost var k := MemCmpIndex(a[..], b[..], n);
    var i := 0;
    while i < n
      invariant i <= k
    {
      if a[i] != b[i] {
        return a[i] as int - b[i] as int;
      }
      i := i + 1;
    }
    r := 0;
  }

  /** memmove: copy n bytes from offset s to offset d of one memory region `mem`; forwards
      when d < s, backwards when d > s, nothing when d == s, so that overlapping regions
      are copied as if through a temporary buffer. */
  method Memmove(mem: array<Byte>, d: nat, s: nat, n: nat)
    requires d + n <= mem.Length && s + n <= mem.Length
    modifies mem
    ensures mem[d..d + n] == old(mem[s..s + n])
    ensures forall k :: 0 <= k < mem.Length && !(d <= k < d + n) ==> mem[k] == old(mem[k])
  {
    if d < s {
      CopyForward(mem, d, s, n);
    } else if d > s {
      CopyBackward(mem, d, s, n);
    }
  }

  /** The forward loop of memmove: correct whenever d <= s. */
  method CopyForward(mem: array<Byte>, d: nat, s: nat, n: nat)
    requires d <= s && s + n <= mem.Length
    modifies mem
    ensures mem[d..d + n] == old(mem[s..s + n])
    ensures forall k :: 0 <= k < mem.Length && !(d <= k < d + n) ==> mem[k] == old(mem[k])
  {
    var i := 0;
    while i < n
      invariant i <= n
      invariant forall k :: d <= k < d + i ==> mem[k] == old(mem[k - d + s])
      invariant forall k :: 0 <= k < mem.Length && !(d <= k < d + i) ==> mem[k] == old(mem[k])
    {
      mem[d + i] := mem[s + i];
      i := i + 1;
    }
  }

  /** The backward loop of memmove: correct whenever d >= s. */
  method CopyBackward(mem: array<Byte>, d: nat, s: nat, n: nat)
    requires s <= d && d + n <= mem.Length
    modifies mem
    ensures mem[d..d + n] == old(mem[s..s + n])
    ensures forall k :: 0 <= k < mem.Length && !(d <= k < d + n) ==> mem[k] == old(mem[k])
  {
    var i: nat := n;
    while i != 0
      invariant i <= n
      invariant forall k :: d + i <= k < d + n ==> mem[k] == old(mem[k - d + s])
      invariant forall k :: 0 <= k < mem.Length && !(d + i <= k < d + n) ==> mem[k] == old(mem[k])
    {
      mem[d + i - 1] := mem[s + i - 1];
      i := i - 1;
    }
  }

  /** itoa: "0" for zero; otherwise the digits, most significant first, with a '-' for a
      negative value (negatives are converted in base 10 only). */
  method Itoa(value: I32, str: array<Byte>, base: int)
    requires 2 <= base <= 36 && value != -I32_LIMIT && (value < 0 ==> base == 10)
    requires |SignedText(value, base)| < str.Length
    modifies str
    ensures var t := SignedText(value, base);
      str[..|t| + 1] == t + [NUL] && forall k :: |t| < k < str.Length ==> str[k] == old(str[k])
    ensures NUL in str[..] && Str(str[..]) == SignedText(value, base)
    ensures FromSignedText(Str(str[..]), base) == value
  {
    if value == 0 {
      str[0] := ZERO_CHAR;
      str[1] := NUL;
    } else {
      var negative := value < 0;
      var magnitude := if negative then -value else value;
      WriteDigits(str, magnitude, negative, base);
    }
    SignedTextIsString(value, base, str[..]);
  }

  /** uitoa: as itoa for an unsigned value, with no sign. */
  method Uitoa(value: U32, str: array<Byte>, base: int)
    requires 2 <= base <= 36
    requires |Digits(value, base)| < str.Length
    modifies str
    ensures var t := Digits(value, base);
      str[..|t| + 1] == t + [NUL] && forall k :: |t| < k < str.Length ==> str[k] == old(str[k])
    ensures NUL in str[..] && Str(str[..]) == Digits(value, base)
    ensures FromDigits(Str(str[..]), base) == value
  {
    if value == 0 {
      str[0] := ZERO_CHAR;
      str[1] := NUL;
    } else {
      WriteDigits(str, value, false, base);
    }
    assert Sign(false) + Digits(value, base) == Digits(value, base);
    SignedTextIsString(value, base, str[..]);
    DigitsRoundTrip(value, base);
  }
}
