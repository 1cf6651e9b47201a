/** kernel/stdio.c, string and memory part: the same routines as kernel/string.c, but every
    one guards against NULL pointers (strlen(NULL) is 0, a comparison with NULL is 0, a
    copy with NULL leaves dest alone), plus strchr, strstr and four number conversions that
    report 0 for a NULL buffer and 1 otherwise. A possibly-NULL pointer is an `array?`.
    Where a routine's loop is the same as in kernel/string.c the method calls the KString
    one after its NULL check; where the loop differs (strncmp, memmove) it is written out. */
module KStdio {
  import opened CTypes
  import opened CStrings
  import KString

  method Strlen(s: array?<Byte>) returns (n: nat)
    requires s != null ==> NUL in s[..]
    ensures s == null ==> n == 0
    ensures s != null ==> n == StrLen(s[..])
  {
    if s == null {
      return 0;
    }
    n := KString.Strlen(s);
  }

  method Strcpy(dest: array?<Byte>, src: array?<Byte>)
    requires dest != null && src != null ==>
      dest != src && NUL in src[..] && StrLen(src[..]) < dest.Length
    modifies dest
    ensures dest != null && src == null ==> dest[..] == old(dest[..])
    ensures dest != null && src != null ==>
      dest[..StrLen(src[..]) + 1] == src[..StrLen(src[..]) + 1] &&
      (forall k :: StrLen(src[..]) < k < dest.Length ==> dest[k] == old(dest[k])) &&
      NUL in dest[..] && Str(dest[..]) == Str(src[..])
  {
    if dest == null || src == null {
      return;
    }
    KString.Strcpy(dest, src);
  }

  method Strncpy(dest: array?<Byte>, src: array?<Byte>, n: nat)
    requires dest != null && src != null ==>
      dest != src && n <= dest.Length && Scannable(src[..], n)
    modifies dest
    ensures dest != null && src == null ==> dest[..] == old(dest[..])
    ensures dest != null && src != null ==>
      dest[..n] == StrNCpy(src[..], n) &&
      forall k :: n <= k < dest.Length ==> dest[k] == old(dest[k])
  {
    if dest == null || src == null {
      return;
    }
    KString.Strncpy(dest, src, n);
  }

  method Strcmp(a: array?<Byte>, b: array?<Byte>) returns (r: int)
    requires a != null && b != null ==> NUL in a[..] && NUL in b[..]
    ensures a == null || b == null ==> r == 0
    ensures a != null && b != null ==> r == StrCmp(a[..], b[..])
  {
    if a == null || b == null {
      return 0;
    }
    r := KString.Strcmp(a, b);
  }

  /** strncmp (stdio.c version): advance while n is not exhausted and the bytes agree and
      are not NUL; 0 if n ran out, otherwise the unsigned difference where the walk stopped.
      It computes the same function as the kernel/string.c version. */
  method Strncmp(a: array?<Byte>, b: array?<Byte>, n: nat) returns (r: int)
    requires a != null && b != null ==>
      (NUL in a[..] && NUL in b[..]) || (n <= a.Length && n <= b.Length)
    ensures a == null || b == null ==> r == 0
    ensures a != null && b != null ==> r == StrNCmp(a[..], b[..], n)
  {
    if a == null || b == null {
      return 0;
    }
    ghost var k := NCmpIndex(a[..], b[..], n);
    var i := 0;
    var left := n;
    while left != 0 && a[i] != NUL && a[i] == b[i]
      invariant i + left == n && i <= k
      decreases left
    {
      i := i + 1;
      left := left - 1;
    }
    if left == 0 {
      r := 0;
    } else {
      r := a[i] as int - b[i] as int;
    }
  }

  method Strcat(dest: array?<Byte>, src: array?<Byte>)
    requires dest != null && src != null ==>
      dest != src && NUL in dest[..] && NUL in src[..] &&
      StrLen(dest[..]) + StrLen(src[..]) < dest.Length
    modifies dest
    ensures dest != null && src == null ==> dest[..] == old(dest[..])
    ensures dest != null && src != null ==>
      NUL in dest[..] && Str(dest[..]) == old(Str(dest[..])) + Str(src[..]) &&
      forall k :: old(StrLen(dest[..])) + StrLen(src[..]) < k < dest.Length ==> dest[k] == old(dest[k])
  {
    if dest == null || src == null {
      return;
    }
    KString.Strcat(dest, src);
  }

  method Strncat(dest: array?<Byte>, src: array?<Byte>, n: nat)
    requires dest != null && src != null ==>
      dest != src && NUL in dest[..] && Scannable(src[..], n) &&
      StrLen(dest[..]) + NLen(src[..], n) < dest.Length
    modifies dest
    ensures dest != null && src == null ==> dest[..] == old(dest[..])
    ensures dest != null && src != null ==>
      NUL in dest[..] && Str(dest[..]) == old(Str(dest[..])) + src[..NLen(src[..], n)] &&
      forall k :: old(StrLen(dest[..])) + NLen(src[..], n) < k < dest.Length ==> dest[k] == old(dest[k])
  {
    if dest == null || src == null {
      return;
    }
    KString.Strncat(dest, src, n);
  }

  /** The first position of s holding c (a plain char is signed, so it is compared as
      SignedChar); when there is none, the terminator's position if c is 0, else NULL. */
  method Strchr(s: array?<Byte>, c: I32) returns (r: Option<nat>)
    requires s != null ==> NUL in s[..]
    ensures s == null ==> r == None
    ensures s != null ==> match r
      case Some(i) =>
        i <= StrLen(s[..]) &&
        (i < StrLen(s[..]) ==> SignedChar(s[i]) == c) &&
        (i == StrLen(s[..]) ==> c == 0) &&
        forall j :: 0 <= j < i ==> SignedChar(s[j]) != c
      case None =>
        c != 0 && forall j :: 0 <= j < StrLen(s[..]) ==> SignedChar(s[j]) != c
  {
    if s == null {
      return None;
    }
    ghost var len := StrLen(s[..]);
    var i := 0;
    while s[i] != NUL
      invariant i <= len
      invariant forall j :: 0 <= j < i ==> SignedChar(s[j]) != c
      decreases len - i
    {
      if SignedChar(s[i]) == c {
        return Some(i);
      }
      i := i + 1;
    }
    if c == 0 {
      return Some(i);
    }
    return None;
  }

  /** needle occurs in text starting at position i. */
  predicate OccursAt(text: seq<Byte>, needle: seq<Byte>, i: nat)
  {
    i + |needle| <= |text| && text[i..i + |needle|] == needle
  }

  /** strstr: the first position at which the text of needle occurs in the text of
      haystack (0 for an empty needle), or NULL. */
  method Strstr(haystack: array?<Byte>, needle: array?<Byte>) returns (r: Option<nat>)
    requires haystack != null ==> NUL in haystack[..]
    requires needle != null ==> NUL in needle[..]
    ensures haystack == null || needle == null ==> r == None
    ensures haystack != null && needle != null ==> match r
      case Some(i) =>
        OccursAt(Str(haystack[..]), Str(needle[..]), i) &&
        forall j :: 0 <= j < i ==> !OccursAt(Str(haystack[..]), Str(needle[..]), j)
      case None =>
        forall j :: 0 <= j <= StrLen(haystack[..]) ==> !OccursAt(Str(haystack[..]), Str(needle[..]), j)
  {
    if haystack == null || needle == null {
      return None;
    }
    ghost var h := Str(haystack[..]);
    ghost var nd := Str(needle[..]);
    if needle[0] == NUL {
      assert nd == [];
      assert h[0..0] == nd;
      return Some(0);
    }
    var i := 0;
    while haystack[i] != NUL
      invariant i <= |h|
      invariant forall j :: 0 <= j < i ==> !OccursAt(h, nd, j)
      decreases |h| - i
    {
      var m := MatchLength(haystack, i, needle);
      if needle[m] == NUL {
        return Some(i);
      }
      i := i + 1;
    }
    return None;
  }

  /** The inner loop of strstr: how far needle agrees with haystack from position i. Needle
      occurs at i exactly when the walk ends at needle's terminator. */
  method MatchLength(haystack: array<Byte>, i: nat, needle: array<Byte>) returns (m: nat)
    requires NUL in haystack[..] && NUL in needle[..] && i < StrLen(haystack[..])
    ensures m <= StrLen(needle[..])
    ensures needle[m] == NUL <==> OccursAt(Str(haystack[..]), Str(needle[..]), i)
  {
    ghost var h := Str(haystack[..]);
    ghost var nd := Str(needle[..]);
    m := 0;
    while haystack[i + m] != NUL && needle[m] != NUL && haystack[i + m] == needle[m]
      invariant m <= |nd| && i + m <= |h|
      invariant h[i..i + m] == nd[..m]
      decreases |nd| - m
    {
      m := m + 1;
    }
    if needle[m] == NUL {
      assert nd[..m] == nd;
    } else if i + |nd| <= |h| {
      if haystack[i + m] == NUL {
        assert false;
      }
      assert h[i..i + |nd|][m] != nd[m];
    }
  }

  method Memset(p: array?<Byte>, value: I32, num: nat)
    requires p != null ==> num <= p.Length
    modifies p
    ensures p != null ==>
      (forall k :: 0 <= k < num ==> p[k] == ToByte(value)) &&
      forall k :: num <= k < p.Length ==> p[k] == old(p[k])
  {
    if p == null {
      return;
    }
    KString.Memset(p, value, num);
  }

  method Memcpy(dest: array?<Byte>, src: array?<Byte>, num: nat)
    requires dest != null && src != null ==> dest != src && num <= dest.Length && num <= src.Length
    modifies dest
    ensures dest != null && src == null ==> dest[..] == old(dest[..])
    ensures dest != null && src != null ==>
      dest[..num] == src[..num] && forall k :: num <= k < dest.Length ==> dest[k] == old(dest[k])
  {
    if dest == null || src == null {
      return;
    }
    KString.Memcpy(dest, src, num);
  }

  /** memmove on one memory region: dest and src are offsets into mem, None for NULL.
      Forwards when dest < src, otherwise backwards (also when they are equal). */
  method Memmove(mem: array<Byte>, dest: Option<nat>, src: Option<nat>, num: nat)
    requires dest.Some? && src.Some? ==>
      dest.value + num <= mem.Length && src.value + num <= mem.Length
    modifies mem
    ensures dest.None? || src.None? ==> mem[..] == old(mem[..])
    ensures dest.Some? && src.Some? ==>
      var d, s := dest.value, src.value;
      mem[d..d + num] == old(mem[s..s + num]) &&
      forall k :: 0 <= k < mem.Length && !(d <= k < d + num) ==> mem[k] == old(mem[k])
  {
    if dest.None? || src.None? {
      return;
    }
    if dest.value < src.value {
      KString.CopyForward(mem, dest.value, src.value, num);
    } else {
      KString.CopyBackward(mem, dest.value, src.value, num);
    }
  }

  method Memcmp(a: array?<Byte>, b: array?<Byte>, num: nat) returns (r: int)
    requires a != null && b != null ==> num <= a.Length && num <= b.Length
    ensures a == null || b == null ==> r == 0
    ensures a != null && b != null ==> r == MemCmp(a[..], b[..], num)
  {
    if a == null || b == null {
      return 0;
    }
    r := KString.Memcmp(a, b, num);
  }

  /** itoa: 0 for a NULL buffer; otherwise the text of kernel/string.c's itoa and 1. */
  method Itoa(value: I32, str: array?<Byte>, base: int) returns (r: int)
    requires 2 <= base <= 36 && value != -I32_LIMIT && (value < 0 ==> base == 10)
    requires str != null ==> |SignedText(value, base)| < str.Length
    modifies str
    ensures r == if str == null then 0 else 1
    ensures str != null ==>
      var t := SignedText(value, base);
      str[..|t| + 1] == t + [NUL] && (forall k :: |t| < k < str.Length ==> str[k] == old(str[k])) &&
      NUL in str[..] && Str(str[..]) == t && FromSignedText(Str(str[..]), base) == value
  {
    if str == null {
      return 0;
    }
    KString.Itoa(value, str, base);
    return 1;
  }

  /** uitoa: 0 for a NULL buffer; otherwise the text of kernel/string.c's uitoa and 1. */
  method Uitoa(value: U32, str: array?<Byte>, base: int) returns (r: int)
    requires 2 <= base <= 36
    requires str != null ==> |Digits(value, base)| < str.Length
    modifies str
    ensures r == if str == null then 0 else 1
    ensures str != null ==>
      var t := Digits(value, base);
      str[..|t| + 1] == t + [NUL] && (forall k :: |t| < k < str.Length ==> str[k] == old(str[k])) &&
      NUL in str[..] && Str(str[..]) == t && FromDigits(Str(str[..]), base) == value
  {
    if str == null {
      return 0;
    }
    KString.Uitoa(value, str, base);
    return 1;
  }

  /** ltoa: long is 32 bits wide on this target, so ltoa is itoa. */
  method Ltoa(value: I32, str: array?<Byte>, base: int) returns (r: int)
    requires 2 <= base <= 36 && value != -I32_LIMIT && (value < 0 ==> base == 10)
    requires str != null ==> |SignedText(value, base)| < str.Length
    modifies str
    ensures r == if str == null then 0 else 1
    ensures str != null ==>
      var t := SignedText(value, base);
      str[..|t| + 1] == t + [NUL] && (forall k :: |t| < k < str.Length ==> str[k] == old(str[k])) &&
      NUL in str[..] && Str(str[..]) == t && FromSignedText(Str(str[..]), base) == value
  {
    r := Itoa(value, str, base);
  }

  /** ultoa: unsigned long is 32 bits wide on this target, so ultoa is uitoa. */
  method Ultoa(value: U32, str: array?<Byte>, base: int) returns (r: int)
    requires 2 <= base <= 36
    requires str != null ==> |Digits(value, base)| < str.Length
    modifies str
    ensures r == if str == null then 0 else 1
    ensures str != null ==>
      var t := Digits(value, base);
      str[..|t| + 1] == t + [NUL] && (forall k :: |t| < k < str.Length ==> str[k] == old(str[k])) &&
      NUL in str[..] && Str(str[..]) == t && FromDigits(Str(str[..]), base) == value
  {
    r := Uitoa(value, str, base);
  }
}
