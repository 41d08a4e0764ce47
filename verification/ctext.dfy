/**
 * The C library string behaviour the modem code relies on: the NUL-terminated
 * view of a buffer, `strtoul` (BSD/newlib flavour, 32-bit `unsigned long`),
 * `itoa` in base 10, `strchr`, the space skipping of `skipWhiteSpace`, and the
 * truncating copy done with `strncpy` plus a forced terminator.
 */
module CText {
  import opened Machine
  import opened Options

  const NUL: char := 0 as char

  /** What `strcmp` and friends see of a buffer: the characters before the first NUL. */
  function CStr(s: string): (r: string)
    ensures r <= s
    ensures NUL !in r
    ensures |r| < |s| ==> s[|r|] == NUL
  {
    if |s| == 0 || s[0] == NUL then [] else [s[0]] + CStr(s[1..])
  }

  predicate NulFree(s: string)
  {
    NUL !in s
  }

  lemma {:induction false} CStrOfNulFree(s: string)
    requires NulFree(s)
    ensures CStr(s) == s
  {
    if |s| > 0 {
      assert s[1..] <= s[1..];
      CStrOfNulFree(s[1..]);
      assert s == [s[0]] + s[1..];
    }
  }

  /** The character `strcmp` sees at position `k`: NUL from the terminator on. */
  function CharAt(s: string, k: nat): char
  {
    var c := CStr(s);
    if k < |c| then c[k] else NUL
  }

  /** `strcmp(a, b) == 0`. */
  predicate StrEq(a: string, b: string)
  {
    CStr(a) == CStr(b)
  }

  /** `strncmp(a, b, n) == 0`: the first `n` characters agree, a shared NUL ending the comparison. */
  predicate StrNEq(a: string, b: string, n: nat)
  {
    forall k :: 0 <= k < n ==> CharAt(a, k) == CharAt(b, k)
  }

  /** `strncmp(line, msg, strlen(msg)) == 0` says exactly that `msg` starts the C string in `line`. */
  lemma StrNEqIsPrefix(line: string, msg: string)
    requires NulFree(msg)
    ensures StrNEq(line, msg, |msg|) <==> msg <= CStr(line)
  {
    CStrOfNulFree(msg);
    var c := CStr(line);
    if StrNEq(line, msg, |msg|) {
      if |msg| > 0 {
        assert CharAt(line, |msg| - 1) == msg[|msg| - 1];
        assert |msg| <= |c|;
      }
      forall k | 0 <= k < |msg|
        ensures c[k] == msg[k]
      {
        assert CharAt(line, k) == CharAt(msg, k);
      }
    }
  }

  /** With a C-string literal on the right, `strcmp` equality is equality of the C string. */
  lemma StrEqLiteral(a: string, lit: string)
    requires NulFree(lit)
    ensures StrEq(a, lit) <==> CStr(a) == lit
  {
    CStrOfNulFree(lit);
  }

  /** `skipWhiteSpace`: step over leading `' '` characters (and only those). */
  function SkipSpaces(s: string): (r: string)
    ensures |r| <= |s| && r == s[|s| - |r|..]
    ensures forall i :: 0 <= i < |s| - |r| ==> s[i] == ' '
    ensures |r| > 0 ==> r[0] != ' '
    ensures NulFree(s) ==> NulFree(r)
  {
    if |s| > 0 && s[0] == ' ' then SkipSpaces(s[1..]) else s
  }

  lemma {:induction false} SkipBlanks(sp: string, s: string)
    requires forall i :: 0 <= i < |sp| ==> sp[i] == ' '
    requires |s| == 0 || s[0] != ' '
    ensures SkipSpaces(sp + s) == s
    decreases |sp|
  {
    if |sp| > 0 {
      assert (sp + s)[0] == ' ';
      assert (sp + s)[1..] == sp[1..] + s;
      SkipBlanks(sp[1..], s);
    } else {
      assert sp + s == s;
    }
  }

  /** Blanks in front of text that is not blank are skipped the same way whatever follows. */
  lemma SkipSpacesPrefix(x: string, y: string)
    requires |SkipSpaces(x)| > 0
    ensures SkipSpaces(x + y) == SkipSpaces(x) + y
  {
    var n := |x| - |SkipSpaces(x)|;
    assert x[..n] + x[n..] == x;
    SkipAfterBlanks(x[..n], x[n..], y);
  }

  lemma SkipAfterBlanks(sp: string, r: string, y: string)
    requires forall i :: 0 <= i < |sp| ==> sp[i] == ' '
    requires |r| > 0 && r[0] != ' '
    ensures SkipSpaces(sp + r + y) == r + y
  {
    assert sp + r + y == sp + (r + y);
    SkipBlanks(sp, r + y);
  }

  /** `strncpy(dst, src, size - 1); dst[size - 1] = '\0'` read back as a C string. */
  function CopyTruncated(src: string, size: nat): (r: string)
    requires size >= 1
    ensures |r| <= size - 1
    ensures r <= src
    ensures |src| <= size - 1 ==> r == src
    ensures |r| > 0 ==> r[0] == src[0]
    ensures NulFree(src) ==> NulFree(r)
  {
    if |src| <= size - 1 then src else src[..size - 1]
  }

  // ---------------------------------------------------------------------
  // strtoul
  // ---------------------------------------------------------------------

  /** `isspace` in the "C" locale. */
  predicate IsSpace(c: char)
  {
    c == ' ' || c == '\t' || c == '\n' || c == '\r' || c == 11 as char || c == 12 as char
  }

  predicate IsDecimalDigit(c: char)
  {
    '0' <= c <= '9'
  }

  /** Digit value of an alphanumeric character; 36 for anything else. */
  function DigitValue(c: char): (r: nat)
    ensures r <= 36
    ensures r < 10 <==> IsDecimalDigit(c)
  {
    if '0' <= c <= '9' then c as int - '0' as int
    else if 'a' <= c <= 'z' then c as int - 'a' as int + 10
    else if 'A' <= c <= 'Z' then c as int - 'A' as int + 10
    else 36
  }

  function DropSpaces(s: string): (r: string)
    ensures |r| <= |s| && r == s[|s| - |r|..]
    ensures |r| > 0 ==> !IsSpace(r[0])
  {
    if |s| > 0 && IsSpace(s[0]) then DropSpaces(s[1..]) else s
  }

  /** Number of leading characters of `w` that are digits in base `b`. */
  function DigitRun(w: string, b: nat): (n: nat)
    ensures n <= |w|
    ensures forall i :: 0 <= i < n ==> DigitValue(w[i]) < b
    ensures n < |w| ==> DigitValue(w[n]) >= b
  {
    if |w| == 0 || DigitValue(w[0]) >= b then 0 else 1 + DigitRun(w[1..], b)
  }

  /** Positional value of a digit string, most significant digit first. */
  function ValueOf(d: string, b: nat): nat
  {
    if |d| == 0 then 0 else ValueOf(d[..|d| - 1], b) * b + DigitValue(d[|d| - 1])
  }

  /** Result of `strtoul`: the value, and how far `endptr` moved (0 = no conversion). */
  datatype Conversion = Conversion(value: u32, used: nat)

  /** The base `strtoul` settles on, given the requested base and the text after the sign. */
  function EffectiveBase(u: string, base: nat): (b: nat)
    requires base == 0 || 2 <= base <= 36
    ensures 2 <= b <= 36
  {
    if HasHexPrefix(u, base) then 16
    else if base == 0 then (if |u| > 0 && u[0] == '0' then 8 else 10)
    else base
  }

  predicate HasHexPrefix(u: string, base: nat)
  {
    (base == 0 || base == 16) && |u| >= 2 && u[0] == '0' && (u[1] == 'x' || u[1] == 'X')
  }

  /** The conversion proper, on text that starts after the leading white space. */
  function ConvertNumber(t: string, base: nat): (r: Conversion)
    requires base == 0 || 2 <= base <= 36
    ensures r.used <= |t|
    ensures r.used == 0 ==> r.value == 0
  {
    var neg := |t| > 0 && t[0] == '-';
    var u := if |t| > 0 && (t[0] == '-' || t[0] == '+') then t[1..] else t;
    var w := if HasHexPrefix(u, base) then u[2..] else u;
    var b := EffectiveBase(u, base);
    var n := DigitRun(w, b);
    if n == 0 then Conversion(0, 0)
    else
      var v := ValueOf(w[..n], b);
      Conversion(if v >= U32Modulus then U32Modulus - 1 else if neg then ToU32(-(v as int)) else v,
                 |t| - |w| + n)
  }

  /**
   * `strtoul(s, &end, base)`: leading white space, an optional sign, a `0x`
   * prefix (base 0 or 16) or a leading `0` (octal, base 0), then the longest
   * run of digits. A value beyond `ULONG_MAX` saturates; a minus sign negates
   * modulo 2^32. Without a digit nothing is consumed.
   */
  function Strtoul(s: string, base: nat): (r: Conversion)
    requires base == 0 || 2 <= base <= 36
    ensures r.used <= |s|
    ensures r.used == 0 ==> r.value == 0
  {
    var t := DropSpaces(s);
    var c := ConvertNumber(t, base);
    if c.used == 0 then c else c.(used := c.used + (|s| - |t|))
  }

  // ---------------------------------------------------------------------
  // itoa (base 10)
  // ---------------------------------------------------------------------

  function DigitChar(d: nat): (c: char)
    requires d < 10
    ensures IsDecimalDigit(c) && DigitValue(c) == d
  {
    ('0' as int + d) as char
  }

  /** Decimal digits of a natural number, without leading zeros. */
  function NatDigits(n: nat): (r: string)
    ensures |r| >= 1
    ensures forall i :: 0 <= i < |r| ==> IsDecimalDigit(r[i])
    decreases n
  {
    if n < 10 then [DigitChar(n)] else NatDigits(n / 10) + [DigitChar(n % 10)]
  }

  /** `itoa(n, buf, 10)`. */
  function Itoa(n: int): string
  {
    if n < 0 then "-" + NatDigits(-n) else NatDigits(n)
  }

  lemma {:induction false} NatDigitsValue(n: nat)
    ensures ValueOf(NatDigits(n), 10) == n
    decreases n
  {
    var d := NatDigits(n);
    if n >= 10 {
      NatDigitsValue(n / 10);
      assert d[..|d| - 1] == NatDigits(n / 10);
    }
  }

  lemma {:induction false} NatDigitsLeading(n: nat)
    ensures NatDigits(n)[0] == '0' <==> n == 0
    decreases n
  {
    if n >= 10 {
      NatDigitsLeading(n / 10);
    }
  }

  lemma {:induction false} DigitRunOverDigits(d: string, rest: string, b: nat)
    requires forall i :: 0 <= i < |d| ==> DigitValue(d[i]) < b
    requires |rest| == 0 || DigitValue(rest[0]) >= b
    ensures DigitRun(d + rest, b) == |d|
  {
    if |d| > 0 {
      assert (d + rest)[1..] == d[1..] + rest;
      DigitRunOverDigits(d[1..], rest, b);
    }
  }

  lemma DropSpacesOfDigits(d: string, rest: string)
    requires |d| > 0 && IsDecimalDigit(d[0])
    ensures DropSpaces(d + rest) == d + rest
  {
    assert (d + rest)[0] == d[0];
  }

  /** A run of digits of the base `strtoul` settles on, with no sign or prefix in front. */
  lemma ConvertPlainDigits(d: string, rest: string, base: nat, b: nat)
    requires base == 0 || 2 <= base <= 36
    requires |d| > 0 && d[0] != '-' && d[0] != '+'
    requires !HasHexPrefix(d + rest, base) && EffectiveBase(d + rest, base) == b
    requires forall i :: 0 <= i < |d| ==> DigitValue(d[i]) < b
    requires |rest| == 0 || DigitValue(rest[0]) >= b
    requires ValueOf(d, b) < U32Modulus
    ensures ConvertNumber(d + rest, base) == Conversion(ValueOf(d, b), |d|)
  {
    var s := d + rest;
    assert s[0] == d[0];
    DigitRunOverDigits(d, rest, b);
    assert s[..|d|] == d;
  }

  /**
   * `strtoul` reads back what `itoa` wrote: a decimal numeral below 2^32
   * followed by anything that is not alphanumeric parses to the number, in
   * base 10 and in the auto-detecting base 0.
   */
  lemma StrtoulReadsItoa(n: nat, rest: string, base: nat)
    requires n < U32Modulus
    requires base == 0 || base == 10
    requires |rest| == 0 || DigitValue(rest[0]) == 36
    ensures Strtoul(NatDigits(n) + rest, base) == Conversion(n, |NatDigits(n)|)
  {
    var d := NatDigits(n);
    var s := d + rest;
    DropSpacesOfDigits(d, rest);
    NatDigitsLeading(n);
    assert s[0] == d[0];
    if n == 0 {
      assert d == "0";
      assert !HasHexPrefix(s, base) by {
        if |s| >= 2 {
          assert s[1] == rest[0];
        }
      }
      assert ValueOf(d, EffectiveBase(s, base)) == 0;
      ConvertPlainDigits(d, rest, base, EffectiveBase(s, base));
    } else {
      assert EffectiveBase(s, base) == 10;
      NatDigitsValue(n);
      ConvertPlainDigits(d, rest, base, 10);
    }
  }

  /** Leading white space is skipped and counted in the consumed length. */
  lemma StrtoulSkipsSpace(c: char, s: string, base: nat)
    requires IsSpace(c)
    requires base == 0 || 2 <= base <= 36
    ensures Strtoul([c] + s, base).value == Strtoul(s, base).value
    ensures Strtoul([c] + s, base).used == (if Strtoul(s, base).used == 0 then 0 else Strtoul(s, base).used + 1)
  {
    assert ([c] + s)[1..] == s;
    assert DropSpaces([c] + s) == DropSpaces(s);
  }

  lemma {:induction false} DropSpacesOfBlanks(sp: string, s: string)
    requires forall i :: 0 <= i < |sp| ==> sp[i] == ' '
    ensures DropSpaces(sp + s) == DropSpaces(s)
    decreases |sp|
  {
    if |sp| > 0 {
      assert (sp + s)[0] == ' ';
      assert (sp + s)[1..] == sp[1..] + s;
      DropSpacesOfBlanks(sp[1..], s);
    } else {
      assert sp + s == s;
    }
  }

  /** Any run of blanks in front of a number is skipped and counted. */
  lemma StrtoulSkipsBlanks(sp: string, s: string, base: nat)
    requires forall i :: 0 <= i < |sp| ==> sp[i] == ' '
    requires base == 0 || 2 <= base <= 36
    requires Strtoul(s, base).used > 0
    ensures Strtoul(sp + s, base) == Strtoul(s, base).(used := Strtoul(s, base).used + |sp|)
  {
    DropSpacesOfBlanks(sp, s);
  }

  /** Without a digit after the optional sign and prefix, nothing is converted. */
  lemma StrtoulNoDigits(s: string, base: nat)
    requires base == 0 || base == 10
    requires |DropSpaces(s)| == 0 || (DigitValue(DropSpaces(s)[0]) == 36 && DropSpaces(s)[0] != '-' && DropSpaces(s)[0] != '+')
    ensures Strtoul(s, base) == Conversion(0, 0)
  {
  }

  /** Position of the first `c` in `s`, if any: `strchr`. */
  function Find(s: string, c: char): (r: Option<nat>)
    ensures r.Some? ==> r.value < |s| && s[r.value] == c && forall i :: 0 <= i < r.value ==> s[i] != c
    ensures r.None? ==> forall i :: 0 <= i < |s| ==> s[i] != c
  {
    if |s| == 0 then None
    else if s[0] == c then Some(0)
    else match Find(s[1..], c)
      case None => None
      case Some(i) => Some(i + 1)
  }

  /** The first `c` in a text whose head has none is the one right after the head. */
  lemma FindAfterHead(head: string, c: char, tail: string)
    requires c !in head
    ensures Find(head + ([c] + tail), c) == Some(|head|)
  {
    var line := head + ([c] + tail);
    assert line[|head|] == c;
    assert forall i :: 0 <= i < |head| ==> line[i] == head[i];
  }
}
