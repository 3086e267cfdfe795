/**
 * The few C runtime routines the tool leans on. A wide string is a sequence
 * of characters, not of UTF-16 code units, and only the ASCII behaviour of
 * each routine is modelled:
 *   - _wcsicmp equality (case-insensitive comparison of abbreviations),
 *   - wcstoul(s, NULL, 16) (section 7.22.1.4 of ISO C11, wide form in 7.29.4.1.2),
 *   - printf's "%08x" conversion (used to print a flag value),
 *   - StringCchCopy into a fixed buffer (truncation).
 */
module CRuntime {
  import opened FlagDefs

  /** ASCII case folding as _wcsicmp applies it: 'A'..'Z' become 'a'..'z'. */
  function ToLower(c: char): (r: char)
    ensures 'A' <= c <= 'Z' ==> 'a' <= r <= 'z' && r as int - c as int == 32
    ensures !('A' <= c <= 'Z') ==> r == c
  {
    if 'A' <= c <= 'Z' then (c as int + 32) as char else c
  }

  /** _wcsicmp(a, b) == 0: same length and equal character by character after folding. */
  predicate EqualsIgnoreCase(a: string, b: string)
  {
    |a| == |b| && forall i :: 0 <= i < |a| ==> ToLower(a[i]) == ToLower(b[i])
  }

  /** A string that folding leaves unchanged (no upper-case ASCII letter). */
  predicate IsFolded(s: string)
  {
    forall i :: 0 <= i < |s| ==> ToLower(s[i]) == s[i]
  }

  /** The folded form of a string. */
  function Fold(s: string): (r: string)
    ensures |r| == |s| && IsFolded(r)
    ensures forall i :: 0 <= i < |s| ==> r[i] == ToLower(s[i])
  {
    seq(|s|, i requires 0 <= i < |s| => ToLower(s[i]))
  }

  /** Case-insensitive equality is equality of the folded forms. */
  lemma EqualsIgnoreCaseIffFoldsEqual(a: string, b: string)
    ensures EqualsIgnoreCase(a, b) <==> Fold(a) == Fold(b)
  {
    if Fold(a) == Fold(b) {
      assert |a| == |b|;
      forall i | 0 <= i < |a| ensures ToLower(a[i]) == ToLower(b[i]) {
        assert Fold(a)[i] == Fold(b)[i];
      }
    }
  }

  /** Between two strings without upper-case letters, case-insensitive equality is plain equality. */
  lemma EqualsIgnoreCaseOfFolded(a: string, b: string)
    requires IsFolded(a) && IsFolded(b)
    ensures EqualsIgnoreCase(a, b) <==> a == b
  {
    if EqualsIgnoreCase(a, b) {
      assert forall i :: 0 <= i < |a| ==> a[i] == ToLower(a[i]) == ToLower(b[i]) == b[i];
    }
  }

  // ---------------------------------------------------------------------
  // wcstoul(s, NULL, 16)

  /** The largest unsigned long (32 bits on Windows): ULONG_MAX. */
  const ULongMax: DWord := 0xFFFF_FFFF

  /** iswspace in the "C" locale. */
  predicate IsSpace(c: char)
  {
    c == ' ' || c == '\t' || c == '\n' || c == '\U{000B}' || c == '\U{000C}' || c == '\r'
  }

  predicate IsHexDigit(c: char)
  {
    ('0' <= c <= '9') || ('a' <= c <= 'f') || ('A' <= c <= 'F')
  }

  function DigitValue(c: char): (d: nat)
    requires IsHexDigit(c)
    ensures d < 16
  {
    if '0' <= c <= '9' then c as int - '0' as int
    else if 'a' <= c <= 'f' then c as int - 'a' as int + 10
    else c as int - 'A' as int + 10
  }

  predicate AllHexDigits(s: string)
  {
    forall i :: 0 <= i < |s| ==> IsHexDigit(s[i])
  }

  /** s without its leading white space. */
  function SkipSpace(s: string): string
  {
    if s != [] && IsSpace(s[0]) then SkipSpace(s[1..]) else s
  }

  /** SkipSpace drops exactly the white space in front: a suffix of s, preceded only by white space, not starting with it. */
  lemma {:induction false} SkipSpaceDropsLeadingSpace(s: string)
    ensures var r := SkipSpace(s);
      |r| <= |s| && r == s[|s| - |r|..] && (r == [] || !IsSpace(r[0]))
      && forall i :: 0 <= i < |s| - |r| ==> IsSpace(s[i])
  {
    if s != [] && IsSpace(s[0]) {
      var t := s[1..];
      SkipSpaceDropsLeadingSpace(t);
      var r := SkipSpace(t);
      assert SkipSpace(s) == r;
      assert t[|t| - |r|..] == s[|s| - |r|..];
      forall i | 0 <= i < |s| - |r| ensures IsSpace(s[i]) {
        if i > 0 {
          assert s[i] == t[i - 1];
        }
      }
    }
  }

  /** The longest prefix of s made of hexadecimal digits. */
  function HexRun(s: string): string
  {
    if s != [] && IsHexDigit(s[0]) then [s[0]] + HexRun(s[1..]) else []
  }

  /** HexRun is a prefix of s made of hex digits that stops at the first non-digit. */
  lemma {:induction false} HexRunIsLongestDigitPrefix(s: string)
    ensures var r := HexRun(s);
      |r| <= |s| && r == s[..|r|] && AllHexDigits(r) && (|r| == |s| || !IsHexDigit(s[|r|]))
  {
    if s != [] && IsHexDigit(s[0]) {
      HexRunIsLongestDigitPrefix(s[1..]);
    }
  }

  /** The value of a string of hexadecimal digits, most significant first (unbounded). */
  function HexValue(ds: string): nat
    requires AllHexDigits(ds)
  {
    if ds == [] then 0 else HexValue(ds[..|ds| - 1]) * 16 + DigitValue(ds[|ds| - 1])
  }

  /** An optional "0x"/"0X" is part of the subject sequence only when a hex digit follows it. */
  function StripHexPrefix(u: string): string
  {
    if |u| >= 3 && u[0] == '0' && (u[1] == 'x' || u[1] == 'X') && IsHexDigit(u[2]) then u[2..] else u
  }

  /** The digits wcstoul reads: after white space, an optional sign and an optional 0x prefix. */
  function SubjectDigits(s: string): (ds: string)
    ensures AllHexDigits(ds)
  {
    var t := SkipSpace(s);
    var u := if t != [] && (t[0] == '+' || t[0] == '-') then t[1..] else t;
    HexRunIsLongestDigitPrefix(StripHexPrefix(u));
    HexRun(StripHexPrefix(u))
  }

  /** The subject sequence carries a '-' sign. */
  predicate IsNegated(s: string)
  {
    var t := SkipSpace(s);
    t != [] && t[0] == '-'
  }

  /** The 32-bit result for an unbounded digit value: saturate, then negate if asked. */
  function Convert(v: nat, negative: bool): DWord
  {
    if v > ULongMax as int then ULongMax
    else if negative then 0 - (v as DWord)
    else v as DWord
  }

  /**
   * wcstoul(s, NULL, 16): skip white space, take an optional sign and an
   * optional 0x prefix, read the longest run of hex digits (none reads as 0);
   * a value above ULONG_MAX saturates to ULONG_MAX, otherwise a '-' sign
   * negates it modulo 2^32.
   */
  function Wcstoul16(s: string): DWord
  {
    Convert(HexValue(SubjectDigits(s)), IsNegated(s))
  }

  lemma {:induction false} HexRunOfDigits(s: string)
    requires AllHexDigits(s)
    ensures HexRun(s) == s
  {
    if s != [] {
      HexRunOfDigits(s[1..]);
    }
  }

  /** A non-empty string of hex digits is its own subject sequence, unsigned. */
  lemma SubjectOfDigits(s: string)
    requires s != [] && AllHexDigits(s)
    ensures SubjectDigits(s) == s && !IsNegated(s)
  {
    assert SkipSpace(s) == s;
    assert StripHexPrefix(s) == s;
    HexRunOfDigits(s);
  }

  /** A string of hex digits parses to its value when that value fits in 32 bits. */
  lemma Wcstoul16OfDigits(s: string)
    requires s != [] && AllHexDigits(s) && HexValue(s) <= ULongMax as int
    ensures Wcstoul16(s) == HexValue(s) as DWord
  {
    SubjectOfDigits(s);
  }

  /** A string of hex digits whose value exceeds 32 bits saturates to ULONG_MAX. */
  lemma Wcstoul16Saturates(s: string)
    requires s != [] && AllHexDigits(s) && HexValue(s) > ULongMax as int
    ensures Wcstoul16(s) == ULongMax
  {
    SubjectOfDigits(s);
  }

  /** A '-' in front of an in-range digit string negates the value modulo 2^32. */
  lemma Wcstoul16Negates(s: string)
    requires s != [] && AllHexDigits(s) && HexValue(s) <= ULongMax as int
    ensures Wcstoul16("-" + s) == 0 - Wcstoul16(s)
  {
    SubjectOfDigits(s);
    SubjectOfNegatedDigits(s);
    ConvertNegated(HexValue(s));
  }

  lemma SubjectOfNegatedDigits(s: string)
    requires s != [] && AllHexDigits(s)
    ensures SubjectDigits("-" + s) == s && IsNegated("-" + s)
  {
    var m := "-" + s;
    assert SkipSpace(m) == m;
    assert m[1..] == s;
    assert StripHexPrefix(s) == s;
    HexRunOfDigits(s);
  }

  lemma ConvertNegated(v: nat)
    requires v <= ULongMax as int
    ensures Convert(v, true) == 0 - Convert(v, false)
  {
  }

  /** A string that starts with neither white space, a sign nor a hex digit parses as 0. */
  lemma Wcstoul16NoDigits(s: string)
    requires s != [] && !IsSpace(s[0]) && s[0] != '+' && s[0] != '-' && !IsHexDigit(s[0])
    ensures Wcstoul16(s) == 0
  {
    assert SkipSpace(s) == s;
    assert StripHexPrefix(s) == s;
    assert SubjectDigits(s) == [];
  }

  /** Once the subject digits of s are known and unsigned, wcstoul returns their value. */
  lemma Wcstoul16OfSubject(s: string, ds: string)
    requires AllHexDigits(ds) && HexValue(ds) <= ULongMax as int
    requires SubjectDigits(s) == ds && !IsNegated(s)
    ensures Wcstoul16(s) == HexValue(ds) as DWord
  {
  }

  /** The run of digits stops at the first character that is not a hex digit. */
  lemma {:induction false} HexRunStopsAt(ds: string, rest: string)
    requires AllHexDigits(ds) && (rest == [] || !IsHexDigit(rest[0]))
    ensures HexRun(ds + rest) == ds
  {
    if ds == [] {
      assert ds + rest == rest;
    } else {
      assert (ds + rest)[1..] == ds[1..] + rest;
      HexRunStopsAt(ds[1..], rest);
    }
  }

  /** Whatever follows the digits (other than an "x" that would make a 0x prefix) is ignored. */
  lemma Wcstoul16IgnoresTrailing(ds: string, rest: string)
    requires ds != [] && AllHexDigits(ds) && HexValue(ds) <= ULongMax as int
    requires rest == [] || (!IsHexDigit(rest[0]) && rest[0] != 'x' && rest[0] != 'X')
    ensures Wcstoul16(ds + rest) == HexValue(ds) as DWord
  {
    var s := ds + rest;
    assert s[0] == ds[0];
    assert SkipSpace(s) == s;
    assert |s| >= 2 ==> s[1] == (if |ds| >= 2 then ds[1] else rest[0]);
    assert StripHexPrefix(s) == s;
    HexRunStopsAt(ds, rest);
    Wcstoul16OfSubject(s, ds);
  }

  /** A "0x" or "0X" prefix in front of the digits is skipped, and what follows the digits is ignored. */
  lemma Wcstoul16SkipsHexPrefix(x: char, ds: string, rest: string)
    requires x == 'x' || x == 'X'
    requires ds != [] && AllHexDigits(ds) && HexValue(ds) <= ULongMax as int
    requires rest == [] || !IsHexDigit(rest[0])
    ensures Wcstoul16(['0', x] + ds + rest) == HexValue(ds) as DWord
  {
    var u := ds + rest;
    var s := ['0', x] + u;
    assert ['0', x] + ds + rest == s;
    var c := ds[0];
    assert IsHexDigit(c);
    assert u[0] == c;
    assert s[2..] == u && s[2] == c;
    assert StripHexPrefix(s) == u;
    assert SkipSpace(s) == s;
    HexRunStopsAt(ds, rest);
    Wcstoul16OfSubject(s, ds);
  }

  /** A "0x" not followed by a hex digit is no prefix: the '0' alone is read. */
  lemma Wcstoul16BarePrefix(x: char, rest: string)
    requires x == 'x' || x == 'X'
    requires rest == [] || !IsHexDigit(rest[0])
    ensures Wcstoul16(['0', x] + rest) == 0
  {
    var s := ['0', x] + rest;
    assert SkipSpace(s) == s;
    assert StripHexPrefix(s) == s;
    HexRunStopsAt("0", [x] + rest);
    assert s == "0" + ([x] + rest);
  }

  /** "0x1F" reads 0x1F. */
  lemma Wcstoul16ExampleHex(s: string)
    requires s == "0x1F"
    ensures Wcstoul16(s) == 0x1F
  {
    var ds := "1F";
    assert ds[..1] == "1" && "1"[..0] == [];
    assert HexValue(ds) == 0x1F;
    assert s == ['0', 'x'] + ds + [];
    Wcstoul16SkipsHexPrefix('x', ds, []);
  }

  /** "1g2" stops at the 'g' and reads 1. */
  lemma Wcstoul16ExampleStops()
    ensures Wcstoul16("1g2") == 1
  {
    assert "1"[..0] == [];
    assert HexValue("1") == 1;
    Wcstoul16IgnoresTrailing("1", "g2");
    assert "1" + "g2" == "1g2";
  }

  /** "0xg" reads just the '0'. */
  lemma Wcstoul16ExampleBarePrefix()
    ensures Wcstoul16("0xg") == 0
  {
    Wcstoul16BarePrefix('x', "g");
    assert ['0', 'x'] + "g" == "0xg";
  }

  // ---------------------------------------------------------------------
  // printf("%08x")

  function Pow16(n: nat): (p: nat)
    ensures p >= 1
  {
    if n == 0 then 1 else 16 * Pow16(n - 1)
  }

  /** The lower-case hex digit for d. */
  function HexChar(d: nat): (c: char)
    requires d < 16
    ensures IsHexDigit(c) && DigitValue(c) == d
    ensures c != 'x' && c != 'X'
  {
    "0123456789abcdef"[d]
  }

  /** v written with exactly `width` lower-case hex digits, zero-padded. */
  function FormatHex(v: nat, width: nat): (r: string)
    requires v < Pow16(width)
    ensures |r| == width && AllHexDigits(r)
    ensures forall i :: 0 <= i < |r| ==> r[i] != 'x' && r[i] != 'X'
  {
    if width == 0 then [] else FormatHex(v / 16, width - 1) + [HexChar(v % 16)]
  }

  /** Reading the digits FormatHex writes gives back the value. */
  lemma {:induction false} HexValueOfFormatHex(v: nat, width: nat)
    requires v < Pow16(width)
    ensures HexValue(FormatHex(v, width)) == v
  {
    if width > 0 {
      var r := FormatHex(v, width);
      assert v / 16 < Pow16(width - 1);
      HexValueOfFormatHex(v / 16, width - 1);
      assert r[..|r| - 1] == FormatHex(v / 16, width - 1);
      assert r[|r| - 1] == HexChar(v % 16);
      assert HexValue(r) == HexValue(FormatHex(v / 16, width - 1)) * 16 + v % 16;
    }
  }

  /** printf("%08x", v): eight lower-case hex digits. */
  function FormatHex08(v: DWord): string
  {
    assert Pow16(8) == 0x1_0000_0000;
    FormatHex(v as int, 8)
  }

  /** Round trip: what "%08x" prints, wcstoul(…, 16) reads back unchanged. */
  lemma Wcstoul16OfFormatHex08(v: DWord)
    ensures Wcstoul16(FormatHex08(v)) == v
  {
    assert Pow16(8) == 0x1_0000_0000;
    var s := FormatHex08(v);
    HexValueOfFormatHex(v as int, 8);
    Wcstoul16OfDigits(s);
  }

  // ---------------------------------------------------------------------
  // StringCchCopy

  /** StringCchCopy into a buffer of `capacity` characters keeps at most capacity - 1 of them. */
  function CopyTruncated(s: string, capacity: nat): (r: string)
    requires capacity > 0
    ensures |r| == if |s| < capacity then |s| else capacity - 1
    ensures r == s[..|r|]
  {
    if |s| < capacity then s else s[..capacity - 1]
  }
}
