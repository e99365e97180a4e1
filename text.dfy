/**
 * Text helpers shared by the formatters: JavaScript's Number#toString for
 * non-negative integers, parseInt(s, 10) for a string of ASCII digits,
 * String#padStart(2, '0'), Array#join, and the UTF-16 code units that
 * JavaScript's length, indices and substring count.
 */
module Text {

  predicate IsDigit(c: char) { '0' <= c <= '9' }

  predicate IsDigits(s: string) { forall i :: 0 <= i < |s| ==> IsDigit(s[i]) }

  function DigitChar(d: nat): (c: char)
    requires d < 10
    ensures IsDigit(c) && DigitValue(c) == d
  {
    (('0' as int) + d) as char
  }

  function DigitValue(c: char): (d: nat)
    requires IsDigit(c)
    ensures d < 10
  {
    c as int - '0' as int
  }

  /** The decimal rendering of n, without leading zeros. */
  function NatToString(n: nat): (s: string)
    ensures 1 <= |s| && IsDigits(s)
    ensures |s| == 1 <==> n < 10
    ensures s[0] == '0' ==> n == 0
    decreases n
  {
    if n < 10 then [DigitChar(n)] else NatToString(n / 10) + [DigitChar(n % 10)]
  }

  /** The value of a string of decimal digits, most significant first. */
  function ParseDigits(s: string): (n: nat)
    requires IsDigits(s)
  {
    if s == [] then 0 else 10 * ParseDigits(s[..|s| - 1]) + DigitValue(s[|s| - 1])
  }

  /** Left-pads s with '0' to length 2; longer strings are unchanged. */
  function PadStart2(s: string): (r: string)
    ensures |s| >= 2 ==> r == s
    ensures |s| < 2 ==> |r| == 2 && r[2 - |s|..] == s && forall i :: 0 <= i < 2 - |s| ==> r[i] == '0'
  {
    if |s| >= 2 then s else if |s| == 1 then "0" + s else "00"
  }

  /** Parsing the rendering of a number gives the number back. */
  lemma {:induction false} ParseNatToString(n: nat)
    ensures ParseDigits(NatToString(n)) == n
    decreases n
  {
    var s := NatToString(n);
    if n >= 10 {
      ParseNatToString(n / 10);
      assert s[..|s| - 1] == NatToString(n / 10);
    }
  }

  /** A digit string whose first digit is not '0' has a positive value. */
  lemma {:induction false} ParseDigitsPositive(s: string)
    requires IsDigits(s) && 1 <= |s| && s[0] != '0'
    ensures ParseDigits(s) >= 1
  {
    if |s| > 1 {
      ParseDigitsPositive(s[..|s| - 1]);
    }
  }

  /** Rendering the value of a digit string without a leading zero gives the string back. */
  lemma {:induction false} NatToStringParse(s: string)
    requires IsDigits(s) && 1 <= |s| && s[0] != '0'
    ensures NatToString(ParseDigits(s)) == s
  {
    if |s| > 1 {
      var init := s[..|s| - 1];
      ParseDigitsPositive(init);
      NatToStringParse(init);
      var n := ParseDigits(s);
      assert n / 10 == ParseDigits(init) && n % 10 == DigitValue(s[|s| - 1]);
      assert s == init + [s[|s| - 1]];
    }
  }

  /** A number below 100, rendered and zero-padded, is two digits that parse back to it. */
  lemma PadTwoDigitsValue(n: nat)
    requires n < 100
    ensures var r := PadStart2(NatToString(n));
            |r| == 2 && IsDigits(r) && ParseDigits(r) == n
  {
    var r := PadStart2(NatToString(n));
    ParseNatToString(n);
    if n < 10 {
      assert r == "0" + NatToString(n);
      assert r[..1] == "0";
      assert ParseDigits("0") == 0;
    }
  }

  /** Zero-padding the value of a one- or two-digit string restores two digits. */
  lemma PadParseTwoDigits(s: string)
    requires IsDigits(s) && 1 <= |s| <= 2
    ensures PadStart2(NatToString(ParseDigits(s))) == if |s| == 2 then s else "0" + s
  {
    if |s| == 2 && s[0] == '0' {
      var t := s[1..];
      assert s[..1] == "0";
      assert ParseDigits(s) == ParseDigits(t) by {
        assert s[..|s| - 1] == "0";
        assert t[..|t| - 1] == [];
      }
      assert ParseDigits(t) == DigitValue(s[1]);
      assert NatToString(ParseDigits(t)) == t;
      assert "0" + t == s;
    } else if s[0] == '0' {
      assert ParseDigits(s) == 0 by { assert s[..|s| - 1] == []; }
    } else {
      NatToStringParse(s);
    }
  }

  /** Array#join(sep) over strings. */
  function JoinWith(parts: seq<string>, sep: string): (r: string)
    ensures parts == [] ==> r == ""
    ensures |parts| >= 1 ==> |r| >= |parts[0]| && r[..|parts[0]|] == parts[0]
    ensures |parts| >= 1 ==> |r| >= |parts[|parts| - 1]| && r[|r| - |parts[|parts| - 1]|..] == parts[|parts| - 1]
  {
    if parts == [] then ""
    else if |parts| == 1 then parts[0]
    else
      var tail := JoinWith(parts[1..], sep);
      assert parts[1..][|parts| - 2] == parts[|parts| - 1];
      parts[0] + sep + tail
  }

  /** Concatenation regroups to the left. */
  lemma Regroup(a: string, b: string, c: string, d: string)
    ensures a + (b + c + d) == a + b + c + d
  {
  }

  /** Joining one more string appends the separator and that string. */
  lemma {:induction false} JoinWithAppend(parts: seq<string>, sep: string, last: string)
    requires parts != []
    ensures JoinWith(parts + [last], sep) == JoinWith(parts, sep) + sep + last
    decreases |parts|
  {
    var ps := parts + [last];
    if |parts| == 1 {
      assert ps[1..] == [last];
      assert JoinWith(ps, sep) == parts[0] + sep + last;
    } else {
      assert ps[1..] == parts[1..] + [last];
      var tail := JoinWith(parts[1..], sep);
      assert JoinWith(ps, sep) == parts[0] + sep + JoinWith(parts[1..] + [last], sep);
      JoinWithAppend(parts[1..], sep, last);
      assert JoinWith(ps, sep) == parts[0] + sep + (tail + sep + last);
      assert JoinWith(parts, sep) == parts[0] + sep + tail;
      Regroup(parts[0] + sep, tail, sep, last);
    }
  }

  /** A UTF-16 code unit: what a JavaScript string is a sequence of. */
  newtype CodeUnit = x: int | 0 <= x < 0x1_0000

  /** A JavaScript string: `length`, indices, `substring` and `lastIndexOf` count these units. */
  type Utf16 = seq<CodeUnit>

  predicate IsHighSurrogate(u: CodeUnit) { 0xD800 <= u < 0xDC00 }

  predicate IsLowSurrogate(u: CodeUnit) { 0xDC00 <= u < 0xE000 }

  /** One character in UTF-16: itself below U+10000, otherwise a surrogate pair. */
  function EncodeChar(c: char): (r: Utf16)
    ensures c as int < 0x1_0000 ==> r == [c as int as CodeUnit]
    ensures c as int >= 0x1_0000 ==> |r| == 2 && IsHighSurrogate(r[0]) && IsLowSurrogate(r[1])
  {
    var v := c as int;
    if v < 0x1_0000 then [v as CodeUnit]
    else
      var w := v - 0x1_0000;
      [(0xD800 + w / 0x400) as CodeUnit, (0xDC00 + w % 0x400) as CodeUnit]
  }

  /** The UTF-16 encoding of a string. */
  function Utf16Of(s: string): (r: Utf16)
    ensures |r| >= |s|
  {
    if s == [] then [] else EncodeChar(s[0]) + Utf16Of(s[1..])
  }

  /** Characters of the Basic Multilingual Plane take one code unit each. */
  predicate InBmp(s: string) { forall i :: 0 <= i < |s| ==> s[i] as int < 0x1_0000 }

  /** A string of the Basic Multilingual Plane is one code unit per character, each unit the character's value. */
  lemma {:induction false} BmpUnits(s: string)
    requires InBmp(s)
    ensures |Utf16Of(s)| == |s|
    ensures forall i :: 0 <= i < |s| ==> Utf16Of(s)[i] as int == s[i] as int
  {
    if s != [] {
      BmpUnits(s[1..]);
      var r := Utf16Of(s);
      assert r == [s[0] as int as CodeUnit] + Utf16Of(s[1..]);
      forall i | 0 <= i < |s| ensures r[i] as int == s[i] as int {
        if i > 0 {
          assert r[i] == Utf16Of(s[1..])[i - 1] && s[1..][i - 1] == s[i];
        }
      }
    }
  }

  /** A text whose characters agree one for one with the units u encodes to u. */
  lemma BmpUnitsAre(s: string, u: Utf16)
    requires |s| == |u| && forall i :: 0 <= i < |s| ==> s[i] as int == u[i] as int
    ensures Utf16Of(s) == u
  {
    BmpUnits(s);
  }

  /** Encoding distributes over concatenation. */
  lemma {:induction false} Utf16OfAppend(a: string, b: string)
    ensures Utf16Of(a + b) == Utf16Of(a) + Utf16Of(b)
    decreases |a|
  {
    if a != [] {
      assert (a + b)[0] == a[0] && (a + b)[1..] == a[1..] + b;
      Utf16OfAppend(a[1..], b);
    } else {
      assert a + b == b;
    }
  }
}
