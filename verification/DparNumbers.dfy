/** The operands of rule conditions: strtoull with base 0, section 7.22.1.4 of ISO C, over the whole token. */
module DparNumbers {
  import opened Wire
  import opened DparFields

  // ---- digits -----------------------------------------------------------------------------------------

  /** The value of a digit, letters counting from 10; 36 if it is none. */
  function DigitOf(c: char): nat {
    if '0' <= c <= '9' then c as int - '0' as int
    else if 'a' <= c <= 'z' then c as int - 'a' as int + 10
    else if 'A' <= c <= 'Z' then c as int - 'A' as int + 10
    else 36
  }

  /** How many leading characters are digits of the base. */
  function DigitsLength(s: string, base: nat): (n: nat)
    ensures n <= |s| && forall i :: 0 <= i < n ==> DigitOf(s[i]) < base
    ensures n < |s| ==> DigitOf(s[n]) >= base
  {
    if s == "" || DigitOf(s[0]) >= base then 0 else 1 + DigitsLength(s[1..], base)
  }

  function ValueOf(s: string, base: nat): nat {
    if s == "" then 0 else ValueOf(s[..|s| - 1], base) * base + DigitOf(s[|s| - 1])
  }

  predicate IsSpace(c: char) { c == ' ' || '\t' <= c <= '\r' }

  function SpaceLength(s: string): (n: nat)
    ensures n <= |s|
  {
    if s == "" || !IsSpace(s[0]) then 0 else 1 + SpaceLength(s[1..])
  }

  // ---- strtoull ---------------------------------------------------------------------------------------

  /** The base a prefix selects, and the length of the prefix. */
  function BaseOf(s: string): (r: (nat, nat))
    ensures r.1 <= |s|
  {
    if |s| >= 3 && s[0] == '0' && (s[1] == 'x' || s[1] == 'X') && DigitOf(s[2]) < 16 then (16, 2)
    else if s != "" && s[0] == '0' then (8, 0)
    else (10, 0)
  }

  /** The number and the position behind it: at the start if there is no number. Too large a number gives the largest
      of 64 bits, and a minus sign negates in 64 bits. */
  function Strtoull(s: string): (r: (nat, nat))
    ensures r.0 < TWO_TO_THE_64 && r.1 <= |s|
  {
    var i := SpaceLength(s);
    var signed := i < |s| && (s[i] == '-' || s[i] == '+');
    var j := if signed then i + 1 else i;
    var (base, prefix) := BaseOf(s[j..]);
    var digits := s[j + prefix..];
    var n := DigitsLength(digits, base);
    if n == 0 then (0, 0)
    else
      var v := ValueOf(digits[..n], base);
      var w := if v >= TWO_TO_THE_64 then TWO_TO_THE_64 - 1
               else if signed && s[i] == '-' then (TWO_TO_THE_64 - v) % TWO_TO_THE_64
               else v;
      (w, j + prefix + n)
  }

  /** An operand is a number when the number ends where the token, as a C string, does. */
  function ParseU64(s: string): (v: Option<nat>)
    ensures v.Some? ==> v.value < TWO_TO_THE_64
  {
    if s == "" then None
    else
      var (w, end) := Strtoull(CString(s));
      if end == |CString(s)| then Some(w) else None
  }

  // ---- decimal texts ----------------------------------------------------------------------------------

  predicate IsDecimal(s: string) { s != "" && forall i :: 0 <= i < |s| ==> '0' <= s[i] <= '9' }

  lemma {:induction false} DigitsLengthIs(s: string, base: nat, n: nat)
    requires n <= |s| && (forall i :: 0 <= i < n ==> DigitOf(s[i]) < base) && (n < |s| ==> DigitOf(s[n]) >= base)
    ensures DigitsLength(s, base) == n
    decreases n
  {
    if n > 0 {
      DigitsLengthIs(s[1..], base, n - 1);
    }
  }

  /** A text of one number without sign and blanks. */
  lemma NumberOf(s: string, base: nat, prefix: nat)
    requires s != "" && '\0' !in s && SpaceLength(s) == 0 && s[0] != '-' && s[0] != '+'
    requires BaseOf(s) == (base, prefix) && prefix < |s|
    ensures var n := DigitsLength(s[prefix..], base);
      ParseU64(s) ==
        if n < |s| - prefix then None
        else Some(Min(ValueOf(s[prefix..], base), TWO_TO_THE_64 - 1))
  {
    hide DigitsLength, ValueOf, DigitOf;
    WithoutNul(s);
    assert s[0..] == s;
    var digits := s[prefix..];
    assert digits[..|digits|] == digits;
  }

  lemma DecimalStarts(s: string)
    requires IsDecimal(s)
    ensures '\0' !in s && SpaceLength(s) == 0 && s[0] != '-' && s[0] != '+'
    ensures BaseOf(s) == (if s[0] == '0' then 8 else 10, 0)
    ensures s[0..] == s
  {
  }

  /** Octal and decimal readings of octal digits agree on one significant digit only. */
  lemma {:induction false} OctalIsSmaller(s: string)
    requires forall i :: 0 <= i < |s| ==> '0' <= s[i] <= '7'
    ensures ValueOf(s, 8) <= ValueOf(s, 10) && (ValueOf(s, 8) == ValueOf(s, 10) <==> ValueOf(s, 10) < 8)
  {
    if s != "" {
      OctalIsSmaller(s[..|s| - 1]);
    }
  }

  lemma {:induction false} LargeDigit(s: string, i: nat)
    requires IsDecimal(s) && i < |s|
    ensures ValueOf(s, 10) >= DigitOf(s[i])
    decreases |s|
  {
    if i < |s| - 1 {
      LargeDigit(s[..|s| - 1], i);
    }
  }

  /** A text of decimal digits is read as the number it says exactly when that number fits 64 bits and, if the text
      starts with a zero, is below 8: a leading zero makes it octal. */
  lemma DecimalExactly(s: string)
    requires IsDecimal(s)
    ensures ParseU64(s) == Some(ValueOf(s, 10)) <==>
            ValueOf(s, 10) < TWO_TO_THE_64 && (s[0] == '0' ==> ValueOf(s, 10) < 8)
  {
    hide ValueOf, DigitsLength, ParseU64, BaseOf, SpaceLength;
    DecimalStarts(s);
    if s[0] != '0' {
      DigitsLengthIs(s, 10, |s|);
      NumberOf(s, 10, 0);
    } else {
      var n := DigitsLength(s, 8);
      NumberOf(s, 8, 0);
      if n < |s| {
        LargeDigit(s, n);
      } else {
        OctalIsSmaller(s);
      }
    }
  }

  // ---- writing numbers --------------------------------------------------------------------------------

  function DigitText(d: nat): char
    requires d < 16
  {
    if d < 10 then ('0' as int + d) as char else ('a' as int + (d - 10)) as char
  }

  function NumberText(v: nat, base: nat): (s: string)
    requires 2 <= base <= 16
    ensures s != ""
    decreases v
  {
    if v < base then [DigitText(v)] else NumberText(v / base, base) + [DigitText(v % base)]
  }

  lemma DigitReads(d: nat)
    requires d < 16
    ensures DigitOf(DigitText(d)) == d && DigitText(d) != '\0'
    ensures d < 10 ==> '0' <= DigitText(d) <= '9'
    ensures d != 0 ==> DigitText(d) != '0'
  {
  }

  /** Only digits of the base, and no leading zero unless the number is 0. */
  predicate IsText(s: string, base: nat, v: nat) {
    && s != "" && (if v == 0 then s == "0" else s[0] != '0')
    && forall i :: 0 <= i < |s| ==> DigitOf(s[i]) < base && s[i] != '\0' && (base <= 10 ==> '0' <= s[i] <= '9')
  }

  lemma OneDigit(v: nat, base: nat)
    requires v < base <= 16
    ensures IsText([DigitText(v)], base, v) && ValueOf([DigitText(v)], base) == v
  {
    hide DigitText, DigitOf;
    DigitReads(v);
    ZeroText();
    var s := [DigitText(v)];
    assert s[..|s| - 1] == "";
  }

  lemma OneMore(t: string, d: nat, base: nat, high: nat, v: nat)
    requires d < base <= 16 && high > 0 && v > 0 && IsText(t, base, high)
    ensures IsText(t + [DigitText(d)], base, v)
    ensures ValueOf(t + [DigitText(d)], base) == ValueOf(t, base) * base + d
  {
    hide DigitText, DigitOf;
    DigitReads(d);
    var s := t + [DigitText(d)];
    assert s[..|s| - 1] == t;
  }

  lemma {:induction false} TextReads(v: nat, base: nat)
    requires 2 <= base <= 16
    ensures IsText(NumberText(v, base), base, v) && ValueOf(NumberText(v, base), base) == v
    decreases v
  {
    hide DigitText, DigitOf, IsText, ValueOf;
    if v < base {
      OneDigit(v, base);
    } else {
      Divided(v, base);
      TextReads(v / base, base);
      OneMore(NumberText(v / base, base), v % base, base, v / base, v);
    }
  }

  lemma ZeroText()
    ensures DigitText(0) == '0'
  {
  }

  lemma Divided(v: nat, base: nat)
    requires 2 <= base <= v
    ensures v / base > 0 && v == v / base * base + v % base
  {
  }

  /** Every number of 64 bits, written in decimal, is read back. */
  lemma DecimalRoundTrip(v: nat)
    requires v < TWO_TO_THE_64
    ensures IsDecimal(NumberText(v, 10)) && ParseU64(NumberText(v, 10)) == Some(v)
  {
    hide NumberText, ParseU64, ValueOf, DigitOf;
    TextReads(v, 10);
    DecimalExactly(NumberText(v, 10));
  }

  /** And so is every one written in hexadecimal behind 0x. */
  lemma HexRoundTrip(v: nat)
    requires v < TWO_TO_THE_64
    ensures ParseU64("0x" + NumberText(v, 16)) == Some(v)
  {
    hide NumberText, ParseU64, ValueOf, DigitOf, DigitsLength;
    TextReads(v, 16);
    var t := NumberText(v, 16);
    var s := "0x" + t;
    assert s[2..] == t && s[0] == '0' && s[1] == 'x' && s[2] == t[0];
    HexStarts(s);
    DigitsLengthIs(t, 16, |t|);
    NumberOf(s, 16, 2);
  }

  lemma HexStarts(s: string)
    requires |s| >= 3 && s[0] == '0' && s[1] == 'x' && DigitOf(s[2]) < 16
    ensures SpaceLength(s) == 0 && s[0] != '-' && s[0] != '+' && BaseOf(s) == (16, 2)
  {
  }
}
