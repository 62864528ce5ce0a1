/**
 * Integer-to-text conversions of JavaScript as the colour generator uses them:
 * Number.prototype.toString(radix) on integer values (also what a template
 * literal `${n}` produces, with radix 10), String.prototype.padStart with a
 * one-character pad and String.prototype.toUpperCase on ASCII text, together
 * with the parsers that invert them.
 */
module Numerals {
  import opened Wrappers

  /** radix^k */
  function Pow(radix: nat, k: nat): nat
  {
    if k == 0 then 1 else radix * Pow(radix, k - 1)
  }

  /** The value of a most-significant-first digit sequence in the given radix. */
  function FromDigits(ds: seq<nat>, radix: nat): nat
  {
    if ds == [] then 0 else FromDigits(ds[..|ds| - 1], radix) * radix + ds[|ds| - 1]
  }

  /**
   * The shortest digit sequence of n in the given radix, most significant first:
   * every digit is below the radix, there is no leading zero (except for n == 0
   * itself, written as one zero digit) and its value is n.
   */
  function Digits(n: nat, radix: nat): (ds: seq<nat>)
    requires 2 <= radix <= 36
    ensures 1 <= |ds|
    ensures forall i :: 0 <= i < |ds| ==> ds[i] < radix
    ensures |ds| == 1 || ds[0] != 0
    ensures FromDigits(ds, radix) == n
    decreases n
  {
    if n < radix then [n]
    else
      var front := Digits(n / radix, radix);
      AppendDigit(front, n % radix, radix);
      DivMod(n, radix);
      front + [n % radix]
  }

  lemma AppendDigit(ds: seq<nat>, d: nat, radix: nat)
    ensures FromDigits(ds + [d], radix) == FromDigits(ds, radix) * radix + d
  {
    assert (ds + [d])[..|ds|] == ds;
  }

  lemma DivMod(n: nat, radix: nat)
    requires radix > 0
    ensures (n / radix) * radix + n % radix == n
  {
  }

  /** A number below radix^k has at most k digits. */
  lemma {:induction false} DigitsLength(n: nat, radix: nat, k: nat)
    requires 2 <= radix <= 36
    requires 1 <= k && n < Pow(radix, k)
    ensures |Digits(n, radix)| <= k
    decreases k
  {
    if n >= radix {
      assert Pow(radix, 1) == radix;
      assert n / radix < Pow(radix, k - 1) by {
        assert Pow(radix, k) == radix * Pow(radix, k - 1);
        DivBelow(n, radix, Pow(radix, k - 1));
      }
      DigitsLength(n / radix, radix, k - 1);
    }
  }

  lemma DivBelow(n: nat, d: nat, q: nat)
    requires d > 0 && n < d * q
    ensures n / d < q
  {
    assert d * (n / d) <= n;
    assert d * (n / d) < d * q;
  }

  /** The character JavaScript writes for digit d: '0'-'9', then 'a'-'z'. */
  function DigitChar(d: nat): (ch: char)
    requires d < 36
  {
    if d < 10 then ('0' as int + d) as char else ('a' as int + d - 10) as char
  }

  /** The digit a lower-case numeral character stands for, if it is one. */
  function DigitValue(ch: char): (v: Option<nat>)
    ensures v.Some? ==> v.value < 36 && DigitChar(v.value) == ch
  {
    if '0' <= ch <= '9' then Some(ch as int - '0' as int)
    else if 'a' <= ch <= 'z' then Some(ch as int - 'a' as int + 10)
    else None
  }

  /** The characters of a digit sequence. */
  function DigitString(ds: seq<nat>): (s: string)
    requires forall i :: 0 <= i < |ds| ==> ds[i] < 36
    ensures |s| == |ds|
  {
    seq(|ds|, i requires 0 <= i < |ds| => DigitChar(ds[i]))
  }

  /**
   * Number.prototype.toString(radix) applied to an integer value: the shortest
   * numeral in lower-case digits, with a leading '-' for a negative value.
   */
  function ToRadixString(n: int, radix: nat): string
    requires 2 <= radix <= 36
  {
    if n < 0 then "-" + DigitString(Digits(-n, radix)) else DigitString(Digits(n, radix))
  }

  /** Reads an unsigned numeral; None for the empty string or a character that is no digit of the radix. */
  function ParseDigits(s: string, radix: nat): Option<nat>
  {
    if |s| == 0 then None
    else
      match DigitValue(s[|s| - 1])
      case None => None
      case Some(d) =>
        if d >= radix then None
        else if |s| == 1 then Some(d)
        else
          match ParseDigits(s[..|s| - 1], radix)
          case None => None
          case Some(front) => Some(front * radix + d)
  }

  /** Reads a numeral as ToRadixString writes it: an optional '-' and at least one digit. */
  function ParseRadix(s: string, radix: nat): Option<int>
  {
    if |s| > 0 && s[0] == '-' then
      match ParseDigits(s[1..], radix)
      case None => None
      case Some(v) => Some(-(v as int))
    else
      match ParseDigits(s, radix)
      case None => None
      case Some(v) => Some(v)
  }

  lemma {:induction false} ParseDigitString(ds: seq<nat>, radix: nat)
    requires 2 <= radix <= 36
    requires 1 <= |ds| && forall i :: 0 <= i < |ds| ==> ds[i] < radix
    ensures ParseDigits(DigitString(ds), radix) == Some(FromDigits(ds, radix))
    decreases |ds|
  {
    var s := DigitString(ds);
    var last := ds[|ds| - 1];
    assert DigitValue(s[|s| - 1]) == Some(last);
    if |ds| > 1 {
      var front := ds[..|ds| - 1];
      assert s[..|s| - 1] == DigitString(front);
      ParseDigitString(front, radix);
    } else {
      assert ds[..0] == [];
    }
  }

  /** Reading back what ToRadixString writes gives the number written. */
  lemma RadixRoundTrip(n: int, radix: nat)
    requires 2 <= radix <= 36
    ensures ParseRadix(ToRadixString(n, radix), radix) == Some(n)
  {
    if n < 0 {
      var ds := Digits(-n, radix);
      ParseDigitString(ds, radix);
      assert ("-" + DigitString(ds))[1..] == DigitString(ds);
    } else {
      var ds := Digits(n, radix);
      ParseDigitString(ds, radix);
      assert DigitString(ds)[0] == DigitChar(ds[0]);
    }
  }

  /** ToRadixString never gives two integers the same numeral. */
  lemma RadixInjective(a: int, b: int, radix: nat)
    requires 2 <= radix <= 36
    requires ToRadixString(a, radix) == ToRadixString(b, radix)
    ensures a == b
  {
    RadixRoundTrip(a, radix);
    RadixRoundTrip(b, radix);
  }

  /** A numeral is made of digits of its radix and at most a leading '-', so it holds no ',' and no ' '. */
  lemma RadixStringCharacters(n: int, radix: nat)
    requires 2 <= radix <= 36
    ensures 1 <= |ToRadixString(n, radix)|
    ensures forall i :: 0 <= i < |ToRadixString(n, radix)| ==>
      (DigitValue(ToRadixString(n, radix)[i]).Some? && DigitValue(ToRadixString(n, radix)[i]).value < radix) ||
      (i == 0 && n < 0 && ToRadixString(n, radix)[i] == '-')
  {
    var ds := Digits(if n < 0 then -n else n, radix);
    DigitStringValues(ds);
    var t := ToRadixString(n, radix);
    forall i | 0 <= i < |t|
      ensures (DigitValue(t[i]).Some? && DigitValue(t[i]).value < radix) || (i == 0 && n < 0 && t[i] == '-')
    {
      if n < 0 && i > 0 {
        assert t[i] == DigitString(ds)[i - 1];
      }
    }
  }

  /** Each character of a digit string reads back to its digit. */
  lemma DigitStringValues(ds: seq<nat>)
    requires forall i :: 0 <= i < |ds| ==> ds[i] < 36
    ensures forall i :: 0 <= i < |ds| ==> DigitValue(DigitString(ds)[i]) == Some(ds[i])
  {
  }

  /** The c repeated n times. */
  function Repeat(c: char, n: nat): (s: string)
    ensures |s| == n && forall i :: 0 <= i < n ==> s[i] == c
  {
    seq(n, _ => c)
  }

  /**
   * String.prototype.padStart(width, pad) with a one-character pad: a string
   * shorter than width is filled on the left with pad up to width; a longer one
   * is returned as it is.
   */
  function PadStart(s: string, width: nat, pad: char): (r: string)
    ensures |r| == if |s| >= width then |s| else width
    ensures r[|r| - |s|..] == s
    ensures forall i :: 0 <= i < |r| - |s| ==> r[i] == pad
  {
    if |s| >= width then s else Repeat(pad, width - |s|) + s
  }

  /** The upper-case form of an ASCII letter; every other character is left as it is. */
  function ToUpperChar(ch: char): (u: char)
    ensures 'a' <= ch <= 'z' ==> 'A' <= u <= 'Z' && u as int == ch as int - 32
    ensures !('a' <= ch <= 'z') ==> u == ch
  {
    if 'a' <= ch <= 'z' then (ch as int - 32) as char else ch
  }

  /** String.prototype.toUpperCase, restricted to ASCII letters. */
  function ToUpperCase(s: string): (r: string)
    ensures |r| == |s| && forall i :: 0 <= i < |s| ==> r[i] == ToUpperChar(s[i])
  {
    seq(|s|, i requires 0 <= i < |s| => ToUpperChar(s[i]))
  }

  /** Upper-casing is done character by character, so it commutes with concatenation. */
  lemma ToUpperCaseConcat(a: string, b: string)
    ensures ToUpperCase(a + b) == ToUpperCase(a) + ToUpperCase(b)
  {
  }
}
