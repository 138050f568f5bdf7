/**
 * Decimal text of integers as it appears on the wire: what std::to_chars and
 * std::to_string produce, and what std::from_chars accepts for a signed 64-bit
 * `long long` when the whole field has to be consumed (the test done by
 * parse_integer in the parser and by parse_ll in the dispatcher).
 */
module Decimal {
  import opened Wrappers

  const LongLongMin: int := -0x8000_0000_0000_0000
  const LongLongMax: int := 0x7FFF_FFFF_FFFF_FFFF

  predicate InLongLong(x: int) {
    LongLongMin <= x <= LongLongMax
  }

  predicate IsDigit(c: char) {
    '0' <= c <= '9'
  }

  predicate AllDigits(s: string) {
    forall i :: 0 <= i < |s| ==> IsDigit(s[i])
  }

  function DigitValue(c: char): nat
    requires IsDigit(c)
  {
    c as int - '0' as int
  }

  function DigitChar(d: nat): (c: char)
    requires d < 10
    ensures IsDigit(c) && DigitValue(c) == d
  {
    ('0' as int + d) as char
  }

  /** The value of a string of decimal digits, most significant digit first. */
  function DigitsValue(s: string): nat
    requires AllDigits(s)
  {
    if s == [] then 0 else DigitsValue(s[..|s| - 1]) * 10 + DigitValue(s[|s| - 1])
  }

  /** Signed decimal text as from_chars reads it: an optional '-' and then one or more digits (no '+', no blanks). */
  predicate IsIntegerText(s: string) {
    if |s| > 0 && s[0] == '-' then |s| > 1 && AllDigits(s[1..]) else |s| > 0 && AllDigits(s)
  }

  function TextValue(s: string): int
    requires IsIntegerText(s)
  {
    if s[0] == '-' then -(DigitsValue(s[1..]) as int) else DigitsValue(s)
  }

  /** Appending digits never makes the value of a digit string smaller. */
  lemma {:induction false} DigitsValueOfPrefix(s: string, k: nat)
    requires AllDigits(s) && k <= |s|
    ensures AllDigits(s[..k]) && DigitsValue(s[..k]) <= DigitsValue(s)
    decreases |s|
  {
    if k < |s| {
      var t := s[..|s| - 1];
      assert t[..k] == s[..k];
      DigitsValueOfPrefix(t, k);
    } else {
      assert s[..k] == s;
    }
  }

  /**
   * The digit loop of from_chars: digits s[i..] are multiplied onto `acc`,
   * and the scan fails on a character that is not a digit (the field is not
   * consumed whole) or as soon as the running value passes `limit`
   * (result_out_of_range).
   */
  function ScanDigits(s: string, i: nat, acc: nat, limit: nat): Option<nat>
    requires i <= |s|
    decreases |s| - i
  {
    if i == |s| then Some(acc)
    else if !IsDigit(s[i]) then None
    else
      var next := acc * 10 + DigitValue(s[i]);
      if next > limit then None else ScanDigits(s, i + 1, next, limit)
  }

  /** Scanning from `start` succeeds exactly on a run of digits whose value stays within `limit`, and yields that value. */
  lemma {:induction false} ScanDigitsMeaning(s: string, start: nat, i: nat, acc: nat, limit: nat)
    requires start <= i <= |s|
    requires AllDigits(s[start..i]) && acc == DigitsValue(s[start..i]) && acc <= limit
    ensures var r := ScanDigits(s, i, acc, limit);
      && (r.Some? <==> AllDigits(s[start..]) && DigitsValue(s[start..]) <= limit)
      && (r.Some? ==> r.value == DigitsValue(s[start..]))
    decreases |s| - i
  {
    if i == |s| {
      assert s[start..i] == s[start..];
    } else if !IsDigit(s[i]) {
      assert s[start..][i - start] == s[i];
    } else {
      var next := acc * 10 + DigitValue(s[i]);
      assert s[start..i + 1][..i - start] == s[start..i];
      assert AllDigits(s[start..i + 1]) && DigitsValue(s[start..i + 1]) == next;
      if next > limit {
        if AllDigits(s[start..]) {
          assert s[start..][..i + 1 - start] == s[start..i + 1];
          DigitsValueOfPrefix(s[start..], i + 1 - start);
        }
      } else {
        ScanDigitsMeaning(s, start, i + 1, next, limit);
      }
    }
  }

  /** std::from_chars into a `long long`, succeeding only when it consumes the whole of `s`. */
  function FromChars(s: string): Option<int> {
    var negative := |s| > 0 && s[0] == '-';
    var start := if negative then 1 else 0;
    if start == |s| then None
    else
      match ScanDigits(s, start, 0, if negative then -LongLongMin else LongLongMax)
      case None => None
      case Some(v) => Some(if negative then -(v as int) else v as int)
  }

  /** from_chars accepts exactly the signed decimal texts whose value fits a `long long`, and yields that value. */
  lemma FromCharsMeaning(s: string)
    ensures FromChars(s).Some? <==> IsIntegerText(s) && InLongLong(TextValue(s))
    ensures FromChars(s).Some? ==> FromChars(s).value == TextValue(s)
  {
    var negative := |s| > 0 && s[0] == '-';
    var start := if negative then 1 else 0;
    if start < |s| {
      assert s[start..start] == [];
      ScanDigitsMeaning(s, start, start, 0, if negative then -LongLongMin else LongLongMax);
      assert s[start..] == (if negative then s[1..] else s);
    }
  }

  /** std::to_chars / std::to_string of a non-negative value: its shortest decimal digits. */
  function NatToDecimal(n: nat): (s: string)
    ensures |s| > 0
    decreases n
  {
    if n < 10 then [DigitChar(n)] else NatToDecimal(n / 10) + [DigitChar(n % 10)]
  }

  /** The text is all digits, denotes n, and has no leading zero. */
  lemma {:induction false} NatToDecimalMeaning(n: nat)
    ensures var s := NatToDecimal(n);
      AllDigits(s) && DigitsValue(s) == n && (s[0] == '0' ==> n == 0)
    decreases n
  {
    if n >= 10 {
      NatToDecimalMeaning(n / 10);
      var p := NatToDecimal(n / 10);
      var s := NatToDecimal(n);
      assert s[..|s| - 1] == p;
      assert s[0] == p[0];
    }
  }

  lemma NatToDecimalDigits(n: nat)
    ensures AllDigits(NatToDecimal(n))
  {
    NatToDecimalMeaning(n);
  }

  /** std::to_string of a signed value: a leading '-' for negatives, then the digits of the magnitude. */
  function IntToDecimal(x: int): string {
    if x < 0 then "-" + NatToDecimal(-x) else NatToDecimal(x)
  }

  /** The text is signed decimal text denoting x. */
  lemma IntToDecimalMeaning(x: int)
    ensures IsIntegerText(IntToDecimal(x)) && TextValue(IntToDecimal(x)) == x
  {
    if x < 0 {
      NatToDecimalMeaning(-x);
      assert IntToDecimal(x)[1..] == NatToDecimal(-x);
    } else {
      NatToDecimalMeaning(x);
    }
  }

  /** Formatting followed by from_chars gives the value back, for every `long long`. */
  lemma FromCharsInvertsIntToDecimal(x: int)
    requires InLongLong(x)
    ensures FromChars(IntToDecimal(x)) == Some(x)
  {
    IntToDecimalMeaning(x);
    FromCharsMeaning(IntToDecimal(x));
  }

  /** A size above LongLongMax formats fine but does not read back as a `long long`. */
  lemma FromCharsRejectsOversizedCount(n: nat)
    requires n > LongLongMax
    ensures FromChars(NatToDecimal(n)) == None
  {
    NatToDecimalMeaning(n);
    FromCharsMeaning(NatToDecimal(n));
  }

  /** The accepted forms at the edges: "-0" reads as 0; "", "-" and a leading '+' are refused. */
  lemma FromCharsEdgeCases(s: string)
    ensures FromChars("-0") == Some(0)
    ensures FromChars("") == None && FromChars("-") == None
    ensures |s| > 0 && s[0] == '+' ==> FromChars(s) == None
  {
    FromCharsMeaning("-0");
    FromCharsMeaning("");
    FromCharsMeaning("-");
    FromCharsMeaning(s);
    assert "-0"[1..] == "0";
    assert DigitsValue("0") == 0 by { assert "0"[..0] == []; }
  }
}
