/**
 * The parts of .NET's string and Int32 text handling the repository relies on:
 * ordinal substring search and `int.TryParse` / `int.ToString` in the invariant culture.
 */
module Strings {
  import opened Wrappers

  /** `m` occurs in `s` starting at index `i`. */
  predicate OccursAt(s: string, m: string, i: int)
  {
    0 <= i && i + |m| <= |s| && s[i..i + |m|] == m
  }

  lemma OccurrenceChar(s: string, m: string, i: int, k: int)
    requires OccursAt(s, m, i) && 0 <= k < |m|
    ensures s[i + k] == m[k]
  {
    assert s[i..i + |m|][k] == s[i + k];
  }

  /** The first occurrence of `m` in `s` at or after `from`, or -1. */
  function IndexFrom(s: string, m: string, from: nat): (r: int)
    requires from <= |s|
    ensures r == -1 || (from <= r && OccursAt(s, m, r))
    ensures forall i :: from <= i && (r == -1 || i < r) ==> !OccursAt(s, m, i)
    decreases |s| - from
  {
    if from + |m| > |s| then -1
    else if s[from..from + |m|] == m then from
    else IndexFrom(s, m, from + 1)
  }

  /** `s.IndexOf(m, StringComparison.Ordinal)`: the first occurrence of `m`, or -1 if there is none. */
  function IndexOf(s: string, m: string): (r: int)
    ensures r == -1 <==> forall i :: !OccursAt(s, m, i)
    ensures r != -1 ==> OccursAt(s, m, r) && forall i :: i < r ==> !OccursAt(s, m, i)
  {
    IndexFrom(s, m, 0)
  }

  /** The last occurrence of `m` in `s` starting below `bound`, or -1. */
  function LastIndexBelow(s: string, m: string, bound: nat): (r: int)
    ensures r == -1 || (r < bound && OccursAt(s, m, r))
    ensures forall i :: r < i < bound ==> !OccursAt(s, m, i)
    decreases bound
  {
    if bound == 0 then -1
    else if OccursAt(s, m, bound - 1) then bound - 1
    else LastIndexBelow(s, m, bound - 1)
  }

  /** The last occurrence of `m` in `s`, or -1 if there is none. */
  function LastIndexOf(s: string, m: string): (r: int)
    ensures r == -1 <==> forall i :: !OccursAt(s, m, i)
    ensures r != -1 ==> OccursAt(s, m, r) && forall i :: r < i ==> !OccursAt(s, m, i)
  {
    LastIndexBelow(s, m, |s| + 1)
  }

  /** An occurrence with none after it is the one `LastIndexOf` finds. */
  lemma LastIndexOfIs(s: string, m: string, p: int)
    requires OccursAt(s, m, p)
    requires forall i :: p < i ==> !OccursAt(s, m, i)
    ensures LastIndexOf(s, m) == p
  {
    var r := LastIndexOf(s, m);
    assert r != -1;
    assert !(r < p);
  }

  /** `m` cannot start after `p` when no later character equals the second character of `m`. */
  lemma NoOccurrenceAfter(s: string, m: string, p: int)
    requires |m| >= 2
    requires forall i :: 0 <= i < |s| && p + 1 < i ==> s[i] != m[1]
    ensures forall i :: p < i ==> !OccursAt(s, m, i)
  {
    forall i | p < i
      ensures !OccursAt(s, m, i)
    {
      if 0 <= i && i + |m| <= |s| {
        assert s[i..i + |m|][1] == s[i + 1];
      }
    }
  }

  // ---------------------------------------------------------------------------
  // Int32 text

  const MinInt32: int := -0x8000_0000
  const MaxInt32: int := 0x7fff_ffff

  predicate IsInt32(n: int)
  {
    MinInt32 <= n <= MaxInt32
  }

  /** The white space `NumberStyles.AllowLeadingWhite` and `AllowTrailingWhite` skip: U+0009..U+000D and U+0020. */
  predicate IsWhite(c: char)
  {
    c == ' ' || '\t' <= c <= '\r'
  }

  predicate IsDigit(c: char)
  {
    '0' <= c <= '9'
  }

  predicate IsSign(c: char)
  {
    c == '+' || c == '-'
  }

  /** The characters a text `int.TryParse` accepts can be made of. */
  predicate IsNumberChar(c: char)
  {
    IsWhite(c) || IsSign(c) || IsDigit(c) || c == '\0'
  }

  /** The value of a decimal digit character. */
  function DigitValue(c: char): (d: nat)
    requires IsDigit(c)
    ensures d < 10
  {
    c as int - '0' as int
  }

  /** The value of a run of decimal digits, most significant first. */
  function DigitsValue(ds: string): (n: nat)
    requires forall i :: 0 <= i < |ds| ==> IsDigit(ds[i])
  {
    if ds == [] then 0 else 10 * DigitsValue(ds[..|ds| - 1]) + DigitValue(ds[|ds| - 1])
  }

  /** Where the number parser stands: before the number, after its sign, in its digits, after them, in the trailing NULs. */
  datatype ScanState = Leading | Signed | InDigits | Trailing | Nuls

  /**
   * The character loop of `int.TryParse(t, out n)` with `NumberStyles.Integer` in the invariant
   * culture, from index `i` on: leading white space, an optional sign, at least one digit,
   * trailing white space, then nothing but NUL characters. `magnitude` is the value of the digits
   * read so far; the sign is applied and the 32-bit range checked at the end of the text.
   */
  function Scan(t: string, i: nat, st: ScanState, negative: bool, magnitude: nat): (r: Option<int>)
    requires i <= |t|
    ensures r.Some? ==> IsInt32(r.value)
    decreases |t| - i
  {
    if i == |t| then
      if st == Leading || st == Signed then None
      else
        var v: int := if negative then -(magnitude as int) else magnitude;
        if IsInt32(v) then Some(v) else None
    else
      var c := t[i];
      match st
      case Leading =>
        if IsWhite(c) then Scan(t, i + 1, Leading, negative, magnitude)
        else if IsSign(c) then Scan(t, i + 1, Signed, c == '-', magnitude)
        else if IsDigit(c) then Scan(t, i + 1, InDigits, negative, DigitValue(c))
        else None
      case Signed =>
        if IsDigit(c) then Scan(t, i + 1, InDigits, negative, DigitValue(c)) else None
      case InDigits =>
        if IsDigit(c) then Scan(t, i + 1, InDigits, negative, 10 * magnitude + DigitValue(c))
        else if IsWhite(c) then Scan(t, i + 1, Trailing, negative, magnitude)
        else if c == '\0' then Scan(t, i + 1, Nuls, negative, magnitude)
        else None
      case Trailing =>
        if IsWhite(c) then Scan(t, i + 1, Trailing, negative, magnitude)
        else if c == '\0' then Scan(t, i + 1, Nuls, negative, magnitude)
        else None
      case Nuls =>
        if c == '\0' then Scan(t, i + 1, Nuls, negative, magnitude) else None
  }

  /** `int.TryParse(t, out n)`: the number `t` denotes when it is a valid Int32 text, otherwise nothing. */
  function TryParse(t: string): (r: Option<int>)
    ensures r.Some? ==> IsInt32(r.value)
  {
    Scan(t, 0, Leading, false, 0)
  }

  /** Once the loop succeeds from `i`, every character from `i` on is white space, a sign, a digit or NUL. */
  lemma {:induction false} ScanAcceptsOnlyNumberChars(t: string, i: nat, st: ScanState, negative: bool, magnitude: nat)
    requires i <= |t| && Scan(t, i, st, negative, magnitude).Some?
    ensures forall j :: i <= j < |t| ==> IsNumberChar(t[j])
    decreases |t| - i
  {
    if i < |t| {
      var c := t[i];
      match st
      case Leading =>
        if IsWhite(c) {
          ScanAcceptsOnlyNumberChars(t, i + 1, Leading, negative, magnitude);
        } else if IsSign(c) {
          ScanAcceptsOnlyNumberChars(t, i + 1, Signed, c == '-', magnitude);
        } else {
          ScanAcceptsOnlyNumberChars(t, i + 1, InDigits, negative, DigitValue(c));
        }
      case Signed =>
        ScanAcceptsOnlyNumberChars(t, i + 1, InDigits, negative, DigitValue(c));
      case InDigits =>
        if IsDigit(c) {
          ScanAcceptsOnlyNumberChars(t, i + 1, InDigits, negative, 10 * magnitude + DigitValue(c));
        } else if IsWhite(c) {
          ScanAcceptsOnlyNumberChars(t, i + 1, Trailing, negative, magnitude);
        } else {
          ScanAcceptsOnlyNumberChars(t, i + 1, Nuls, negative, magnitude);
        }
      case Trailing =>
        if IsWhite(c) {
          ScanAcceptsOnlyNumberChars(t, i + 1, Trailing, negative, magnitude);
        } else {
          ScanAcceptsOnlyNumberChars(t, i + 1, Nuls, negative, magnitude);
        }
      case Nuls =>
        ScanAcceptsOnlyNumberChars(t, i + 1, Nuls, negative, magnitude);
    }
  }

  /** Every character of a text `int.TryParse` accepts is white space, a sign, a digit or NUL. */
  lemma TryParseAcceptsOnlyNumberChars(t: string)
    requires TryParse(t).Some?
    ensures forall i :: 0 <= i < |t| ==> IsNumberChar(t[i])
  {
    ScanAcceptsOnlyNumberChars(t, 0, Leading, false, 0);
  }

  /** A text holding any other character, a letter such as 'e' for one, does not parse. */
  lemma TryParseRejects(t: string, k: int)
    requires 0 <= k < |t| && !IsNumberChar(t[k])
    ensures TryParse(t) == None
  {
    if TryParse(t).Some? {
      TryParseAcceptsOnlyNumberChars(t);
    }
  }

  /** Reading the rest of a run of digits that starts at `k` ends with the value of the whole run. */
  lemma {:induction false} ScanDigits(t: string, k: nat, i: nat, negative: bool)
    requires k < i <= |t|
    requires forall j :: k <= j < |t| ==> IsDigit(t[j])
    ensures var v: int := if negative then -(DigitsValue(t[k..]) as int) else DigitsValue(t[k..]);
      Scan(t, i, InDigits, negative, DigitsValue(t[k..i])) == if IsInt32(v) then Some(v) else None
    decreases |t| - i
  {
    if i < |t| {
      assert t[k..i + 1][..i - k] == t[k..i];
      ScanDigits(t, k, i + 1, negative);
    } else {
      assert t[k..i] == t[k..];
    }
  }

  function DigitChar(d: nat): (c: char)
    requires d < 10
    ensures IsDigit(c) && c as int - '0' as int == d
  {
    ('0' as int + d) as char
  }

  /** The decimal digits of `n`, without leading zeros. */
  function NatToText(n: nat): (s: string)
    ensures |s| >= 1
    ensures forall i :: 0 <= i < |s| ==> IsDigit(s[i])
    decreases n
  {
    if n < 10 then [DigitChar(n)] else NatToText(n / 10) + [DigitChar(n % 10)]
  }

  /** `n.ToString()` in the invariant culture. */
  function IntToText(n: int): (s: string)
    ensures |s| >= 1
    ensures forall i :: 0 <= i < |s| ==> IsDigit(s[i]) || (i == 0 && s[i] == '-')
    ensures s[0] == '-' <==> n < 0
  {
    if n < 0 then "-" + NatToText(-n) else NatToText(n)
  }

  lemma {:induction false} DigitsValueOfNatToText(n: nat)
    ensures DigitsValue(NatToText(n)) == n
    decreases n
  {
    if n >= 10 {
      var s := NatToText(n);
      DigitsValueOfNatToText(n / 10);
      assert s[..|s| - 1] == NatToText(n / 10);
    }
  }

  /** Formatting an Int32 and parsing the text back gives the number again. */
  lemma TryParseIntToText(n: int)
    requires IsInt32(n)
    ensures TryParse(IntToText(n)) == Some(n)
  {
    var t := IntToText(n);
    var k := if n < 0 then 1 else 0;
    var digits := NatToText(if n < 0 then -n else n);
    DigitsValueOfNatToText(if n < 0 then -n else n);
    assert t[k..] == digits;
    assert DigitsValue(t[k..k + 1]) == DigitValue(t[k]) by {
      assert t[k..k + 1][..0] == [];
    }
    if n < 0 {
      assert Scan(t, 0, Leading, false, 0) == Scan(t, 1, Signed, true, 0);
    }
    assert Scan(t, 0, Leading, false, 0) == Scan(t, k + 1, InDigits, n < 0, DigitValue(t[k]));
    ScanDigits(t, k, k + 1, n < 0);
  }
}
