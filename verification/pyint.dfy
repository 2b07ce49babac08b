/**
 * Python's `int(x)` applied to a `str` (base 10), and `str(n)` for an `int`.
 * `int` skips surrounding whitespace (see `IntSpace`), accepts one optional sign, then decimal
 * digits in which single underscores may separate digits ("1_000"); anything
 * else, including the empty string and decimals such as "74.5", raises ValueError.
 * The accepted strings are described by a left-to-right scan, one character at a time.
 */
module PyInt {
  import opened Wrappers
  import PyText

  predicate IsDigit(c: char)
  {
    '0' <= c <= '9'
  }

  function DigitValue(c: char): nat
    requires IsDigit(c)
  {
    (c as int) - ('0' as int)
  }

  function DigitChar(d: nat): (c: char)
    requires d < 10
    ensures IsDigit(c) && DigitValue(c) == d
  {
    ('0' as int + d) as char
  }

  /**
   * The whitespace `int` skips: every character `str.isspace` accepts except the
   * ASCII separators U+001C to U+001F, which `int` keeps as they are and rejects.
   */
  predicate IntSpace(c: char)
  {
    PyText.IsSpace(c) && !('\U{1C}' <= c <= '\U{1F}')
  }

  /** Where the scan of a base-10 literal stands after some prefix of the input. */
  datatype ScanState =
    | Leading     // only whitespace so far
    | Signed      // just read the sign: a digit must follow
    | InDigits    // just read a digit
    | Underscore  // just read an underscore: a digit must follow
    | Trailing    // whitespace after the digits

  /** The state after reading `c` in state `st`, or None when `int` rejects `c` there. */
  function Step(st: ScanState, c: char): Option<ScanState>
  {
    match st
    case Leading =>
      if IsDigit(c) then Some(InDigits)
      else if c == '+' || c == '-' then Some(Signed)
      else if IntSpace(c) then Some(Leading)
      else None
    case Signed => if IsDigit(c) then Some(InDigits) else None
    case InDigits =>
      if IsDigit(c) then Some(InDigits)
      else if c == '_' then Some(Underscore)
      else if IntSpace(c) then Some(Trailing)
      else None
    case Underscore => if IsDigit(c) then Some(InDigits) else None
    case Trailing => if IntSpace(c) then Some(Trailing) else None
  }

  /** A literal may end only right after a digit or in the trailing whitespace. */
  predicate Accepting(st: ScanState)
  {
    st == InDigits || st == Trailing
  }

  /**
   * The scan of `s[i..]` from state `st`, where `negative` records a minus sign
   * already read and `acc` the value of the digits already read: the signed
   * value when the scan ends in an accepting state, None when `int` rejects.
   */
  function ScanFrom(s: string, i: nat, st: ScanState, negative: bool, acc: nat): Option<int>
    requires i <= |s|
    decreases |s| - i
  {
    if i == |s| then
      if Accepting(st) then Some(if negative then -(acc as int) else acc) else None
    else
      match Step(st, s[i])
      case None => None
      case Some(next) =>
        ScanFrom(s, i + 1, next, negative || (st == Leading && s[i] == '-'),
                 if IsDigit(s[i]) then acc * 10 + DigitValue(s[i]) else acc)
  }

  /** The number a run of decimal digits spells. */
  function DigitsValue(s: string): nat
    requires forall k :: 0 <= k < |s| ==> IsDigit(s[k])
  {
    if |s| == 0 then 0 else DigitsValue(s[..|s| - 1]) * 10 + DigitValue(s[|s| - 1])
  }

  /** `int(s)`: `Some(n)` when Python returns n, `None` when it raises ValueError. */
  function ParseInt(s: string): Option<int>
  {
    ScanFrom(s, 0, Leading, false, 0)
  }

  /** `str(n)` for a non-negative `n`: its decimal digits, no leading zero. */
  function NatToString(n: nat): (s: string)
    ensures |s| > 0
    ensures forall k :: 0 <= k < |s| ==> IsDigit(s[k])
  {
    if n < 10 then [DigitChar(n)] else NatToString(n / 10) + [DigitChar(n % 10)]
  }

  /** `str(n)`. */
  function IntToString(n: int): string
  {
    if n < 0 then "-" + NatToString(-n) else NatToString(n)
  }

  lemma {:induction false} DigitsValueOfNatToString(n: nat)
    ensures DigitsValue(NatToString(n)) == n
  {
    if n >= 10 {
      var s := NatToString(n);
      assert s[..|s| - 1] == NatToString(n / 10);
      DigitsValueOfNatToString(n / 10);
    }
  }

  /**
   * A run of digits `s[i..]` after the digits `s[k..i]` already read is
   * accepted from any state that allows a digit next, with the value of all of `s[k..]`.
   */
  lemma {:induction false} ScanDigits(s: string, k: nat, i: nat, st: ScanState, negative: bool)
    requires k <= i < |s|
    requires forall j :: k <= j < |s| ==> IsDigit(s[j])
    requires st != Trailing && (st == InDigits || k == i)
    ensures ScanFrom(s, i, st, negative, DigitsValue(s[k..i])) ==
      Some(if negative then -(DigitsValue(s[k..]) as int) else DigitsValue(s[k..]))
    decreases |s| - i
  {
    assert Step(st, s[i]) == Some(InDigits);
    assert s[k..i + 1][..i - k] == s[k..i];
    assert DigitsValue(s[k..i + 1]) == DigitsValue(s[k..i]) * 10 + DigitValue(s[i]);
    if i + 1 < |s| {
      ScanDigits(s, k, i + 1, InDigits, negative);
    } else {
      assert s[k..i + 1] == s[k..];
    }
  }

  /** `int(str(n)) == n` for every integer n. */
  lemma ParseIntRoundTrip(n: int)
    ensures ParseInt(IntToString(n)) == Some(n)
  {
    var s := IntToString(n);
    var m: nat := if n < 0 then -n else n;
    var d := NatToString(m);
    DigitsValueOfNatToString(m);
    if n < 0 {
      assert s == ['-'] + d;
      assert s[1..] == d;
      assert Step(Leading, '-') == Some(Signed);
      ScanDigits(s, 1, 1, Signed, true);
    } else {
      assert s == d;
      ScanDigits(s, 0, 0, Leading, false);
      assert s[0..] == s;
    }
  }

  /** No state of the scan reads past a decimal point. */
  lemma {:induction false} RejectsDecimalPointFrom(s: string, i: nat, st: ScanState, negative: bool, acc: nat, j: nat)
    requires i <= j < |s| && s[j] == '.'
    ensures ScanFrom(s, i, st, negative, acc) == None
    decreases |s| - i
  {
    if i < j {
      match Step(st, s[i])
      case None =>
      case Some(next) =>
        RejectsDecimalPointFrom(s, i + 1, next, negative || (st == Leading && s[i] == '-'),
                                if IsDigit(s[i]) then acc * 10 + DigitValue(s[i]) else acc, j);
    } else {
      assert Step(st, s[i]) == None;
    }
  }

  /** Any string holding a decimal point, such as "74.5", is rejected by `int`. */
  lemma ParseIntRejectsDecimalPoint(s: string)
    requires '.' in s
    ensures ParseInt(s) == None
  {
    var j :| 0 <= j < |s| && s[j] == '.';
    RejectsDecimalPointFrom(s, 0, Leading, false, 0, j);
  }

  /** Whitespace alone never reaches a digit: the scan stays in the leading state or stops. */
  lemma {:induction false} RejectsBlankFrom(s: string, i: nat)
    requires i <= |s|
    requires forall k :: i <= k < |s| ==> PyText.IsSpace(s[k])
    ensures ScanFrom(s, i, Leading, false, 0) == None
    decreases |s| - i
  {
    if i < |s| {
      if '\U{1C}' <= s[i] <= '\U{1F}' {
        assert Step(Leading, s[i]) == None;
      } else {
        if '!' <= s[i] <= '~' {
          PyText.VisibleAsciiIsNotSpace(s[i]);
        }
        assert Step(Leading, s[i]) == Some(Leading);
        RejectsBlankFrom(s, i + 1);
      }
    }
  }

  /** The empty string, or one made only of whitespace, is rejected by `int`. */
  lemma ParseIntRejectsBlank(s: string)
    requires forall k :: 0 <= k < |s| ==> PyText.IsSpace(s[k])
    ensures ParseInt(s) == None
  {
    RejectsBlankFrom(s, 0);
  }

  /** The scan does not depend on what came before the scanned part. */
  lemma {:induction false} ScanFromShift(c: char, s: string, i: nat, st: ScanState, negative: bool, acc: nat)
    requires i <= |s|
    ensures ScanFrom([c] + s, i + 1, st, negative, acc) == ScanFrom(s, i, st, negative, acc)
    decreases |s| - i
  {
    if i < |s| {
      assert ([c] + s)[i + 1] == s[i];
      match Step(st, s[i])
      case None =>
      case Some(next) =>
        ScanFromShift(c, s, i + 1, next, negative || (st == Leading && s[i] == '-'),
                      if IsDigit(s[i]) then acc * 10 + DigitValue(s[i]) else acc);
    }
  }

  /** A leading whitespace character that `int` skips does not change what it returns. */
  lemma ParseIntSkipsLeadingSpace(c: char, s: string)
    requires IntSpace(c)
    ensures ParseInt([c] + s) == ParseInt(s)
  {
    if '!' <= c <= '~' {
      PyText.VisibleAsciiIsNotSpace(c);
    }
    assert Step(Leading, c) == Some(Leading);
    ScanFromShift(c, s, 0, Leading, false, 0);
  }

  /** A leading ASCII separator U+001C to U+001F makes `int` reject the string, although `isspace` holds for it. */
  lemma ParseIntRejectsSeparator(c: char, s: string)
    requires '\U{1C}' <= c <= '\U{1F}'
    ensures PyText.IsSpace(c)
    ensures ParseInt([c] + s) == None
  {
    assert PyText.SPACE_RANGES[1].0 <= c <= PyText.SPACE_RANGES[1].1;
    assert Step(Leading, ([c] + s)[0]) == None;
  }
}
