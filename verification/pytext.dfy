/**
 * The few operations on Python `str` values that the attendance helper uses:
 * `str.isspace`, `str.strip`, substring test `sub in s`, `str.join`,
 * `str.replace(c, "")` and `"".join`. Strings are sequences of characters;
 * no normalisation or encoding is involved.
 */
module PyText {

  /**
   * The characters for which Python's `c.isspace()` holds (bidirectional class
   * WS, B or S, or category Zs), as inclusive ranges.
   */
  const SPACE_RANGES: seq<(char, char)> := [
    ('\t', '\r'), ('\U{1C}', ' '), ('\U{85}', '\U{85}'), ('\U{A0}', '\U{A0}'),
    ('\U{1680}', '\U{1680}'), ('\U{2000}', '\U{200A}'), ('\U{2028}', '\U{2029}'),
    ('\U{202F}', '\U{202F}'), ('\U{205F}', '\U{205F}'), ('\U{3000}', '\U{3000}')]

  /** `c` lies in one of the ranges from index `i` on. */
  predicate InSpaceRanges(c: char, i: nat)
    decreases |SPACE_RANGES| - i
  {
    i < |SPACE_RANGES| && (SPACE_RANGES[i].0 <= c <= SPACE_RANGES[i].1 || InSpaceRanges(c, i + 1))
  }

  /** Python's `c.isspace()`. */
  predicate IsSpace(c: char)
  {
    InSpaceRanges(c, 0)
  }

  /** No visible ASCII character (digits, signs, punctuation, letters) is whitespace. */
  lemma {:induction false} VisibleAsciiNotInSpaceRanges(c: char, i: nat)
    requires '!' <= c <= '~'
    ensures !InSpaceRanges(c, i)
    decreases |SPACE_RANGES| - i
  {
    if i < |SPACE_RANGES| {
      VisibleAsciiNotInSpaceRanges(c, i + 1);
    }
  }

  lemma VisibleAsciiIsNotSpace(c: char)
    requires '!' <= c <= '~'
    ensures !IsSpace(c)
  {
    VisibleAsciiNotInSpaceRanges(c, 0);
  }

  /** Number of whitespace characters at the start of `s`. */
  function LeadingSpaces(s: string): (n: nat)
    ensures n <= |s|
  {
    if |s| > 0 && IsSpace(s[0]) then 1 + LeadingSpaces(s[1..]) else 0
  }

  /** Number of whitespace characters at the end of `s`. */
  function TrailingSpaces(s: string): (n: nat)
    ensures n <= |s|
  {
    if |s| > 0 && IsSpace(s[|s| - 1]) then 1 + TrailingSpaces(s[..|s| - 1]) else 0
  }

  /** The leading run is all whitespace and is followed by a non-whitespace character or the end. */
  lemma {:induction false} LeadingSpacesRun(s: string)
    ensures forall k :: 0 <= k < LeadingSpaces(s) ==> IsSpace(s[k])
    ensures LeadingSpaces(s) < |s| ==> !IsSpace(s[LeadingSpaces(s)])
  {
    if |s| > 0 && IsSpace(s[0]) {
      LeadingSpacesRun(s[1..]);
    }
  }

  /** The trailing run is all whitespace and is preceded by a non-whitespace character or the start. */
  lemma {:induction false} TrailingSpacesRun(s: string)
    ensures forall k :: |s| - TrailingSpaces(s) <= k < |s| ==> IsSpace(s[k])
    ensures TrailingSpaces(s) < |s| ==> !IsSpace(s[|s| - 1 - TrailingSpaces(s)])
  {
    if |s| > 0 && IsSpace(s[|s| - 1]) {
      TrailingSpacesRun(s[..|s| - 1]);
    }
  }

  /** Python's `s.strip()` with no argument: `s` without its leading and trailing whitespace. */
  function Strip(s: string): string
  {
    var i, j := LeadingSpaces(s), |s| - TrailingSpaces(s);
    if i < j then s[i..j] else ""
  }

  /** `s.strip()` is a slice of `s` whose outside is all whitespace. */
  lemma StripIsSlice(s: string)
    ensures exists i, j :: (0 <= i <= j <= |s| && Strip(s) == s[i..j] &&
      (forall k :: 0 <= k < i ==> IsSpace(s[k])) && (forall k :: j <= k < |s| ==> IsSpace(s[k])))
  {
    var i, j := LeadingSpaces(s), |s| - TrailingSpaces(s);
    LeadingSpacesRun(s);
    TrailingSpacesRun(s);
    if i < j {
      assert Strip(s) == s[i..j];
    } else {
      assert Strip(s) == s[i..i];
    }
  }

  /** `s.strip()` neither starts nor ends with whitespace and keeps every non-whitespace character of `s`. */
  lemma StripEnds(s: string)
    ensures |Strip(s)| <= |s|
    ensures |Strip(s)| > 0 ==> !IsSpace(Strip(s)[0]) && !IsSpace(Strip(s)[|Strip(s)| - 1])
    ensures forall c :: c in Strip(s) ==> c in s
    ensures forall c :: c in s && !IsSpace(c) ==> c in Strip(s)
  {
    var i, j := LeadingSpaces(s), |s| - TrailingSpaces(s);
    LeadingSpacesRun(s);
    TrailingSpacesRun(s);
    var r := Strip(s);
    forall c | c in s && !IsSpace(c) ensures c in r {
      var k :| 0 <= k < |s| && s[k] == c;
      assert i <= k < j;
      assert r[k - i] == c;
    }
    if i < j {
      assert r[0] == s[i] && r[|r| - 1] == s[j - 1];
    }
  }

  /**
   * `s.strip()` is the part of `s` between its leading and its trailing
   * whitespace: a slice of `s` whose outside is all whitespace and which
   * neither starts nor ends with whitespace, so it keeps every other
   * character of `s`, in order, and adds none.
   */
  lemma StripTrims(s: string)
    ensures exists i, j :: (0 <= i <= j <= |s| && Strip(s) == s[i..j] &&
      (forall k :: 0 <= k < i ==> IsSpace(s[k])) && (forall k :: j <= k < |s| ==> IsSpace(s[k])))
    ensures |Strip(s)| <= |s|
    ensures |Strip(s)| > 0 ==> !IsSpace(Strip(s)[0]) && !IsSpace(Strip(s)[|Strip(s)| - 1])
    ensures forall c :: c in Strip(s) ==> c in s
    ensures forall c :: c in s && !IsSpace(c) ==> c in Strip(s)
  {
    StripIsSlice(s);
    StripEnds(s);
  }

  /** `s` starts with `prefix` (Python's `s.startswith(prefix)`). */
  predicate StartsWith(s: string, prefix: string)
  {
    |prefix| <= |s| && s[..|prefix|] == prefix
  }

  /** Python's `sub in s`, scanning `s` from the left. */
  predicate Contains(s: string, sub: string)
    decreases |s|
  {
    StartsWith(s, sub) || (|s| > 0 && Contains(s[1..], sub))
  }

  /** `sub` occurs in `s` at position `i`. */
  predicate OccursAt(s: string, sub: string, i: nat)
  {
    i + |sub| <= |s| && s[i..i + |sub|] == sub
  }

  /** `sub in s` holds exactly when `sub` occurs at some position of `s`. */
  lemma {:induction false} ContainsIff(s: string, sub: string)
    ensures Contains(s, sub) <==> exists i: nat :: OccursAt(s, sub, i)
    decreases |s|
  {
    if StartsWith(s, sub) {
      assert OccursAt(s, sub, 0);
    } else if |s| == 0 {
      assert forall i: nat :: !OccursAt(s, sub, i);
    } else {
      ContainsIff(s[1..], sub);
      if Contains(s[1..], sub) {
        var i: nat :| OccursAt(s[1..], sub, i);
        assert s[i + 1..i + 1 + |sub|] == s[1..][i..i + |sub|];
        assert OccursAt(s, sub, i + 1);
      } else {
        forall i: nat ensures !OccursAt(s, sub, i) {
          if i > 0 && OccursAt(s, sub, i) {
            assert s[1..][i - 1..i - 1 + |sub|] == s[i..i + |sub|];
            assert OccursAt(s[1..], sub, i - 1);
          }
        }
      }
    }
  }

  /** Python's `sep.join(parts)`. */
  function Join(sep: string, parts: seq<string>): string
  {
    if |parts| == 0 then ""
    else if |parts| == 1 then parts[0]
    else parts[0] + sep + Join(sep, parts[1..])
  }

  /** Python's `"".join(parts)`: the parts one after another. */
  function Concat(parts: seq<string>): (r: string)
    ensures |parts| == 1 ==> r == parts[0]
  {
    if |parts| == 0 then "" else parts[0] + Concat(parts[1..])
  }

  /** Python's `s.replace(c, "")` for a one-character `c`. */
  function RemoveChar(s: string, c: char): string
  {
    if |s| == 0 then ""
    else (if s[0] == c then "" else [s[0]]) + RemoveChar(s[1..], c)
  }

  /** `s.replace(c, "")` holds no `c`, keeps every other character of `s`, and adds none. */
  lemma {:induction false} RemoveCharDrops(s: string, c: char)
    ensures c !in RemoveChar(s, c)
    ensures forall d :: d != c ==> (d in RemoveChar(s, c) <==> d in s)
    ensures |RemoveChar(s, c)| <= |s|
    decreases |s|
  {
    if |s| > 0 {
      RemoveCharDrops(s[1..], c);
      assert s == [s[0]] + s[1..];
    }
  }

  /** A single character is removed exactly when it is `c`. */
  lemma RemoveCharOne(d: char, c: char)
    ensures RemoveChar([d], c) == if d == c then "" else [d]
  {
    assert [d][1..] == "";
  }

  /** `replace` works piece by piece: the other characters keep their order and their number. */
  lemma {:induction false} RemoveCharAppend(a: string, b: string, c: char)
    ensures RemoveChar(a + b, c) == RemoveChar(a, c) + RemoveChar(b, c)
    decreases |a|
  {
    if |a| == 0 {
      assert a + b == b;
    } else {
      var head := if a[0] == c then "" else [a[0]];
      assert (a + b)[0] == a[0];
      assert (a + b)[1..] == a[1..] + b;
      assert RemoveChar(a + b, c) == head + RemoveChar(a[1..] + b, c);
      assert RemoveChar(a, c) == head + RemoveChar(a[1..], c);
      RemoveCharAppend(a[1..], b, c);
      assert head + (RemoveChar(a[1..], c) + RemoveChar(b, c)) == (head + RemoveChar(a[1..], c)) + RemoveChar(b, c);
    }
  }
}
