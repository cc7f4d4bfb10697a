/**
 * The JavaScript string operations the model needs, over `string = seq<char>`:
 * number formatting (`String(n)`, template literals), `startsWith`, `includes`,
 * ASCII `toLowerCase`, `replace` with a string pattern, `join` and `split`.
 */
module Strings {

  predicate IsDigit(c: char)
  {
    '0' <= c <= '9'
  }

  function DigitChar(d: nat): (c: char)
    requires d < 10
    ensures IsDigit(c)
  {
    "0123456789"[d]
  }

  function DigitValue(c: char): nat
    requires IsDigit(c)
  {
    (c as int - '0' as int) as nat
  }

  /** Decimal rendering of a non-negative integer, without leading zeros. */
  function NatToString(n: nat): (s: string)
    ensures |s| > 0
    ensures forall i :: 0 <= i < |s| ==> IsDigit(s[i])
    ensures n >= 10 ==> s[0] != '0'
  {
    if n < 10 then [DigitChar(n)]
    else NatToString(n / 10) + [DigitChar(n % 10)]
  }

  /** Reads a string of decimal digits back as a number (most significant digit first). */
  function ParseNat(s: string): nat
    requires forall i :: 0 <= i < |s| ==> IsDigit(s[i])
  {
    if |s| == 0 then 0
    else ParseNat(s[..|s| - 1]) * 10 + DigitValue(s[|s| - 1])
  }

  /** Parsing the rendering of `n` gives `n` back. */
  lemma {:induction false} ParseNatToString(n: nat)
    ensures ParseNat(NatToString(n)) == n
  {
    var s := NatToString(n);
    if n >= 10 {
      ParseNatToString(n / 10);
      assert s[..|s| - 1] == NatToString(n / 10);
    }
  }

  /** Different numbers render differently. */
  lemma NatToStringInjective(a: nat, b: nat)
    ensures NatToString(a) == NatToString(b) ==> a == b
  {
    ParseNatToString(a);
    ParseNatToString(b);
  }

  /** `String(i)` for an integer: a minus sign before the magnitude when negative. */
  function IntToString(i: int): (s: string)
    ensures |s| > 0
    ensures s[0] == '-' <==> i < 0
    ensures i < 0 ==> s[1..] == NatToString(-i)
    ensures i >= 0 ==> s == NatToString(i)
    ensures s[0] == '-' ==> forall j :: 1 <= j < |s| ==> IsDigit(s[j])
    ensures s[0] != '-' ==> forall j :: 0 <= j < |s| ==> IsDigit(s[j])
  {
    if i < 0 then
      var digits := NatToString(-i);
      assert forall j :: 1 <= j < |digits| + 1 ==> ("-" + digits)[j] == digits[j - 1];
      "-" + digits
    else NatToString(i)
  }

  /** Reads back what `IntToString` writes. */
  function ParseInt(s: string): int
    requires |s| > 0
    requires s[0] == '-' ==> forall i :: 1 <= i < |s| ==> IsDigit(s[i])
    requires s[0] != '-' ==> forall i :: 0 <= i < |s| ==> IsDigit(s[i])
  {
    if s[0] == '-' then 0 - ParseNat(s[1..]) as int else ParseNat(s)
  }

  lemma {:induction false} ParseIntToString(i: int)
    ensures ParseInt(IntToString(i)) == i
  {
    var s := IntToString(i);
    if i < 0 {
      var n: nat := -i;
      ParseNatToString(n);
      assert s[1..] == NatToString(n);
      assert ParseNat(s[1..]) == n;
      assert ParseInt(s) == 0 - ParseNat(s[1..]) as int;
    } else {
      ParseNatToString(i);
    }
  }

  /** `s.startsWith(p)`. */
  predicate IsPrefix(p: string, s: string)
  {
    |p| <= |s| && s[..|p|] == p
  }

  /** `s.includes(t)`: `t` occurs as a contiguous piece of `s` (the empty string occurs everywhere). */
  predicate Contains(s: string, t: string)
    decreases |s|
  {
    IsPrefix(t, s) || (|s| > 0 && Contains(s[1..], t))
  }

  /** `t` occurs in `s` starting at position `i`. */
  predicate OccursAt(s: string, t: string, i: int)
  {
    0 <= i && i + |t| <= |s| && s[i..i + |t|] == t
  }

  /** `Contains` holds exactly when `t` occurs at some position of `s`. */
  lemma {:induction false} ContainsIffOccurs(s: string, t: string)
    ensures Contains(s, t) <==> exists i :: OccursAt(s, t, i)
    decreases |s|
  {
    if IsPrefix(t, s) {
      assert OccursAt(s, t, 0);
    }
    if |s| > 0 {
      ContainsIffOccurs(s[1..], t);
      if Contains(s[1..], t) {
        var i :| OccursAt(s[1..], t, i);
        assert s[1..][i..i + |t|] == s[i + 1..i + 1 + |t|];
        assert OccursAt(s, t, i + 1);
      }
      if exists i :: OccursAt(s, t, i) {
        var i :| OccursAt(s, t, i);
        if i > 0 {
          assert s[1..][i - 1..i - 1 + |t|] == s[i..i + |t|];
          assert OccursAt(s[1..], t, i - 1);
        }
      }
    } else {
      if exists i :: OccursAt(s, t, i) {
        var i :| OccursAt(s, t, i);
        assert |t| == 0 && i == 0;
        assert IsPrefix(t, s);
      }
    }
  }

  /** ASCII upper-case letters become lower case; every other character is kept. */
  function LowerChar(c: char): char
  {
    if 'A' <= c <= 'Z' then (c as int + 32) as char else c
  }

  /** `s.toLowerCase()` on ASCII letters. */
  function ToLower(s: string): (r: string)
    ensures |r| == |s|
    ensures forall i :: 0 <= i < |s| ==> r[i] == LowerChar(s[i])
  {
    seq(|s|, i requires 0 <= i < |s| => LowerChar(s[i]))
  }

  /** Lower-casing twice is lower-casing once, and the result holds no ASCII capitals. */
  lemma ToLowerIdempotent(s: string)
    ensures ToLower(ToLower(s)) == ToLower(s)
    ensures forall i :: 0 <= i < |s| ==> !('A' <= ToLower(s)[i] <= 'Z')
  {
  }

  /**
   * `s.replace(pat, rep)` with a string pattern: only the FIRST occurrence is replaced,
   * and a string without an occurrence is returned unchanged.
   */
  function ReplaceFirst(s: string, pat: string, rep: string): (r: string)
    ensures !Contains(s, pat) ==> r == s
    decreases |s|
  {
    if IsPrefix(pat, s) then rep + s[|pat|..]
    else if |s| == 0 then s
    else [s[0]] + ReplaceFirst(s[1..], pat, rep)
  }

  /** The pattern occurs at `i` and at no earlier position. */
  predicate FirstOccurrence(s: string, pat: string, i: int)
  {
    OccursAt(s, pat, i) && forall j :: 0 <= j < i ==> !OccursAt(s, pat, j)
  }

  /**
   * When the pattern occurs, `replace` rewrites its first occurrence and keeps the text
   * on either side of it.
   */
  lemma {:induction false} ReplaceFirstAtFirst(s: string, pat: string, rep: string)
    requires Contains(s, pat)
    ensures exists i :: FirstOccurrence(s, pat, i) &&
                        ReplaceFirst(s, pat, rep) == s[..i] + rep + s[i + |pat|..]
    decreases |s|
  {
    if IsPrefix(pat, s) {
      assert FirstOccurrence(s, pat, 0);
      assert s[..0] + rep + s[|pat|..] == rep + s[|pat|..];
    } else {
      ReplaceFirstAtFirst(s[1..], pat, rep);
      var t := s[1..];
      var k :| FirstOccurrence(t, pat, k) && ReplaceFirst(t, pat, rep) == t[..k] + rep + t[k + |pat|..];
      FirstShift(s, pat, k);
      assert ReplaceFirst(s, pat, rep) == [s[0]] + ReplaceFirst(t, pat, rep);
      Splice(s, rep, k, |pat|);
      assert ReplaceFirst(s, pat, rep) == s[..k + 1] + rep + s[k + 1 + |pat|..];
    }
  }

  /** A first occurrence in the tail of a string that does not start with the pattern is first in the whole. */
  lemma FirstShift(s: string, pat: string, k: int)
    requires |s| > 0 && !IsPrefix(pat, s)
    requires FirstOccurrence(s[1..], pat, k)
    ensures FirstOccurrence(s, pat, k + 1)
  {
    ShiftOccurrence(s, pat, k);
    forall j | 0 <= j < k + 1 ensures !OccursAt(s, pat, j) {
      if j > 0 {
        ShiftOccurrence(s, pat, j - 1);
      }
    }
  }

  /** Putting the first character back in front of a splice of the tail splices the whole string. */
  lemma Splice(s: string, rep: string, k: int, n: int)
    requires 0 <= k && 0 <= n && k + n <= |s| - 1
    ensures [s[0]] + (s[1..][..k] + rep + s[1..][k + n..]) == s[..k + 1] + rep + s[k + 1 + n..]
  {
    var a := s[1..][..k];
    var b := s[1..][k + n..];
    assert [s[0]] + a == s[..k + 1];
    assert b == s[k + 1 + n..];
    assert [s[0]] + (a + rep + b) == ([s[0]] + a) + rep + b;
  }

  /** An occurrence in the tail is an occurrence one position further in the whole string. */
  lemma ShiftOccurrence(s: string, pat: string, k: nat)
    requires |s| > 0
    ensures OccursAt(s[1..], pat, k) <==> OccursAt(s, pat, k + 1)
  {
    if k + |pat| <= |s| - 1 {
      assert s[1..][k..k + |pat|] == s[k + 1..k + 1 + |pat|];
    }
  }

  /** When the pattern starts the string, `replace(pat, '')` strips it as a prefix. */
  lemma ReplaceFirstPrefix(s: string, pat: string)
    requires IsPrefix(pat, s)
    ensures ReplaceFirst(s, pat, "") == s[|pat|..]
  {
  }

  /** `xs.join([sep])`. */
  function Join(xs: seq<string>, sep: char): string
  {
    if |xs| == 0 then ""
    else if |xs| == 1 then xs[0]
    else xs[0] + [sep] + Join(xs[1..], sep)
  }

  /** `s.split(sep)` with a one-character separator: always at least one piece. */
  function Split(s: string, sep: char): (parts: seq<string>)
    ensures |parts| >= 1
  {
    if |s| == 0 then [""]
    else if s[0] == sep then [""] + Split(s[1..], sep)
    else
      var rest := Split(s[1..], sep);
      [[s[0]] + rest[0]] + rest[1..]
  }

  lemma {:induction false} SplitNoSeparator(s: string, sep: char)
    requires sep !in s
    ensures Split(s, sep) == [s]
  {
    if |s| > 0 {
      assert sep !in s[1..];
      SplitNoSeparator(s[1..], sep);
      assert [s[0]] + s[1..] == s;
    }
  }

  lemma {:induction false} SplitAfterPiece(x: string, rest: string, sep: char)
    requires sep !in x
    ensures Split(x + [sep] + rest, sep) == [x] + Split(rest, sep)
    decreases |x|
  {
    var s := x + [sep] + rest;
    if |x| == 0 {
      assert s == [sep] + rest;
      assert s[1..] == rest;
    } else {
      assert s[0] == x[0];
      assert s[1..] == x[1..] + [sep] + rest;
      assert sep !in x[1..];
      SplitAfterPiece(x[1..], rest, sep);
      assert [x[0]] + x[1..] == x;
    }
  }

  /** Splitting a join gives the pieces back, provided no piece contains the separator. */
  lemma {:induction false} SplitJoin(xs: seq<string>, sep: char)
    requires |xs| >= 1
    requires forall i :: 0 <= i < |xs| ==> sep !in xs[i]
    ensures Split(Join(xs, sep), sep) == xs
    decreases |xs|
  {
    if |xs| == 1 {
      SplitNoSeparator(xs[0], sep);
    } else {
      SplitJoin(xs[1..], sep);
      SplitAfterPiece(xs[0], Join(xs[1..], sep), sep);
      assert [xs[0]] + xs[1..] == xs;
    }
  }

  /** Cuts `s` at its first `sep` into the text before and after it, if there is one. */
  function CutAt(s: string, sep: char): (r: (string, string))
    ensures sep !in s ==> r == (s, "")
    ensures sep in s ==> s == r.0 + [sep] + r.1 && sep !in r.0
    decreases |s|
  {
    if |s| == 0 then ("", "")
    else if s[0] == sep then ("", s[1..])
    else
      var rest := CutAt(s[1..], sep);
      assert sep in s ==> sep in s[1..] by {
        if sep in s && s[0] != sep {
          var i :| 0 <= i < |s| && s[i] == sep;
          assert s[1..][i - 1] == sep;
        }
      }
      assert sep !in s ==> sep !in s[1..];
      assert [s[0]] + s[1..] == s;
      ([s[0]] + rest.0, rest.1)
  }
}
