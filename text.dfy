/** The Python string operations that the core relies on: `sep.join`,
    `str.split`, `str.lower` (ASCII letters), `in` on strings, `str.strip`,
    `str.splitlines` and `str(int)`. */
module Text {
  import opened Common

  /** How one coordinate is printed by a fixed-precision format such as
      `{v:.3f}`; kept abstract. */
  type NumberFormat = real -> string

  /** `sep.join(xs)`. */
  function Join(sep: string, xs: seq<string>): string
    decreases |xs|
  {
    if |xs| == 0 then ""
    else if |xs| == 1 then xs[0]
    else Join(sep, DropLast(xs)) + sep + Last(xs)
  }

  /** Joining peels off from the front as well as from the back. */
  lemma {:induction false} JoinCons(sep: string, a: string, rest: seq<string>)
    requires rest != []
    ensures Join(sep, [a] + rest) == a + sep + Join(sep, rest)
    decreases |rest|
  {
    var xs := [a] + rest;
    if |rest| > 1 {
      assert DropLast(xs) == [a] + DropLast(rest);
      JoinCons(sep, a, DropLast(rest));
    } else {
      assert DropLast(xs) == [a];
    }
  }

  /** The joined text starts with the first piece and ends with the last. */
  lemma {:induction false} JoinEnds(sep: string, xs: seq<string>)
    requires xs != []
    ensures xs[0] <= Join(sep, xs)
    ensures |Last(xs)| <= |Join(sep, xs)|
    ensures Join(sep, xs)[|Join(sep, xs)| - |Last(xs)|..] == Last(xs)
    decreases |xs|
  {
    if |xs| > 1 {
      JoinEnds(sep, DropLast(xs));
      assert DropLast(xs)[0] == xs[0];
      var j := Join(sep, DropLast(xs));
      assert Join(sep, xs) == j + sep + Last(xs);
      assert xs[0] <= j;
    }
  }

  /** `s.split(c)` for a one-character separator. */
  function Split(s: string, c: char): (pieces: seq<string>)
    ensures |pieces| >= 1
    ensures forall k :: 0 <= k < |pieces| ==> c !in pieces[k]
    decreases |s|
  {
    if s == [] then [[]]
    else
      var p := Split(DropLast(s), c);
      if Last(s) == c then p + [[]]
      else DropLast(p) + [Last(p) + [Last(s)]]
  }

  /** Splitting and joining on the same separator gives the text back. */
  lemma {:induction false} SplitJoin(s: string, c: char)
    ensures Join([c], Split(s, c)) == s
    decreases |s|
  {
    if s != [] {
      var p := Split(DropLast(s), c);
      SplitJoin(DropLast(s), c);
      if Last(s) == c {
        var q := p + [[]];
        assert DropLast(q) == p;
        assert Join([c], q) == Join([c], p) + [c] + [];
      } else {
        var q := DropLast(p) + [Last(p) + [Last(s)]];
        if |p| == 1 {
          assert q == [p[0] + [Last(s)]];
        } else {
          assert DropLast(q) == DropLast(p);
          assert Join([c], p) == Join([c], DropLast(p)) + [c] + Last(p);
        }
      }
      assert s == DropLast(s) + [Last(s)];
    }
  }

  /** The lower case of an ASCII letter; every other character is kept. */
  function LowerChar(ch: char): char
  {
    if 'A' <= ch <= 'Z' then (ch as int + 32) as char else ch
  }

  /** `s.lower()` restricted to ASCII letters: the result has no upper-case
      letter and differs from `s` only where `s` has one. */
  function Lower(s: string): (r: string)
    ensures |r| == |s|
    ensures forall i :: 0 <= i < |r| ==> !('A' <= r[i] <= 'Z')
    ensures forall i :: 0 <= i < |s| && !('A' <= s[i] <= 'Z') ==> r[i] == s[i]
  {
    seq(|s|, i requires 0 <= i < |s| => LowerChar(s[i]))
  }

  /** Lower-casing twice is lower-casing once. */
  lemma LowerIdempotent(s: string)
    ensures Lower(Lower(s)) == Lower(s)
  {
  }

  /** `pat` occurs in `s` starting at position `i`. */
  ghost predicate OccursAt(s: string, pat: string, i: int)
  {
    0 <= i && i + |pat| <= |s| && s[i..i + |pat|] == pat
  }

  /** Python's `pat in s`. */
  predicate Contains(s: string, pat: string)
    decreases |s|
  {
    |pat| <= |s| && (s[..|pat|] == pat || Contains(s[1..], pat))
  }

  lemma {:induction false} ContainsIsOccurrence(s: string, pat: string)
    ensures Contains(s, pat) <==> exists i :: OccursAt(s, pat, i)
    decreases |s|
  {
    if |pat| <= |s| {
      if s[..|pat|] == pat {
        assert OccursAt(s, pat, 0);
      } else {
        ContainsIsOccurrence(s[1..], pat);
        if Contains(s[1..], pat) {
          var i :| OccursAt(s[1..], pat, i);
          assert s[1..][i..i + |pat|] == s[i + 1..i + 1 + |pat|];
          assert OccursAt(s, pat, i + 1);
        }
        if exists i :: OccursAt(s, pat, i) {
          var i :| OccursAt(s, pat, i);
          assert i != 0;
          assert s[i..i + |pat|] == s[1..][i - 1..i - 1 + |pat|];
          assert OccursAt(s[1..], pat, i - 1);
        }
      }
    } else {
      assert forall i :: !OccursAt(s, pat, i);
    }
  }

  /** Python's `str.isspace()` for one character. */
  predicate IsSpace(ch: char)
  {
    var n := ch as int;
    (9 <= n <= 13) || (0x1C <= n <= 0x20) || n == 0x85 || n == 0xA0 || n == 0x1680
    || (0x2000 <= n <= 0x200A) || n == 0x2028 || n == 0x2029 || n == 0x202F
    || n == 0x205F || n == 0x3000
  }

  /** `s.lstrip()`: the suffix left after the leading whitespace. */
  function StripLeft(s: string): (r: string)
    decreases |s|
  {
    if s != [] && IsSpace(s[0]) then StripLeft(s[1..]) else s
  }

  /** `s.rstrip()`: the prefix left before the trailing whitespace. */
  function StripRight(s: string): (r: string)
    decreases |s|
  {
    if s != [] && IsSpace(Last(s)) then StripRight(DropLast(s)) else s
  }

  lemma {:induction false} StripLeftSpec(s: string)
    ensures var r := StripLeft(s);
      && |r| <= |s| && r == s[|s| - |r|..]
      && (forall k :: 0 <= k < |s| - |r| ==> IsSpace(s[k]))
      && (r != [] ==> !IsSpace(r[0]))
    decreases |s|
  {
    if s != [] && IsSpace(s[0]) {
      StripLeftSpec(s[1..]);
      var r := StripLeft(s[1..]);
      forall k | 0 <= k < |s| - |r| ensures IsSpace(s[k]) {
        if k > 0 {
          assert s[k] == s[1..][k - 1];
        }
      }
    }
  }

  lemma {:induction false} StripRightSpec(s: string)
    ensures var r := StripRight(s);
      && |r| <= |s| && r == s[..|r|]
      && (forall k :: |r| <= k < |s| ==> IsSpace(s[k]))
      && (r != [] ==> !IsSpace(Last(r)))
    decreases |s|
  {
    if s != [] && IsSpace(Last(s)) {
      StripRightSpec(DropLast(s));
      var r := StripRight(DropLast(s));
      forall k | |r| <= k < |s| ensures IsSpace(s[k]) {
        if k < |s| - 1 {
          assert s[k] == DropLast(s)[k];
        }
      }
    }
  }

  /** `s.strip()`. */
  function Strip(s: string): string
  {
    StripRight(StripLeft(s))
  }

  /** What `strip` keeps is the middle of `s`, between two runs of
      whitespace, and begins and ends with a non-space character. */
  lemma StripKeepsMiddle(s: string)
    ensures var r, i := Strip(s), |s| - |StripLeft(s)|;
      && 0 <= i && i + |r| <= |s| && s[i..i + |r|] == r
      && (forall k :: 0 <= k < i ==> IsSpace(s[k]))
      && (forall k :: i + |r| <= k < |s| ==> IsSpace(s[k]))
      && (r != [] ==> !IsSpace(r[0]) && !IsSpace(Last(r)))
  {
    var l := StripLeft(s);
    var r := StripRight(l);
    var i := |s| - |l|;
    StripLeftSpec(s);
    StripRightSpec(l);
    assert s[i..i + |r|] == l[..|r|];
    forall k | i + |r| <= k < |s| ensures IsSpace(s[k]) {
      assert s[k] == l[k - i];
    }
  }

  /** Stripping twice is stripping once. */
  lemma StripIdempotent(s: string)
    ensures Strip(Strip(s)) == Strip(s)
  {
    var r := Strip(s);
    StripLeftSpec(s);
    StripRightSpec(StripLeft(s));
    if r != [] {
      assert StripLeft(r) == r;
      assert StripRight(r) == r;
    }
  }

  /** The line boundaries of Python's `str.splitlines()`. */
  predicate IsLineBreak(ch: char)
  {
    var n := ch as int;
    (10 <= n <= 13) || (0x1C <= n <= 0x1E) || n == 0x85 || n == 0x2028 || n == 0x2029
  }

  /** The index of the first line boundary in `s`, or `|s|` if there is none. */
  function FirstBreak(s: string): (k: nat)
    ensures k <= |s|
    ensures k < |s| ==> IsLineBreak(s[k])
    ensures forall j :: 0 <= j < k ==> !IsLineBreak(s[j])
    decreases |s|
  {
    if s == [] then 0
    else if IsLineBreak(s[0]) then 0
    else 1 + FirstBreak(s[1..])
  }

  /** `s.splitlines()`: "\r\n" is one boundary and a final boundary does
      not start an empty line. */
  function SplitLines(s: string): (lines: seq<string>)
    ensures forall i :: 0 <= i < |lines| ==> forall j :: 0 <= j < |lines[i]| ==> !IsLineBreak(lines[i][j])
    decreases |s|
  {
    if s == [] then []
    else
      var k := FirstBreak(s);
      if k == |s| then [s]
      else
        var skip := if s[k] == '\r' && k + 1 < |s| && s[k + 1] == '\n' then 2 else 1;
        [s[..k]] + SplitLines(s[k + skip..])
  }

  predicate NoLineBreak(line: string)
  {
    forall j :: 0 <= j < |line| ==> !IsLineBreak(line[j])
  }

  /** Lines free of boundaries, the last one not empty, come back from
      `"\n".join` followed by `splitlines`. */
  lemma {:induction false} SplitLinesJoin(lines: seq<string>)
    requires forall i :: 0 <= i < |lines| ==> NoLineBreak(lines[i])
    requires lines != [] ==> Last(lines) != ""
    ensures SplitLines(Join("\n", lines)) == lines
    decreases |lines|
  {
    if |lines| == 1 {
      assert FirstBreak(lines[0]) == |lines[0]|;
    } else if |lines| > 1 {
      var a := lines[0];
      var rest := lines[1..];
      assert lines == [a] + rest;
      JoinCons("\n", a, rest);
      var s := a + "\n" + Join("\n", rest);
      assert FirstBreak(s) == |a| by {
        assert forall j :: 0 <= j < |a| ==> s[j] == a[j];
        assert s[|a|] == '\n';
      }
      assert s[..|a|] == a;
      assert s[|a| + 1..] == Join("\n", rest);
      SplitLinesJoin(rest);
    }
  }

  function DigitChar(d: nat): char
    requires d < 10
  {
    ('0' as int + d) as char
  }

  function NatDigits(n: nat): (r: string)
    ensures |r| >= 1
    ensures forall i :: 0 <= i < |r| ==> '0' <= r[i] <= '9'
  {
    if n < 10 then [DigitChar(n)] else NatDigits(n / 10) + [DigitChar(n % 10)]
  }

  /** `str(n)` for a Python int. */
  function DecimalString(n: int): string
  {
    if n < 0 then "-" + NatDigits(-n) else NatDigits(n)
  }
}
