/** Small shared vocabulary: optional values, results, and the subsequence
    relation used to state "nothing invented, order kept". */
module Common {

  datatype Option<+T> = None | Some(value: T)

  datatype Result<+R, +E> = Success(value: R) | Failure(error: E)

  /** Python's `xs[-1]`. */
  function Last<T>(s: seq<T>): T
    requires |s| > 0
  {
    s[|s| - 1]
  }

  function DropLast<T>(s: seq<T>): seq<T>
    requires |s| > 0
  {
    s[..|s| - 1]
  }

  /** `a` is what remains of `b` after deleting some of its elements. */
  ghost predicate IsSubsequence<T>(a: seq<T>, b: seq<T>)
    decreases |b|
  {
    if a == [] then true
    else if b == [] then false
    else (Last(a) == Last(b) && IsSubsequence(DropLast(a), DropLast(b)))
         || IsSubsequence(a, DropLast(b))
  }

  lemma {:induction false} SubsequenceRefl<T>(a: seq<T>)
    ensures IsSubsequence(a, a)
    decreases |a|
  {
    if a != [] {
      SubsequenceRefl(DropLast(a));
    }
  }

  lemma {:induction false} SubsequenceExtend<T>(a: seq<T>, b: seq<T>, c: seq<T>)
    requires IsSubsequence(a, b)
    ensures IsSubsequence(a, b + c)
    decreases |c|
  {
    if c == [] {
      assert b + c == b;
    } else if a != [] {
      SubsequenceExtend(a, b, DropLast(c));
      assert DropLast(b + c) == b + DropLast(c);
    }
  }

  lemma {:induction false} SubsequenceConcat<T>(a: seq<T>, b: seq<T>, c: seq<T>, d: seq<T>)
    requires IsSubsequence(a, b) && IsSubsequence(c, d)
    ensures IsSubsequence(a + c, b + d)
    decreases |d|
  {
    if c == [] {
      assert a + c == a;
      SubsequenceExtend(a, b, d);
    } else {
      assert d != [];
      assert DropLast(b + d) == b + DropLast(d);
      assert DropLast(a + c) == a + DropLast(c);
      assert Last(a + c) == Last(c) && Last(b + d) == Last(d);
      if Last(c) == Last(d) && IsSubsequence(DropLast(c), DropLast(d)) {
        SubsequenceConcat(a, b, DropLast(c), DropLast(d));
      } else {
        SubsequenceConcat(a, b, c, DropLast(d));
      }
    }
  }

  lemma {:induction false} SubsequenceTrans<T>(a: seq<T>, b: seq<T>, c: seq<T>)
    requires IsSubsequence(a, b) && IsSubsequence(b, c)
    ensures IsSubsequence(a, c)
    decreases |c|
  {
    if a != [] {
      if IsSubsequence(b, DropLast(c)) {
        SubsequenceTrans(a, b, DropLast(c));
      } else if Last(a) == Last(b) && IsSubsequence(DropLast(a), DropLast(b)) {
        SubsequenceTrans(DropLast(a), DropLast(b), DropLast(c));
      } else {
        SubsequenceTrans(a, DropLast(b), DropLast(c));
      }
    }
  }

  /** If `a` is taken from `b + d` and `b` from `c`, then `a` is taken from
      `c + d`. */
  lemma SubsequenceWiden<T>(a: seq<T>, b: seq<T>, c: seq<T>, d: seq<T>)
    requires IsSubsequence(a, b + d) && IsSubsequence(b, c)
    ensures IsSubsequence(a, c + d)
  {
    SubsequenceRefl(d);
    SubsequenceConcat(b, c, d, d);
    SubsequenceTrans(a, b + d, c + d);
  }

  /** Dropping the first element leaves a subsequence. */
  lemma SubsequenceTail<T>(s: seq<T>)
    requires s != []
    ensures IsSubsequence(s[1..], s)
  {
    SubsequenceRefl(s[1..]);
    SubsequenceConcat([], [s[0]], s[1..], s[1..]);
    assert [] + s[1..] == s[1..] && [s[0]] + s[1..] == s;
  }

  /** Every element of a subsequence occurs in the original. */
  lemma {:induction false} SubsequenceMembers<T>(a: seq<T>, b: seq<T>, x: T)
    requires IsSubsequence(a, b) && x in a
    ensures x in b
    decreases |b|
  {
    if Last(a) == Last(b) && IsSubsequence(DropLast(a), DropLast(b)) {
      if x != Last(a) {
        assert a == DropLast(a) + [Last(a)];
        SubsequenceMembers(DropLast(a), DropLast(b), x);
      }
      assert b == DropLast(b) + [Last(b)];
    } else {
      SubsequenceMembers(a, DropLast(b), x);
      assert b == DropLast(b) + [Last(b)];
    }
  }

  /** A subsequence is never longer than the original. */
  lemma {:induction false} SubsequenceLength<T>(a: seq<T>, b: seq<T>)
    requires IsSubsequence(a, b)
    ensures |a| <= |b|
    decreases |b|
  {
    if a != [] {
      if Last(a) == Last(b) && IsSubsequence(DropLast(a), DropLast(b)) {
        SubsequenceLength(DropLast(a), DropLast(b));
      } else {
        SubsequenceLength(a, DropLast(b));
      }
    }
  }
}
