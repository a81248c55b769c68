/**
  The parts of Python's `str` that the retention rule uses: the `<` order,
  `startswith`, and the descending order `sorted(..., reverse=True)` produces.
 */
module Strings {

  /** Python's `a < b` on strings: code points compared from the left, a proper prefix first. */
  predicate Below(a: string, b: string)
    decreases |a|
  {
    if a == [] then b != []
    else if b == [] then false
    else if a[0] != b[0] then a[0] < b[0]
    else Below(a[1..], b[1..])
  }

  /** Python's `s.startswith(p)`. */
  predicate StartsWith(s: string, p: string)
  {
    p <= s
  }

  /** The elements of a sequence, as a set. */
  function Elements(s: seq<string>): set<string>
  {
    set x | x in s
  }

  /** No name occurs twice (what `os.listdir` guarantees of its result). */
  predicate Distinct(s: seq<string>)
  {
    forall x | x in s :: multiset(s)[x] <= 1
  }

  /** No element is below a later one: the order `sorted(xs, reverse=True)` yields. */
  predicate Descending(s: seq<string>)
  {
    forall i, j :: 0 <= i < j < |s| ==> !Below(s[i], s[j])
  }

  /** Every element is above every later one. */
  predicate StrictlyDescending(s: seq<string>)
  {
    forall i, j :: 0 <= i < j < |s| ==> Below(s[j], s[i])
  }

  // ---------------------------------------------------------------------------
  // `<` on strings is a strict total order

  lemma {:induction false} BelowIrreflexive(a: string)
    ensures !Below(a, a)
  {
    if a != [] {
      BelowIrreflexive(a[1..]);
    }
  }

  lemma {:induction false} BelowAsymmetric(a: string, b: string)
    requires Below(a, b)
    ensures !Below(b, a)
  {
    if a != [] && b != [] && a[0] == b[0] {
      BelowAsymmetric(a[1..], b[1..]);
    }
  }

  lemma {:induction false} BelowTransitive(a: string, b: string, c: string)
    requires Below(a, b) && Below(b, c)
    ensures Below(a, c)
  {
    if a != [] && a[0] == b[0] && b[0] == c[0] {
      BelowTransitive(a[1..], b[1..], c[1..]);
    }
  }

  lemma {:induction false} BelowTotal(a: string, b: string)
    requires a != b
    ensures Below(a, b) || Below(b, a)
  {
    if a != [] && b != [] && a[0] == b[0] {
      assert a == [a[0]] + a[1..] && b == [b[0]] + b[1..];
      BelowTotal(a[1..], b[1..]);
    }
  }

  /**
    Two concatenations whose first parts have equal length compare on the first
    parts, then on the second, and are equal exactly when both parts are.
   */
  lemma {:induction false} CompareConcat(a1: string, a2: string, b1: string, b2: string)
    requires |a1| == |b1|
    ensures Below(a1 + a2, b1 + b2) <==> Below(a1, b1) || (a1 == b1 && Below(a2, b2))
    ensures a1 + a2 == b1 + b2 <==> a1 == b1 && a2 == b2
  {
    if a1 + a2 == b1 + b2 {
      assert a1 == (a1 + a2)[..|a1|] && b1 == (b1 + b2)[..|b1|];
      assert a2 == (a1 + a2)[|a1|..] && b2 == (b1 + b2)[|b1|..];
    }
    if a1 == [] {
      assert a1 + a2 == a2 && b1 + b2 == b2;
    } else {
      assert (a1 + a2)[0] == a1[0] && (b1 + b2)[0] == b1[0];
      assert (a1 + a2)[1..] == a1[1..] + a2;
      assert (b1 + b2)[1..] == b1[1..] + b2;
      CompareConcat(a1[1..], a2, b1[1..], b2);
      assert a1 == [a1[0]] + a1[1..] && b1 == [b1[0]] + b1[1..];
    }
  }

  // ---------------------------------------------------------------------------
  // sorted(xs, reverse=True), as an insertion sort

  /** Inserts `x` into a descending sequence, in front of the first element it is not below. */
  function Insert(x: string, s: seq<string>): seq<string>
  {
    if s == [] || !Below(x, s[0]) then [x] + s
    else [s[0]] + Insert(x, s[1..])
  }

  /** The strings of `xs`, greatest first: Python's `sorted(xs, reverse=True)`. */
  function SortDesc(xs: seq<string>): seq<string>
  {
    if xs == [] then [] else Insert(xs[0], SortDesc(xs[1..]))
  }

  lemma {:induction false} InsertPermutes(x: string, s: seq<string>)
    ensures multiset(Insert(x, s)) == multiset(s) + multiset{x}
  {
    if s != [] && Below(x, s[0]) {
      InsertPermutes(x, s[1..]);
      assert s == [s[0]] + s[1..];
    }
  }

  /** A head that is not below any element of a descending tail keeps the sequence descending. */
  lemma ConsDescending(h: string, t: seq<string>)
    requires Descending(t)
    requires forall y :: y in t ==> !Below(h, y)
    ensures Descending([h] + t)
  {
    var s := [h] + t;
    forall i, j | 0 <= i < j < |s|
      ensures !Below(s[i], s[j])
    {
      if i == 0 {
        assert s[j] == t[j - 1] && s[j] in t;
      } else {
        assert s[i] == t[i - 1] && s[j] == t[j - 1];
      }
    }
  }

  lemma {:induction false} InsertDescending(x: string, s: seq<string>)
    requires Descending(s)
    ensures Descending(Insert(x, s))
  {
    if s == [] || !Below(x, s[0]) {
      forall y | y in s
        ensures !Below(x, y)
      {
        var j :| 0 <= j < |s| && s[j] == y;
        if y != s[0] {
          assert j > 0 && !Below(s[0], y);
          BelowTotal(y, s[0]);
          if Below(x, y) {
            BelowTransitive(x, y, s[0]);
          }
        }
      }
      ConsDescending(x, s);
    } else {
      var t := Insert(x, s[1..]);
      assert Descending(s[1..]) by {
        forall i, j | 0 <= i < j < |s[1..]|
          ensures !Below(s[1..][i], s[1..][j])
        {
          assert s[1..][i] == s[i + 1] && s[1..][j] == s[j + 1];
        }
      }
      InsertDescending(x, s[1..]);
      InsertPermutes(x, s[1..]);
      forall y | y in t
        ensures !Below(s[0], y)
      {
        assert y in multiset(t);
        if y == x {
          BelowAsymmetric(x, s[0]);
        } else {
          assert y in multiset(s[1..]);
          var j :| 0 <= j < |s[1..]| && s[1..][j] == y;
          assert s[j + 1] == y;
        }
      }
      ConsDescending(s[0], t);
    }
  }

  lemma {:induction false} SortPermutes(xs: seq<string>)
    ensures multiset(SortDesc(xs)) == multiset(xs)
  {
    if xs != [] {
      SortPermutes(xs[1..]);
      InsertPermutes(xs[0], SortDesc(xs[1..]));
      assert xs == [xs[0]] + xs[1..];
    }
  }

  lemma {:induction false} SortDescending(xs: seq<string>)
    ensures Descending(SortDesc(xs))
  {
    if xs != [] {
      SortDescending(xs[1..]);
      InsertDescending(xs[0], SortDesc(xs[1..]));
    }
  }

  // ---------------------------------------------------------------------------
  // Duplicate-free sequences

  /** Two positions of a duplicate-free sequence hold different strings. */
  lemma DistinctAt(s: seq<string>, i: int, j: int)
    requires Distinct(s)
    requires 0 <= i < j < |s|
    ensures s[i] != s[j]
  {
    assert s == s[..j] + s[j..];
    assert s[j..][0] == s[j];
    assert multiset(s)[s[j]] == multiset(s[..j])[s[j]] + multiset(s[j..])[s[j]];
    assert s[j] !in s[..j];
    assert s[..j][i] == s[i];
  }

  /** For duplicate-free sequences, `sorted(reverse=True)` orders strictly. */
  lemma DescendingDistinctIsStrict(s: seq<string>)
    requires Descending(s) && Distinct(s)
    ensures StrictlyDescending(s)
  {
    forall i, j | 0 <= i < j < |s|
      ensures Below(s[j], s[i])
    {
      DistinctAt(s, i, j);
      BelowTotal(s[i], s[j]);
    }
  }

  lemma StrictlyDescendingIsDistinct(s: seq<string>)
    requires StrictlyDescending(s)
    ensures Distinct(s)
  {
    if s != [] {
      var t := s[1..];
      assert StrictlyDescending(t) by {
        forall i, j | 0 <= i < j < |t|
          ensures Below(t[j], t[i])
        {
          assert t[i] == s[i + 1] && t[j] == s[j + 1];
        }
      }
      StrictlyDescendingIsDistinct(t);
      assert s[0] !in t by {
        if s[0] in t {
          var k :| 0 <= k < |t| && t[k] == s[0];
          assert Below(s[k + 1], s[0]);
          BelowIrreflexive(s[0]);
        }
      }
      assert s == [s[0]] + t;
    }
  }

  /** A duplicate-free sequence has as many elements as distinct strings. */
  lemma {:induction false} DistinctCard(s: seq<string>)
    requires Distinct(s)
    ensures |Elements(s)| == |s|
  {
    if s != [] {
      var t := s[1..];
      assert s == [s[0]] + t;
      assert multiset(s) == multiset{s[0]} + multiset(t);
      assert Distinct(t) by {
        forall x | x in t
          ensures multiset(t)[x] <= 1
        {
          assert x in s && multiset(t)[x] <= multiset(s)[x];
        }
      }
      assert s[0] !in t by {
        assert s[0] in s;
        assert multiset(t)[s[0]] == 0;
      }
      assert Elements(s) == {s[0]} + Elements(t);
      DistinctCard(t);
    }
  }

  /** Dropping the greatest element of a strictly descending sequence. */
  lemma RankingTail(r: seq<string>)
    requires StrictlyDescending(r) && r != []
    ensures StrictlyDescending(r[1..])
    ensures r[0] !in r[1..]
    ensures Elements(r) == {r[0]} + Elements(r[1..])
  {
    var t := r[1..];
    forall a, b | 0 <= a < b < |t|
      ensures Below(t[b], t[a])
    {
      assert t[a] == r[a + 1] && t[b] == r[b + 1];
    }
    StrictlyDescendingIsDistinct(r);
    assert r == [r[0]] + t;
    assert r[0] in r && multiset(r) == multiset{r[0]} + multiset(t);
  }

  /** The head of a strictly descending sequence is above all its other elements. */
  lemma RankingHead(r: seq<string>, x: string)
    requires StrictlyDescending(r) && x in r && x != r[0]
    ensures Below(x, r[0])
  {
  }

  /** Only the empty sequence has no elements. */
  lemma NoElements(r: seq<string>)
    ensures Elements(r) == {} <==> r == []
  {
    if r != [] {
      assert r[0] in Elements(r);
    }
  }

  /** Two strictly descending sequences with the same elements start with the same string. */
  lemma RankingSameHead(r1: seq<string>, r2: seq<string>)
    requires StrictlyDescending(r1) && StrictlyDescending(r2)
    requires Elements(r1) == Elements(r2) && r1 != []
    ensures r2 != [] && r1[0] == r2[0]
  {
    assert r1[0] in Elements(r1);
    assert r2 != [] && r2[0] in Elements(r2);
    if r1[0] != r2[0] {
      RankingHead(r2, r1[0]);
      RankingHead(r1, r2[0]);
      BelowAsymmetric(r1[0], r2[0]);
    }
  }

  /** Two strictly descending sequences with the same elements and the same head have tails with the same elements. */
  lemma RankingSameTail(r1: seq<string>, r2: seq<string>)
    requires StrictlyDescending(r1) && StrictlyDescending(r2)
    requires Elements(r1) == Elements(r2) && r1 != [] && r2 != [] && r1[0] == r2[0]
    ensures StrictlyDescending(r1[1..]) && StrictlyDescending(r2[1..])
    ensures Elements(r1[1..]) == Elements(r2[1..])
  {
    RankingTail(r1);
    RankingTail(r2);
  }

  /** Two strictly descending sequences with the same elements are the same sequence. */
  lemma {:induction false} RankingUnique(r1: seq<string>, r2: seq<string>)
    requires StrictlyDescending(r1) && StrictlyDescending(r2)
    requires Elements(r1) == Elements(r2)
    ensures r1 == r2
  {
    NoElements(r1);
    NoElements(r2);
    if r1 != [] {
      RankingSameHead(r1, r2);
      RankingSameTail(r1, r2);
      RankingUnique(r1[1..], r2[1..]);
      assert r1 == [r1[0]] + r1[1..] && r2 == [r2[0]] + r2[1..];
    }
  }
}
