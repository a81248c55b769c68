/**
  The retention rule of `cleanup_backups`: of the directory entries whose
  names start with `mc_backup_`, sorted greatest first, every one after the
  first `MAX_BACKUPS` is deleted.

  The first half follows the code: a filter, a descending sort and a slice over
  the listing. The second half is an independent description on the set of
  names, which does not depend on the order the listing came in: a candidate is
  deleted exactly when at least `MAX_BACKUPS` other candidates sort above it.
  The lemmas connect the two and derive counting, idempotence and survival.
 */
module Retention {
  import opened Strings

  /** The literal `cleanup_backups` filters on. */
  const CandidatePrefix: string := "mc_backup_"

  /** `MAX_BACKUPS`. */
  const MaxBackups: nat := 5

  /** An entry the cleanup considers: `f.startswith("mc_backup_")`. */
  predicate IsCandidate(name: string)
  {
    StartsWith(name, CandidatePrefix)
  }

  // ---------------------------------------------------------------------------
  // The computation, as the code performs it on the listing

  /** `[f for f in listing if f.startswith("mc_backup_")]`. */
  function Filter(listing: seq<string>): seq<string>
  {
    if listing == [] then []
    else if IsCandidate(listing[0]) then [listing[0]] + Filter(listing[1..])
    else Filter(listing[1..])
  }

  /** `backups`: the candidates of the listing, greatest first. */
  function Ranked(listing: seq<string>): seq<string>
  {
    SortDesc(Filter(listing))
  }

  /** The names the deletion loop visits: `backups[MAX_BACKUPS:]` when `len(backups) > MAX_BACKUPS`, else none. */
  function Doomed(listing: seq<string>): seq<string>
  {
    var backups := Ranked(listing);
    if |backups| > MaxBackups then backups[MaxBackups..] else []
  }

  /** The candidates the deletion loop does not visit. */
  function Kept(listing: seq<string>): seq<string>
  {
    var backups := Ranked(listing);
    if |backups| > MaxBackups then backups[..MaxBackups] else backups
  }

  // ---------------------------------------------------------------------------
  // The rule, stated on the set of names in the directory

  /** `listing` names every entry of `names` exactly once, in some order: what `os.listdir` returns. */
  predicate Enumerates(listing: seq<string>, names: set<string>)
  {
    Distinct(listing) && Elements(listing) == names
  }

  /** The entries of the directory that the cleanup considers. */
  function Candidates(names: set<string>): set<string>
  {
    set x | x in names && IsCandidate(x)
  }

  /** The names of `c` that sort above `x`. */
  function Newer(c: set<string>, x: string): set<string>
  {
    set y | y in c && Below(x, y)
  }

  /** The candidates that at least `MaxBackups` other candidates sort above. */
  function Outranked(names: set<string>): set<string>
  {
    set x | x in Candidates(names) && |Newer(Candidates(names), x)| >= MaxBackups
  }

  /** The directory once the outranked candidates are removed; only candidates are ever removed. */
  function AfterCleanup(names: set<string>): (r: set<string>)
    ensures r <= names
    ensures forall x :: x in names && !IsCandidate(x) ==> x in r
  {
    names - Outranked(names)
  }

  // ---------------------------------------------------------------------------
  // Lemmas: from the listing to its ranking

  /** The filter keeps every candidate as often as it occurs and drops everything else. */
  lemma {:induction false} FilterKeepsCandidates(listing: seq<string>)
    ensures forall x :: multiset(Filter(listing))[x] == if IsCandidate(x) then multiset(listing)[x] else 0
  {
    if listing != [] {
      FilterKeepsCandidates(listing[1..]);
      assert listing == [listing[0]] + listing[1..];
    }
  }

  /** For a listing of the directory, `backups` is the candidates, each once, strictly greatest first. */
  lemma RankedIsRanking(listing: seq<string>, names: set<string>)
    requires Enumerates(listing, names)
    ensures StrictlyDescending(Ranked(listing))
    ensures Elements(Ranked(listing)) == Candidates(names)
    ensures |Ranked(listing)| == |Candidates(names)|
  {
    var f := Filter(listing);
    var r := Ranked(listing);
    FilterKeepsCandidates(listing);
    SortPermutes(f);
    SortDescending(f);
    assert Distinct(r) by {
      forall x | x in r
        ensures multiset(r)[x] <= 1
      {
        assert x in multiset(r);
        assert x in listing;
      }
    }
    DescendingDistinctIsStrict(r);
    forall x
      ensures x in Elements(r) <==> x in Candidates(names)
    {
      assert x in r <==> x in multiset(r);
      assert x in listing <==> x in multiset(listing);
    }
    DistinctCard(r);
  }

  /** Every finite set of names has a listing. */
  lemma {:induction false} Enumerate(names: set<string>) returns (listing: seq<string>)
    ensures Enumerates(listing, names)
    decreases |names|
  {
    if names == {} {
      listing := [];
    } else {
      var x :| x in names;
      var rest := Enumerate(names - {x});
      listing := rest + [x];
      assert x !in rest by {
        assert x !in Elements(rest);
      }
      assert multiset(listing) == multiset(rest) + multiset{x};
      assert Elements(listing) == Elements(rest) + {x};
    }
  }

  /** Every directory has a ranking of its candidates. */
  lemma RankingExists(names: set<string>) returns (r: seq<string>)
    ensures StrictlyDescending(r) && Elements(r) == Candidates(names)
  {
    var listing := Enumerate(names);
    RankedIsRanking(listing, names);
    r := Ranked(listing);
  }

  // ---------------------------------------------------------------------------
  // Lemmas: positions in a ranking

  lemma StrictSlice(r: seq<string>, lo: int, hi: int)
    requires StrictlyDescending(r) && 0 <= lo <= hi <= |r|
    ensures StrictlyDescending(r[lo..hi])
  {
    var s := r[lo..hi];
    forall i, j | 0 <= i < j < |s|
      ensures Below(s[j], s[i])
    {
      assert s[i] == r[lo + i] && s[j] == r[lo + j];
    }
  }

  /** A name occurs at one position only. */
  lemma RankUnique(r: seq<string>, i: int, j: int)
    requires StrictlyDescending(r) && 0 <= i < |r| && 0 <= j < |r| && r[i] == r[j]
    ensures i == j
  {
    if i < j {
      BelowIrreflexive(r[i]);
    } else if j < i {
      BelowIrreflexive(r[i]);
    }
  }

  /** The names above position `i` of a ranking are exactly the `i` names before it. */
  lemma NewerAreBefore(r: seq<string>, i: int)
    requires StrictlyDescending(r) && 0 <= i < |r|
    ensures Newer(Elements(r), r[i]) == Elements(r[..i])
    ensures |Newer(Elements(r), r[i])| == i
  {
    forall y | y in Newer(Elements(r), r[i])
      ensures y in Elements(r[..i])
    {
      var j :| 0 <= j < |r| && r[j] == y;
      if j == i {
        BelowIrreflexive(y);
      } else if j > i {
        BelowAsymmetric(r[j], r[i]);
      }
      assert r[..i][j] == y;
    }
    forall y | y in Elements(r[..i])
      ensures y in Newer(Elements(r), r[i])
    {
      var j :| 0 <= j < i && r[..i][j] == y;
      assert r[j] == y;
    }
    StrictSlice(r, 0, i);
    StrictlyDescendingIsDistinct(r[..i]);
    DistinctCard(r[..i]);
  }

  /** Cutting a ranking at `m` splits its names into two disjoint parts, every name of the first above every name of the second. */
  lemma SplitRanking(r: seq<string>, m: int)
    requires StrictlyDescending(r) && 0 <= m <= |r|
    ensures Elements(r[..m]) + Elements(r[m..]) == Elements(r)
    ensures forall k, d :: k in Elements(r[..m]) && d in Elements(r[m..]) ==> Below(d, k)
    ensures Elements(r[..m]) !! Elements(r[m..])
  {
    assert r == r[..m] + r[m..];
    forall k, d | k in Elements(r[..m]) && d in Elements(r[m..])
      ensures Below(d, k)
    {
      var i :| 0 <= i < m && r[..m][i] == k;
      var j :| 0 <= j < |r| - m && r[m..][j] == d;
      assert r[i] == k && r[m + j] == d;
    }
    forall x | x in Elements(r[..m])
      ensures x !in Elements(r[m..])
    {
      BelowIrreflexive(x);
    }
  }

  /** `Kept` and `Doomed` are the ranking cut after its first `MaxBackups` names. */
  lemma KeptDoomedCut(listing: seq<string>)
    ensures var r := Ranked(listing);
      && |Kept(listing)| == (if |r| > MaxBackups then MaxBackups else |r|)
      && Kept(listing) == r[..|Kept(listing)|]
      && Doomed(listing) == r[|Kept(listing)|..]
  {
  }

  /** In any ranking of the candidates, the outranked ones are those past position `MaxBackups`. */
  lemma OutrankedIsTail(names: set<string>, r: seq<string>)
    requires StrictlyDescending(r) && Elements(r) == Candidates(names)
    ensures Outranked(names) == if |r| > MaxBackups then Elements(r[MaxBackups..]) else {}
  {
    var tail := if |r| > MaxBackups then Elements(r[MaxBackups..]) else {};
    forall x | x in Candidates(names)
      ensures x in Outranked(names) <==> x in tail
    {
      var i :| 0 <= i < |r| && r[i] == x;
      NewerAreBefore(r, i);
      if x in tail {
        var j :| 0 <= j < |r[MaxBackups..]| && r[MaxBackups..][j] == x;
        RankUnique(r, i, MaxBackups + j);
      }
      if i >= MaxBackups {
        assert r[MaxBackups..][i - MaxBackups] == x;
      }
    }
  }

  // ---------------------------------------------------------------------------
  // Properties of the rule

  /**
    For any listing of the directory, the loop deletes exactly the outranked
    candidates, each once, in descending order.
   */
  lemma DoomedIsOutranked(listing: seq<string>, names: set<string>)
    requires Enumerates(listing, names)
    ensures Elements(Doomed(listing)) == Outranked(names)
    ensures Distinct(Doomed(listing)) && StrictlyDescending(Doomed(listing))
  {
    var r := Ranked(listing);
    RankedIsRanking(listing, names);
    OutrankedIsTail(names, r);
    if |r| > MaxBackups {
      StrictSlice(r, MaxBackups, |r|);
      assert r[MaxBackups..] == r[MaxBackups..|r|];
    }
    StrictlyDescendingIsDistinct(Doomed(listing));
  }

  /** The order `os.listdir` happens to list the directory in changes nothing about what is deleted. */
  lemma DoomedIgnoresListingOrder(l1: seq<string>, l2: seq<string>, names: set<string>)
    requires Enumerates(l1, names) && Enumerates(l2, names)
    ensures Doomed(l1) == Doomed(l2) && Kept(l1) == Kept(l2)
  {
    RankedIsRanking(l1, names);
    RankedIsRanking(l2, names);
    RankingUnique(Ranked(l1), Ranked(l2));
  }

  /** The candidates the loop leaves, followed by those it deletes, are all the candidates ranked; none is both. */
  lemma KeptAndDoomedPartition(listing: seq<string>, names: set<string>)
    requires Enumerates(listing, names)
    ensures Kept(listing) + Doomed(listing) == Ranked(listing)
    ensures Elements(Kept(listing)) == Candidates(AfterCleanup(names))
    ensures Elements(Kept(listing)) !! Elements(Doomed(listing))
  {
    var r := Ranked(listing);
    RankedIsRanking(listing, names);
    DoomedIsOutranked(listing, names);
    KeptDoomedCut(listing);
    var m := |Kept(listing)|;
    SplitRanking(r, m);
    assert r == r[..m] + r[m..];
    AfterCleanupCandidates(names);
  }

  /** The candidates after cleanup are the candidates less the outranked ones. */
  lemma AfterCleanupCandidates(names: set<string>)
    ensures Candidates(AfterCleanup(names)) == Candidates(names) - Outranked(names)
  {
  }

  /** With at most `MaxBackups` candidates nothing is deleted. */
  lemma NothingDeletedWhenFew(names: set<string>)
    requires |Candidates(names)| <= MaxBackups
    ensures Outranked(names) == {}
    ensures AfterCleanup(names) == names
  {
    var r := RankingExists(names);
    StrictlyDescendingIsDistinct(r);
    DistinctCard(r);
    OutrankedIsTail(names, r);
  }

  /** Afterwards `min(M, MaxBackups)` candidates remain, where `M` is the number there were. */
  lemma RemainingCount(names: set<string>)
    ensures |Candidates(AfterCleanup(names))| == if |Candidates(names)| <= MaxBackups then |Candidates(names)| else MaxBackups
  {
    var listing := Enumerate(names);
    KeptAndDoomedPartition(listing, names);
    RankedIsRanking(listing, names);
    var r, k := Ranked(listing), Kept(listing);
    StrictSlice(r, 0, |k|);
    assert k == r[..|k|];
    StrictlyDescendingIsDistinct(k);
    DistinctCard(k);
  }

  /** Every candidate that remains sorts above every candidate deleted: the newest `MaxBackups` survive. */
  lemma SurvivorsAreNewest(names: set<string>)
    ensures forall k, d :: k in Candidates(AfterCleanup(names)) && d in Outranked(names) ==> Below(d, k)
  {
    var listing := Enumerate(names);
    KeptAndDoomedPartition(listing, names);
    DoomedIsOutranked(listing, names);
    RankedIsRanking(listing, names);
    KeptDoomedCut(listing);
    SplitRanking(Ranked(listing), |Kept(listing)|);
  }

  /** A second cleanup of the directory the first one left deletes nothing. */
  lemma CleanupIdempotent(names: set<string>)
    ensures Outranked(AfterCleanup(names)) == {}
    ensures AfterCleanup(AfterCleanup(names)) == AfterCleanup(names)
  {
    RemainingCount(names);
    NothingDeletedWhenFew(AfterCleanup(names));
  }

  /**
    A candidate that sorts above every candidate already there is a candidate
    that the cleanup after adding it keeps.
   */
  lemma NewestSurvives(names: set<string>, n: string)
    requires IsCandidate(n)
    requires forall x :: x in Candidates(names) && x != n ==> Below(x, n)
    ensures n in Candidates(AfterCleanup(names + {n}))
  {
    var c := Candidates(names + {n});
    forall y | y in Newer(c, n)
      ensures false
    {
      if y == n {
        BelowIrreflexive(n);
      } else {
        assert y in Candidates(names);
        BelowAsymmetric(y, n);
      }
    }
    assert Newer(c, n) == {};
  }
}
