/** The neighbour matcher of src/commit_scopes/distance.rs: the scopes whose
    historical files overlap the staged files most, and the least of them
    under the derived ordering. */
module Distance {
  import opened Wrappers
  import opened Utils
  import opened Sorting
  import opened History

  /** The number of staged paths that are exactly equal to one of `files`. */
  function Overlap(staged: ChangedFiles, files: ChangedFiles): (n: nat)
    ensures n == 0 <==> staged !! files
    ensures n <= |staged| && n <= |files|
    ensures staged <= files ==> n == |staged|
    ensures files <= staged ==> n == |files|
  {
    var common := staged * files;
    assert staged <= files ==> common == staged;
    assert files <= staged ==> common == files;
    SubsetCardinality(common, staged);
    SubsetCardinality(common, files);
    |common|
  }

  lemma {:induction false} SubsetCardinality<T>(a: set<T>, b: set<T>)
    requires a <= b
    ensures |a| <= |b|
    decreases |b|
  {
    if a != {} {
      var x :| x in a;
      SubsetCardinality(a - {x}, b - {x});
    }
  }

  /** The overlap of scope `k`'s files with the staged files. */
  function OverlapOf(staged: ChangedFiles, index: ScopeIndex, k: CommitScope): nat
    requires k in index
  {
    Overlap(staged, index[k])
  }

  /** The fold accumulator: the largest positive overlap seen, and the scopes having it. */
  type Best = (nat, set<CommitScope>)

  /** One fold step: zero overlaps and smaller ones are ignored, an equal one
      joins the set, a larger one starts a new set. */
  function Step(acc: Best, scope: CommitScope, overlap: nat): (r: Best)
    ensures acc.0 <= r.0 && (0 < overlap ==> overlap <= r.0)
    ensures r.0 == acc.0 ==> acc.1 <= r.1 <= acc.1 + {scope}
    ensures r.0 > acc.0 ==> r.0 == overlap && r.1 == {scope}
  {
    if overlap == 0 then acc
    else if overlap < acc.0 then acc
    else if overlap == acc.0 then (acc.0, acc.1 + {scope})
    else (overlap, {scope})
  }

  /** The fold of `find_by_overlap` over the scopes in the map's iteration order `order`. */
  function FoldOverlaps(staged: ChangedFiles, index: ScopeIndex, order: seq<CommitScope>): (r: Best)
    requires forall i :: 0 <= i < |order| ==> order[i] in index
    ensures r.1 == {} <==> r.0 == 0
  {
    if order == [] then (0, {})
    else
      var n := |order| - 1;
      Step(FoldOverlaps(staged, index, order[..n]), order[n], OverlapOf(staged, index, order[n]))
  }

  /** What the fold keeps after any prefix of the iteration: the maximum
      overlap seen (0 when none is positive), and exactly the scopes seen with
      that positive overlap. */
  lemma FoldOverlapsInvariant(staged: ChangedFiles, index: ScopeIndex, order: seq<CommitScope>)
    requires forall i :: 0 <= i < |order| ==> order[i] in index
    ensures forall i :: 0 <= i < |order| ==> OverlapOf(staged, index, order[i]) <= FoldOverlaps(staged, index, order).0
    ensures FoldOverlaps(staged, index, order).0 > 0 ==>
              exists i :: 0 <= i < |order| && OverlapOf(staged, index, order[i]) == FoldOverlaps(staged, index, order).0
    ensures forall k :: k in FoldOverlaps(staged, index, order).1 <==>
              k in order && 0 < OverlapOf(staged, index, k) == FoldOverlaps(staged, index, order).0
  {
    FoldMaximum(staged, index, order);
    FoldKeeps(staged, index, order);
  }

  /** The kept overlap is the maximum over the scopes seen, attained by one of
      them when positive. */
  lemma {:induction false} FoldMaximum(staged: ChangedFiles, index: ScopeIndex, order: seq<CommitScope>)
    requires forall i :: 0 <= i < |order| ==> order[i] in index
    ensures forall i :: 0 <= i < |order| ==> OverlapOf(staged, index, order[i]) <= FoldOverlaps(staged, index, order).0
    ensures FoldOverlaps(staged, index, order).0 > 0 ==>
              exists i :: 0 <= i < |order| && OverlapOf(staged, index, order[i]) == FoldOverlaps(staged, index, order).0
    decreases |order|
  {
    if order != [] {
      var n := |order| - 1;
      var init := order[..n];
      assert forall i :: 0 <= i < n ==> order[i] == init[i];
      FoldMaximum(staged, index, init);
      var before := FoldOverlaps(staged, index, init);
      var after := FoldOverlaps(staged, index, order);
      assert after == Step(before, order[n], OverlapOf(staged, index, order[n]));
      if after.0 > 0 && after.0 == before.0 {
        var i :| 0 <= i < n && OverlapOf(staged, index, init[i]) == before.0;
        assert OverlapOf(staged, index, order[i]) == after.0;
      }
    }
  }

  /** The kept set is exactly the scopes seen whose overlap is the positive maximum. */
  lemma {:induction false} FoldKeeps(staged: ChangedFiles, index: ScopeIndex, order: seq<CommitScope>)
    requires forall i :: 0 <= i < |order| ==> order[i] in index
    ensures forall k :: k in FoldOverlaps(staged, index, order).1 <==>
              k in order && 0 < OverlapOf(staged, index, k) == FoldOverlaps(staged, index, order).0
    decreases |order|
  {
    if order != [] {
      var n := |order| - 1;
      var init := order[..n];
      assert forall i :: 0 <= i < n ==> order[i] == init[i];
      FoldKeeps(staged, index, init);
      FoldMaximum(staged, index, init);
      var before := FoldOverlaps(staged, index, init);
      var after := FoldOverlaps(staged, index, order);
      var ov := OverlapOf(staged, index, order[n]);
      assert after == Step(before, order[n], ov);
      assert forall k :: k in order <==> k in init || k == order[n] by {
        assert order == init + [order[n]];
      }
      forall k | k in init ensures OverlapOf(staged, index, k) <= before.0 {
        var i :| 0 <= i < n && init[i] == k;
      }
    }
  }

  /** `k` is a key whose overlap is positive and not exceeded by any other key. */
  predicate IsBestScope(staged: ChangedFiles, index: ScopeIndex, k: CommitScope)
  {
    k in index && 0 < OverlapOf(staged, index, k)
    && forall k2 :: k2 in index ==> OverlapOf(staged, index, k2) <= OverlapOf(staged, index, k)
  }

  /** `find_by_overlap`: exactly the scopes of largest positive overlap, and
      so the same set whatever order the map is iterated in. */
  function FindByOverlap(staged: ChangedFiles, index: ScopeIndex, order: seq<CommitScope>): (r: set<CommitScope>)
    requires forall k :: k in order <==> k in index
    ensures forall k :: k in r <==> IsBestScope(staged, index, k)
    ensures r == {} <==> forall k :: k in index ==> OverlapOf(staged, index, k) == 0
  {
    var best := FoldOverlaps(staged, index, order);
    FindByOverlapIsBest(staged, index, order);
    best.1
  }

  lemma FindByOverlapIsBest(staged: ChangedFiles, index: ScopeIndex, order: seq<CommitScope>)
    requires forall k :: k in order <==> k in index
    ensures forall k :: k in FoldOverlaps(staged, index, order).1 <==> IsBestScope(staged, index, k)
    ensures FoldOverlaps(staged, index, order).1 == {} <==> forall k :: k in index ==> OverlapOf(staged, index, k) == 0
  {
    FoldOverlapsInvariant(staged, index, order);
    var (m, best) := FoldOverlaps(staged, index, order);
    forall k2 | k2 in index ensures OverlapOf(staged, index, k2) <= m {
      var i :| 0 <= i < |order| && order[i] == k2;
    }
    forall k | IsBestScope(staged, index, k) ensures k in best {
      var i :| 0 <= i < |order| && order[i] == k;
      var j :| 0 <= j < |order| && OverlapOf(staged, index, order[j]) == m;
    }
    if exists k :: k in index && OverlapOf(staged, index, k) != 0 {
      var k :| k in index && OverlapOf(staged, index, k) != 0;
      var i :| 0 <= i < |order| && order[i] == k;
      var j :| 0 <= j < |order| && OverlapOf(staged, index, order[j]) == m;
      assert order[j] in best;
    }
  }

  /** The iteration order of the map does not change which scopes tie for best. */
  lemma FindByOverlapOrderIndependent(staged: ChangedFiles, index: ScopeIndex, o1: seq<CommitScope>, o2: seq<CommitScope>)
    requires forall k :: k in o1 <==> k in index
    requires forall k :: k in o2 <==> k in index
    ensures FindByOverlap(staged, index, o1) == FindByOverlap(staged, index, o2)
  {
    var r1, r2 := FindByOverlap(staged, index, o1), FindByOverlap(staged, index, o2);
    assert forall k :: k in r1 <==> k in r2;
  }

  /** `find_closest_neighbor`: the first of the best scopes once sorted, i.e.
      the best scope least under the derived ordering; None when no scope
      shares a file with the staged set. */
  ghost function FindClosestNeighbor(staged: ChangedFiles, index: ScopeIndex): (r: Option<CommitScope>)
    ensures r.None? <==> forall k :: k in index ==> OverlapOf(staged, index, k) == 0
    ensures r.Some? ==> IsBestScope(staged, index, r.value)
    ensures r.Some? ==> forall k :: IsBestScope(staged, index, k) ==> LessEq(r.value, k)
  {
    var best := FindByOverlap(staged, index, Enumerate(index.Keys));
    var sorted := SortSeq(Enumerate(best));
    assert |sorted| == |best| by { assert |multiset(sorted)| == |multiset(Enumerate(best))|; }
    if |sorted| == 0 then None
    else
      FirstSortedIsLeast(sorted, best);
      Some(sorted[0])
  }

  lemma FirstSortedIsLeast(sorted: seq<CommitScope>, best: set<CommitScope>)
    requires Sorted(sorted) && |sorted| > 0
    requires multiset(sorted) == multiset(Enumerate(best))
    ensures sorted[0] in best
    ensures forall k :: k in best ==> LessEq(sorted[0], k)
  {
    var e := Enumerate(best);
    assert sorted[0] in multiset(e);
    forall k | k in best ensures LessEq(sorted[0], k) {
      assert k in multiset(sorted);
      HeadIsLeast(sorted, k);
    }
  }

  /** Equal, containing, contained or partly overlapping: a scope that is the
      only one sharing files with the staged set is the match. */
  lemma SoleOverlapWins(staged: ChangedFiles, index: ScopeIndex, s: CommitScope)
    requires s in index && !(staged !! index[s])
    requires forall k :: k in index && k != s ==> staged !! index[k]
    ensures FindClosestNeighbor(staged, index) == Some(s)
  {
    var r := FindClosestNeighbor(staged, index);
    assert OverlapOf(staged, index, s) != 0;
    assert IsBestScope(staged, index, s);
  }

  /** Between two scopes tying for the largest overlap, the greater under the
      derived ordering is never returned. */
  lemma TieBreakPrefersLesser(staged: ChangedFiles, index: ScopeIndex, a: CommitScope, b: CommitScope)
    requires IsBestScope(staged, index, a) && IsBestScope(staged, index, b)
    requires Less(a, b)
    ensures FindClosestNeighbor(staged, index) != Some(b)
  {
    LessIsStrictTotalOrder(a, b, a);
  }

  /** Two scopes whose files equal the staged set tie; the lesser one wins
      over the tie and over a scope sharing nothing. */
  lemma ExactTieGoesToLesser(staged: ChangedFiles, index: ScopeIndex, a: CommitScope, b: CommitScope, c: CommitScope)
    requires index.Keys == {a, b, c}
    requires staged != {} && index[a] == staged && index[b] == staged
    requires staged !! index[c]
    requires Less(a, b)
    ensures FindClosestNeighbor(staged, index) == Some(a)
  {
    var r := FindClosestNeighbor(staged, index);
    ExactMatchIsBest(staged, index, a);
    ExactMatchIsBest(staged, index, b);
    TieBreakPrefersLesser(staged, index, a, b);
    ClosestOverlaps(staged, index, a);
    assert r.value != c by {
      assert staged !! index[c];
    }
  }

  /** When some scope overlaps the staged files, the neighbour exists and
      overlaps them too. */
  lemma ClosestOverlaps(staged: ChangedFiles, index: ScopeIndex, a: CommitScope)
    requires a in index && OverlapOf(staged, index, a) > 0
    ensures FindClosestNeighbor(staged, index).Some?
    ensures FindClosestNeighbor(staged, index).value in index
    ensures !(staged !! index[FindClosestNeighbor(staged, index).value])
  {
  }

  /** A scope whose files are exactly the non-empty staged set has the
      largest overlap possible. */
  lemma ExactMatchIsBest(staged: ChangedFiles, index: ScopeIndex, a: CommitScope)
    requires a in index && index[a] == staged && staged != {}
    ensures IsBestScope(staged, index, a)
  {
    assert OverlapOf(staged, index, a) == |staged|;
    forall k | k in index ensures OverlapOf(staged, index, k) <= |staged| {
    }
  }

  /** The tie of src/commit_scopes/distance.rs:178-202: "needle" beats "z_needle". */
  lemma NeedleBeatsZNeedle(staged: ChangedFiles, index: ScopeIndex)
    requires staged == {"foo", "bar"}
    requires index == map[New("needle") := {"foo", "bar"}, New("z_needle") := {"foo", "bar"}, New("cruft") := {"baz"}]
    ensures FindClosestNeighbor(staged, index) == Some(New("needle"))
  {
    var needle, zNeedle, cruft := New("needle"), New("z_needle"), New("cruft");
    assert Less(needle, zNeedle) by { assert StrLess("needle", "z_needle"); }
    assert "foo" in staged;
    assert staged !! index[cruft];
    ExactTieGoesToLesser(staged, index, needle, zNeedle, cruft);
  }

  /** No scope shares a file with the staged set: no match
      (src/commit_scopes/distance.rs:270-287). */
  lemma DisjointGivesNone(staged: ChangedFiles, index: ScopeIndex)
    requires forall k :: k in index ==> staged !! index[k]
    ensures FindClosestNeighbor(staged, index) == None
  {
  }
}
