/** Scope-list assembly of src/commit_scopes/mod.rs: the merge of the
    configured scopes with the history index, the sort, and `push_to_first`,
    which moves the scope matching the staged files to the front. */
module CommitScopes {
  import opened Wrappers
  import opened Utils
  import opened Sorting
  import opened History
  import opened Distance

  // ---------------------------------------------------------------------------
  // push_to_first

  /** `Iterator::position`: the index of the first element equal to `x`. */
  function Position<T(==)>(v: seq<T>, x: T): (r: Option<nat>)
    ensures r.None? <==> x !in v
    ensures r.Some? ==> r.value < |v| && v[r.value] == x && x !in v[..r.value]
  {
    if v == [] then None
    else if v[0] == x then Some(0)
    else match Position(v[1..], x)
      case None => None
      case Some(i) =>
        assert v[..i + 1] == [v[0]] + v[1..][..i];
        Some(i + 1)
  }

  /** `v` without its first element equal to `x`. */
  function RemoveFirst<T(==)>(v: seq<T>, x: T): seq<T>
  {
    if v == [] then []
    else if v[0] == x then v[1..]
    else [v[0]] + RemoveFirst(v[1..], x)
  }

  /** The list `push_to_first` returns: `v.remove(index)` then `v.insert(0, first)`
      when `first` occurs, `v` itself otherwise. */
  function PushedToFirst<T(==)>(v: seq<T>, first: T): (r: seq<T>)
    ensures |r| == |v| && multiset(r) == multiset(v)
    ensures first in v ==> r[0] == first
    ensures first !in v ==> r == v
  {
    match Position(v, first)
    case None => v
    case Some(i) =>
      assert v == v[..i] + [first] + v[i + 1..];
      [first] + (v[..i] + v[i + 1..])
  }

  /** The other elements keep their relative order: behind the promoted
      element comes `v` with that one occurrence taken out. */
  lemma PushedToFirstKeepsOrder<T>(v: seq<T>, first: T)
    requires first in v
    ensures PushedToFirst(v, first) == [first] + RemoveFirst(v, first)
  {
    RemoveFirstAt(v, first);
  }

  lemma {:induction false} RemoveFirstAt<T>(v: seq<T>, x: T)
    requires x in v
    ensures var i := Position(v, x).value; RemoveFirst(v, x) == v[..i] + v[i + 1..]
  {
    if v[0] == x {
      assert Position(v, x) == Some(0);
      assert v[..0] + v[1..] == v[1..];
    } else {
      var j := PositionStep(v, x);
      RemoveFirstAt(v[1..], x);
      assert RemoveFirst(v, x) == [v[0]] + RemoveFirst(v[1..], x);
      ConsSlices(v, j);
    }
  }

  lemma ConsSlices<T>(v: seq<T>, j: nat)
    requires j + 1 < |v|
    ensures [v[0]] + (v[1..][..j] + v[1..][j + 1..]) == v[..j + 1] + v[j + 2..]
  {
    assert [v[0]] + v[1..][..j] == v[..j + 1];
    assert v[1..][j + 1..] == v[j + 2..];
  }

  /** Past a differing head, the position is one more than in the tail. */
  lemma PositionStep<T>(v: seq<T>, x: T) returns (j: nat)
    requires x in v && v[0] != x
    ensures x in v[1..] && j < |v| - 1
    ensures Position(v[1..], x) == Some(j) && Position(v, x) == Some(j + 1)
  {
    assert v == [v[0]] + v[1..];
    j := Position(v[1..], x).value;
  }

  /** An occurrence with none before it is the one `Position` finds. */
  lemma PositionIsFirst<T>(v: seq<T>, x: T, p: nat)
    requires p < |v| && v[p] == x && x !in v[..p]
    ensures Position(v, x) == Some(p)
  {
    var q := Position(v, x).value;
    assert forall k :: 0 <= k < p ==> v[..p][k] == v[k];
    assert forall k :: 0 <= k < q ==> v[..q][k] == v[k];
  }

  /** Promoting twice is promoting once. */
  lemma PushedToFirstIdempotent<T>(v: seq<T>, first: T)
    ensures PushedToFirst(PushedToFirst(v, first), first) == PushedToFirst(v, first)
  {
    var r := PushedToFirst(v, first);
    if first in v {
      assert r != [] && r[0] == first;
      assert Position(r, first) == Some(0);
      assert r[..0] + r[1..] == r[1..];
      assert [first] + r[1..] == r;
    }
  }

  /** `push_to_first`, in place: finds the first occurrence, shifts the
      elements before it one place right, and puts `first` at index 0. */
  method PushToFirst<T(==)>(v: array<T>, first: T)
    modifies v
    ensures v[..] == PushedToFirst(old(v[..]), first)
  {
    var index := 0;
    while index < v.Length && v[index] != first
      invariant 0 <= index <= v.Length
      invariant first !in v[..index]
    {
      index := index + 1;
    }
    if index < v.Length {
      ghost var was := v[..];
      PositionIsFirst(was, first, index);
      PushedAt(was, first, index);
      ShiftRight(v, index);
      v[0] := first;
      assert forall k :: 0 <= k < v.Length ==> v[k] == PushedToFirst(was, first)[k];
    } else {
      assert v[..index] == v[..];
    }
  }

  /** `Vec::remove` then `Vec::insert(0, _)` moved the elements before `index`
      one place right and left those after it in place. */
  method ShiftRight<T>(v: array<T>, index: nat)
    requires index < v.Length
    modifies v
    ensures forall k :: 0 < k <= index ==> v[k] == old(v[k - 1])
    ensures forall k :: index < k < v.Length ==> v[k] == old(v[k])
  {
    var j := index;
    while j > 0
      invariant 0 <= j <= index
      invariant forall k :: 0 <= k <= j ==> v[k] == old(v[k])
      invariant forall k :: j < k <= index ==> v[k] == old(v[k - 1])
      invariant forall k :: index < k < v.Length ==> v[k] == old(v[k])
    {
      v[j] := v[j - 1];
      j := j - 1;
    }
  }

  /** `PushedToFirst` element by element, when `first` is found at `index`. */
  lemma PushedAt<T>(v: seq<T>, first: T, index: nat)
    requires Position(v, first) == Some(index)
    ensures var r := PushedToFirst(v, first);
      && |r| == |v| && r[0] == first
      && (forall k :: 1 <= k <= index ==> r[k] == v[k - 1])
      && (forall k :: index < k < |v| ==> r[k] == v[k])
  {
  }

  // ---------------------------------------------------------------------------
  // try_get_commit_scopes_from_repo

  /** `known_scope_names`: the names of the configured scopes. */
  function ConfiguredNames(config: seq<CommitScope>): (names: set<string>)
    ensures forall name :: name in names <==> exists i :: 0 <= i < |config| && config[i].name == name
  {
    set i | 0 <= i < |config| :: config[i].name
  }

  /** The history scopes, in iteration order, whose name no configured scope has. */
  function Unshadowed(names: set<string>, keys: seq<CommitScope>): (r: seq<CommitScope>)
    ensures forall k :: k in r <==> k in keys && k.name !in names
    ensures multiset(r) <= multiset(keys)
    ensures (forall i :: 0 <= i < |keys| ==> keys[i].name in names) ==> r == []
  {
    if keys == [] then []
    else
      assert keys == [keys[0]] + keys[1..];
      var rest := Unshadowed(names, keys[1..]);
      if keys[0].name in names then rest else [keys[0]] + rest
  }

  /** The scope the staged files select in the history index, if files are staged. */
  ghost function MatchedScope(history: ScopeIndex, staged: Option<ChangedFiles>): (r: Option<CommitScope>)
    ensures r.Some? ==> staged.Some? && r.value in history
  {
    match staged
    case None => None
    case Some(files) => FindClosestNeighbor(files, history)
  }

  /** Moves the matched scope, if any, to the front of `scopes`. */
  ghost function Promote(scopes: seq<CommitScope>, history: ScopeIndex, staged: Option<ChangedFiles>): (r: seq<CommitScope>)
    ensures |r| == |scopes| && multiset(r) == multiset(scopes)
    ensures (MatchedScope(history, staged).Some? && MatchedScope(history, staged).value in scopes)
              ==> r[0] == MatchedScope(history, staged).value
    ensures (MatchedScope(history, staged).None? || MatchedScope(history, staged).value !in scopes) ==> r == scopes
  {
    match MatchedScope(history, staged)
    case None => scopes
    case Some(m) => PushedToFirst(scopes, m)
  }

  /** `try_get_commit_scopes_from_repo` once the configured scopes, the history
      index and the staged files are read: the four-way merge. */
  ghost function AssembleScopes(config: Option<seq<CommitScope>>, history: Option<ScopeIndex>,
                                staged: Option<ChangedFiles>): (r: Option<seq<CommitScope>>)
    ensures r.None? <==> config.None? && history.None?
    ensures history.None? ==> r == config
    ensures config.None? && history.Some? ==> |r.value| == |history.value|
  {
    match (config, history)
    case (None, None) => None
    case (Some(x), None) => Some(x)
    case (None, Some(h)) =>
      assert |h.Keys| == |h|;
      Some(Promote(SortSeq(Enumerate(h.Keys)), h, staged))
    case (Some(c), Some(h)) =>
      Some(Promote(SortSeq(c + Unshadowed(ConfiguredNames(c), Enumerate(h.Keys))), h, staged))
  }

  /** What `get_scopes_x_changes` yields for a walk: the index, or None when
      it is empty. */
  ghost function HistoryIndex(walk: seq<Commit>): (r: Option<ScopeIndex>)
    requires forall i :: 0 <= i < |walk| ==> Walkable(walk[i])
    ensures r.None? <==> forall i :: 0 <= i < |walk| ==> KeyOf(walk[i]).None?
    ensures r.Some? ==> r.value == BuildIndex(walk) && forall k :: k in r.value <==> Carries(walk, k)
  {
    IndexEmptyIffNoScope(walk);
    IndexCharacterization(walk);
    if BuildIndex(walk) == map[] then None else Some(BuildIndex(walk))
  }

  /** The configured scopes, if the repository has a configuration with a `[scopes]` section. */
  function ConfiguredScopes(config: Option<Config>): (r: Option<seq<CommitScope>>)
    ensures r.Some? <==> config.Some? && config.value.commitScopes.Some?
  {
    match config case None => None case Some(c) => c.commitScopes
  }

  /** `try_get_commit_scopes_from_repo` from its inputs, as written: the
      repository's configuration if it has one, the reflog walk, and the
      status entries filtered by `get_staged_files` as written. */
  ghost function ScopesForRepo(config: Option<Config>, walk: seq<Commit>, statuses: seq<StatusEntry>): (r: Option<seq<CommitScope>>)
    requires forall i :: 0 <= i < |walk| ==> Walkable(walk[i])
    ensures r.None? <==> ConfiguredScopes(config).None? && forall i :: 0 <= i < |walk| ==> KeyOf(walk[i]).None?
  {
    AssembleScopes(ConfiguredScopes(config), HistoryIndex(walk), StagedFilesAsWritten(statuses))
  }

  /** The same with the corrected staged-files filter `StagedFiles`. */
  ghost function ScopesForRepoIntended(config: Option<Config>, walk: seq<Commit>, statuses: seq<StatusEntry>): (r: Option<seq<CommitScope>>)
    requires forall i :: 0 <= i < |walk| ==> Walkable(walk[i])
    ensures r.None? <==> ConfiguredScopes(config).None? && forall i :: 0 <= i < |walk| ==> KeyOf(walk[i]).None?
  {
    AssembleScopes(ConfiguredScopes(config), HistoryIndex(walk), StagedFiles(statuses))
  }

  /** With neither source there are no scopes; with only configured scopes
      they are returned as given, whatever is staged. */
  lemma AssembleWithoutHistory(config: Option<seq<CommitScope>>, staged: Option<ChangedFiles>)
    ensures AssembleScopes(config, None, staged) == config
  {
  }

  ghost predicate Distinct<T>(s: seq<T>)
  {
    forall i, j :: 0 <= i < j < |s| ==> s[i] != s[j]
  }

  lemma {:induction false} DistinctByMultiset<T>(a: seq<T>, b: seq<T>)
    requires multiset(a) <= multiset(b) && Distinct(b)
    ensures Distinct(a)
  {
    forall i, j | 0 <= i < j < |a| ensures a[i] != a[j] {
      if a[i] == a[j] {
        RepeatCount(a, i, j);
        assert multiset(b)[a[i]] >= 2;
        assert a[i] in multiset(b);
        var k :| 0 <= k < |b| && b[k] == a[i];
        DistinctCount(b, k);
        assert false;
      }
    }
  }

  lemma RepeatCount<T>(a: seq<T>, i: nat, j: nat)
    requires i < j < |a| && a[i] == a[j]
    ensures multiset(a)[a[i]] >= 2
  {
    assert a == a[..i] + [a[i]] + a[i + 1..];
    assert a[i + 1..][j - i - 1] == a[j];
  }

  lemma {:induction false} DistinctCount<T>(b: seq<T>, k: nat)
    requires Distinct(b) && k < |b|
    ensures multiset(b)[b[k]] == 1
  {
    assert b == b[..k] + [b[k]] + b[k + 1..];
    assert b[k] !in b[..k] && b[k] !in b[k + 1..];
  }

  /** Taking one element out of a sorted list leaves it sorted. */
  lemma SortedWithout(v: seq<CommitScope>, i: nat)
    requires Sorted(v) && i < |v|
    ensures Sorted(v[..i] + v[i + 1..])
  {
    var w := v[..i] + v[i + 1..];
    forall a, b | 0 <= a < b < |w| ensures LessEq(w[a], w[b]) {
      var a' := if a < i then a else a + 1;
      var b' := if b < i then b else b + 1;
      assert w[a] == v[a'] && w[b] == v[b'];
    }
  }

  /** The shape of a promoted sorted list: the match first if it occurs, then
      the rest still in ascending order; the list unchanged otherwise. */
  lemma PromoteSorted(scopes: seq<CommitScope>, history: ScopeIndex, staged: Option<ChangedFiles>)
    requires Sorted(scopes)
    ensures var r := Promote(scopes, history, staged);
      && |r| == |scopes| && multiset(r) == multiset(scopes)
      && ((MatchedScope(history, staged).Some? && MatchedScope(history, staged).value in scopes)
            ==> r[0] == MatchedScope(history, staged).value && Sorted(r[1..]))
      && ((MatchedScope(history, staged).None? || MatchedScope(history, staged).value !in scopes)
            ==> r == scopes)
  {
    var m := MatchedScope(history, staged);
    if m.Some? && m.value in scopes {
      PushSorted(scopes, m.value);
    }
  }

  /** Promoting an element of a sorted list leaves the others sorted behind it. */
  lemma PushSorted(scopes: seq<CommitScope>, m: CommitScope)
    requires Sorted(scopes) && m in scopes
    ensures PushedToFirst(scopes, m)[0] == m && Sorted(PushedToFirst(scopes, m)[1..])
  {
    var i := Position(scopes, m).value;
    SortedWithout(scopes, i);
    assert PushedToFirst(scopes, m)[1..] == scopes[..i] + scopes[i + 1..];
  }

  /** Two lists with the same multiset have the same elements. */
  lemma SameElement<T>(a: seq<T>, b: seq<T>, k: T)
    requires multiset(a) == multiset(b)
    ensures k in a <==> k in b
  {
    assert k in a <==> k in multiset(a);
    assert k in b <==> k in multiset(b);
  }

  /** History only: the index keys, each once, ascending; or, when the staged
      files match a scope, that scope first and the others ascending behind it. */
  lemma AssembleHistoryOnly(history: ScopeIndex, staged: Option<ChangedFiles>)
    ensures AssembleScopes(None, Some(history), staged).Some?
    ensures var r := AssembleScopes(None, Some(history), staged).value;
      && |r| == |history|
      && (forall k :: k in r <==> k in history)
      && Distinct(r)
      && (MatchedScope(history, staged).None? ==> Sorted(r))
      && (MatchedScope(history, staged).Some? ==> r[0] == MatchedScope(history, staged).value && Sorted(r[1..]))
  {
    HistoryOnlyElements(history, staged);
    HistoryOnlyOrder(history, staged);
  }

  lemma HistoryOnlyElements(history: ScopeIndex, staged: Option<ChangedFiles>)
    ensures AssembleScopes(None, Some(history), staged).Some?
    ensures var r := AssembleScopes(None, Some(history), staged).value;
      && |r| == |history|
      && (forall k :: k in r <==> k in history)
      && Distinct(r)
  {
    var keys := Enumerate(history.Keys);
    var sorted := SortSeq(keys);
    var r := Promote(sorted, history, staged);
    assert AssembleScopes(None, Some(history), staged) == Some(r);
    PromoteKeepsElements(sorted, history, staged);
    DistinctByMultiset(sorted, keys);
    DistinctByMultiset(r, sorted);
    assert |keys| == |history| by { assert |history.Keys| == |history|; }
    assert |sorted| == |keys| by { assert |multiset(sorted)| == |multiset(keys)|; }
    forall k ensures k in r <==> k in history {
      SameElement(r, sorted, k);
      SameElement(sorted, keys, k);
    }
  }

  lemma HistoryOnlyOrder(history: ScopeIndex, staged: Option<ChangedFiles>)
    ensures AssembleScopes(None, Some(history), staged).Some?
    ensures var r := AssembleScopes(None, Some(history), staged).value;
      && (MatchedScope(history, staged).None? ==> Sorted(r))
      && (MatchedScope(history, staged).Some? ==> r[0] == MatchedScope(history, staged).value && Sorted(r[1..]))
  {
    var keys := Enumerate(history.Keys);
    var sorted := SortSeq(keys);
    assert AssembleScopes(None, Some(history), staged) == Some(Promote(sorted, history, staged));
    var m := MatchedScope(history, staged);
    if m.Some? {
      assert m.value in sorted by {
        assert m.value in keys;
        SameElement(sorted, keys, m.value);
      }
      PushSorted(sorted, m.value);
    }
  }

  /** Promotion only reorders. */
  lemma PromoteKeepsElements(scopes: seq<CommitScope>, history: ScopeIndex, staged: Option<ChangedFiles>)
    ensures multiset(Promote(scopes, history, staged)) == multiset(scopes)
  {
  }

  /** Both sources: the configured scopes and the history scopes whose name is
      not configured, so a configured description always wins; ascending,
      except that a match occurring in the list is moved to the front. */
  lemma AssembleBoth(config: seq<CommitScope>, history: ScopeIndex, staged: Option<ChangedFiles>)
    ensures AssembleScopes(Some(config), Some(history), staged).Some?
    ensures var r := AssembleScopes(Some(config), Some(history), staged).value;
      var unshadowed := Unshadowed(ConfiguredNames(config), Enumerate(history.Keys));
      && multiset(r) == multiset(config) + multiset(unshadowed)
      && Distinct(unshadowed)
      && (forall k :: k in history && k.name !in ConfiguredNames(config) ==> multiset(r)[k] == 1)
      && (forall k: CommitScope :: k.name in ConfiguredNames(config) ==> multiset(r)[k] == multiset(config)[k])
      && (forall k :: k in r <==> k in config || (k in history && k.name !in ConfiguredNames(config)))
      && (forall k :: k in r && k.name in ConfiguredNames(config) ==> k in config)
      && ((MatchedScope(history, staged).None? || MatchedScope(history, staged).value !in r) ==> Sorted(r))
      && ((MatchedScope(history, staged).Some? && MatchedScope(history, staged).value in r)
            ==> r[0] == MatchedScope(history, staged).value && Sorted(r[1..]))
  {
    BothCounts(config, history, staged);
    BothElements(config, history, staged);
    BothOrder(config, history, staged);
  }

  /** Both sources, counted: every configured entry occurs as often as it is
      configured, and every history scope with an unconfigured name exactly once. */
  lemma BothCounts(config: seq<CommitScope>, history: ScopeIndex, staged: Option<ChangedFiles>)
    ensures AssembleScopes(Some(config), Some(history), staged).Some?
    ensures var r := AssembleScopes(Some(config), Some(history), staged).value;
      var unshadowed := Unshadowed(ConfiguredNames(config), Enumerate(history.Keys));
      && multiset(r) == multiset(config) + multiset(unshadowed)
      && Distinct(unshadowed)
      && (forall k :: k in history && k.name !in ConfiguredNames(config) ==> multiset(r)[k] == 1)
      && (forall k: CommitScope :: k.name in ConfiguredNames(config) ==> multiset(r)[k] == multiset(config)[k])
  {
    var names := ConfiguredNames(config);
    var keys := Enumerate(history.Keys);
    var unshadowed := Unshadowed(names, keys);
    var merged := config + unshadowed;
    var sorted := SortSeq(merged);
    var r := Promote(sorted, history, staged);
    assert AssembleScopes(Some(config), Some(history), staged) == Some(r);
    assert multiset(r) == multiset(merged) by {
      PromoteKeepsElements(sorted, history, staged);
    }
    DistinctByMultiset(unshadowed, keys);
    forall k | k in history && k.name !in names ensures multiset(r)[k] == 1 {
      assert k !in config;
      assert k in keys;
      MergedCount(config, unshadowed, r, k);
    }
    forall k: CommitScope | k.name in names ensures multiset(r)[k] == multiset(config)[k] {
      MergedCount(config, unshadowed, r, k);
    }
  }

  /** How often an element occurs in a list made of `config` and a list without duplicates. */
  lemma MergedCount(config: seq<CommitScope>, extra: seq<CommitScope>, r: seq<CommitScope>, k: CommitScope)
    requires multiset(r) == multiset(config) + multiset(extra) && Distinct(extra)
    ensures k in extra && k !in config ==> multiset(r)[k] == 1
    ensures k !in extra ==> multiset(r)[k] == multiset(config)[k]
  {
    if k in extra {
      var i :| 0 <= i < |extra| && extra[i] == k;
      DistinctCount(extra, i);
    }
  }

  lemma BothElements(config: seq<CommitScope>, history: ScopeIndex, staged: Option<ChangedFiles>)
    ensures AssembleScopes(Some(config), Some(history), staged).Some?
    ensures var r := AssembleScopes(Some(config), Some(history), staged).value;
      forall k :: k in r <==> k in config || (k in history && k.name !in ConfiguredNames(config))
  {
    var names := ConfiguredNames(config);
    var merged := config + Unshadowed(names, Enumerate(history.Keys));
    var sorted := SortSeq(merged);
    var r := Promote(sorted, history, staged);
    assert AssembleScopes(Some(config), Some(history), staged) == Some(r);
    PromoteKeepsElements(sorted, history, staged);
    forall k ensures k in r <==> k in config || (k in history && k.name !in names) {
      SameElement(r, sorted, k);
      SameElement(sorted, merged, k);
      assert k in merged <==> k in config || k in Unshadowed(names, Enumerate(history.Keys));
    }
  }

  lemma BothOrder(config: seq<CommitScope>, history: ScopeIndex, staged: Option<ChangedFiles>)
    ensures AssembleScopes(Some(config), Some(history), staged).Some?
    ensures var r := AssembleScopes(Some(config), Some(history), staged).value;
      && ((MatchedScope(history, staged).None? || MatchedScope(history, staged).value !in r) ==> Sorted(r))
      && ((MatchedScope(history, staged).Some? && MatchedScope(history, staged).value in r)
            ==> r[0] == MatchedScope(history, staged).value && Sorted(r[1..]))
  {
    var names := ConfiguredNames(config);
    var merged := config + Unshadowed(names, Enumerate(history.Keys));
    var sorted := SortSeq(merged);
    var r := Promote(sorted, history, staged);
    assert AssembleScopes(Some(config), Some(history), staged) == Some(r);
    PromoteKeepsElements(sorted, history, staged);
    var m := MatchedScope(history, staged);
    if m.Some? {
      SameElement(r, sorted, m.value);
    }
    if m.Some? && m.value in sorted {
      PushSorted(sorted, m.value);
    }
  }

  /** A history match whose name a configured scope took over, with another
      description, is not promoted: equality compares both fields. */
  lemma ShadowedMatchNotPromoted(config: seq<CommitScope>, history: ScopeIndex, staged: Option<ChangedFiles>)
    requires MatchedScope(history, staged).Some?
    requires MatchedScope(history, staged).value.name in ConfiguredNames(config)
    requires MatchedScope(history, staged).value !in config
    ensures AssembleScopes(Some(config), Some(history), staged)
         == Some(SortSeq(config + Unshadowed(ConfiguredNames(config), Enumerate(history.Keys))))
  {
    var m := MatchedScope(history, staged).value;
    var filtered := Unshadowed(ConfiguredNames(config), Enumerate(history.Keys));
    var merged := config + filtered;
    assert m !in filtered;
    assert m !in merged;
    var sorted := SortSeq(merged);
    assert m !in sorted by {
      assert multiset(sorted) == multiset(merged);
      assert m !in multiset(merged);
    }
    assert PushedToFirst(sorted, m) == sorted;
  }

  /** The merge test of src/commit_scopes/mod.rs:157-172: the configured
      "foz" with description "baz" replaces the history's "foz", once. */
  lemma ConfiguredDescriptionWins(history: ScopeIndex)
    requires history.Keys == {New("foz")}
    ensures AssembleScopes(Some([PrintableEntity("foz", "baz")]), Some(history), None)
         == Some([PrintableEntity("foz", "baz")])
  {
    var config := [PrintableEntity("foz", "baz")];
    var keys := Enumerate(history.Keys);
    assert ConfiguredNames(config) == {"foz"};
    assert forall i :: 0 <= i < |keys| ==> keys[i] in history.Keys;
    assert config + Unshadowed(ConfiguredNames(config), keys) == config;
    assert SortSeq(config) == config;
  }

  /** The scenario of tests/cli.rs:119-153 before staging: "baz" leads
      alphabetically. */
  lemma AlphabeticalWithoutStaged(history: ScopeIndex)
    requires history == map[New("z_bar") := {"one"}, New("baz") := {"two"}]
    ensures AssembleScopes(None, Some(history), None).value[0] == New("baz")
  {
    var zBar, baz := New("z_bar"), New("baz");
    assert history.Keys == {zBar, baz};
    assert Less(baz, zBar) by { assert StrLess("baz", "z_bar"); }
    LeastScopeLeads(history, baz);
  }

  /** With nothing staged, the least history scope comes first. */
  lemma LeastScopeLeads(history: ScopeIndex, least: CommitScope)
    requires least in history
    requires forall k :: k in history && k != least ==> Less(least, k)
    ensures AssembleScopes(None, Some(history), None).value[0] == least
  {
    AssembleHistoryOnly(history, None);
    var r := AssembleScopes(None, Some(history), None).value;
    assert least in multiset(r);
    HeadIsLeast(r, least);
    LessIsStrictTotalOrder(least, r[0], least);
  }

  /** The same scenario once file "one", which only "z_bar" changed, is staged. */
  lemma StagedMatchLeads(history: ScopeIndex)
    requires history == map[New("z_bar") := {"one"}, New("baz") := {"two"}]
    ensures AssembleScopes(None, Some(history), Some({"one"})).value[0] == New("z_bar")
  {
    var zBar, baz := New("z_bar"), New("baz");
    assert {"one"} !! history[baz];
    SoleOverlapWins({"one"}, history, zBar);
    AssembleHistoryOnly(history, Some({"one"}));
  }

  /** Without configured scopes the list is the scopes of the walked commits,
      each once; absent exactly when no walked commit has a scope. This holds
      with either staged-files filter. */
  lemma ScopesForRepoFromHistory(config: Option<Config>, walk: seq<Commit>, statuses: seq<StatusEntry>)
    requires forall i :: 0 <= i < |walk| ==> Walkable(walk[i])
    requires ConfiguredScopes(config).None?
    ensures ScopesForRepo(config, walk, statuses).Some? ==>
              var r := ScopesForRepo(config, walk, statuses).value;
              Distinct(r) && forall k :: k in r <==> Carries(walk, k)
    ensures ScopesForRepoIntended(config, walk, statuses).Some? ==>
              var r := ScopesForRepoIntended(config, walk, statuses).value;
              Distinct(r) && forall k :: k in r <==> Carries(walk, k)
  {
    var h := HistoryIndex(walk);
    if h.Some? {
      HistoryOnlyElements(h.value, StagedFilesAsWritten(statuses));
      HistoryOnlyElements(h.value, StagedFiles(statuses));
    }
  }

  /** The scenario of tests/cli.rs:119-153 once file "one" is staged and then
      edited again: as written nothing counts as staged and "baz" still leads;
      with the corrected filter "z_bar" leads. */
  lemma StagedThenEditedScopeOrder(walk: seq<Commit>)
    requires forall i :: 0 <= i < |walk| ==> Walkable(walk[i])
    requires BuildIndex(walk) == map[New("z_bar") := {"one"}, New("baz") := {"two"}]
    ensures ScopesForRepo(None, walk, [StatusEntry(INDEX_MODIFIED | WT_MODIFIED, Some("one"))]).Some?
    ensures ScopesForRepo(None, walk, [StatusEntry(INDEX_MODIFIED | WT_MODIFIED, Some("one"))]).value[0] == New("baz")
    ensures ScopesForRepoIntended(None, walk, [StatusEntry(INDEX_MODIFIED | WT_MODIFIED, Some("one"))]).Some?
    ensures ScopesForRepoIntended(None, walk, [StatusEntry(INDEX_MODIFIED | WT_MODIFIED, Some("one"))]).value[0] == New("z_bar")
  {
    var history := BuildIndex(walk);
    assert New("baz") in history;
    assert HistoryIndex(walk) == Some(history);
    StagedThenEditedIsDropped();
    AlphabeticalWithoutStaged(history);
    StagedMatchLeads(history);
  }
}
