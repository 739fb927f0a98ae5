/** The history indexer of src/commit_scopes/commit.rs: scope extraction from a
    commit message, the changed files of a commit, the staged files, and the
    fold of a reflog walk into a scope -> changed-files index. The git objects
    are replaced by plain values: a walked commit is its message and, for each
    parent, the new-file paths of the parent-to-commit diff. */
module History {
  import opened Wrappers
  import opened Utils

  type Path = string
  type ChangedFiles = set<Path>
  type ScopeIndex = map<CommitScope, ChangedFiles>

  /** A reflog entry's commit. `None` stands for a message or a path that is
      not valid UTF-8, on which the source's `expect`/`unwrap` panic. */
  datatype Commit = Commit(message: Option<string>, parentDeltas: seq<seq<Option<Path>>>)

  // ---------------------------------------------------------------------------
  // get_scope_from_commit_message

  /** `(i, j)` delimits the leftmost match of `\(([^)]*)\)`: the first '(' of
      the message and the first ')' after it. */
  predicate FirstBracketed(message: string, i: int, j: int)
  {
    && 0 <= i < j < |message|
    && message[i] == '(' && message[j] == ')'
    && '(' !in message[..i]
    && ')' !in message[i + 1..j]
  }

  /** The text strictly between the first '(' and the next ')'; None when no
      '(' is followed by a ')'. The whole message is searched and nothing
      (no ':') needs to follow the bracket. */
  function ScopeFromMessage(message: string): (r: Option<string>)
    ensures r.Some? <==> exists i, j :: 0 <= i < j < |message| && message[i] == '(' && message[j] == ')'
    ensures r.Some? ==> exists i, j :: FirstBracketed(message, i, j) && r.value == message[i + 1..j]
    ensures r.Some? ==> ')' !in r.value
  {
    match FindChar(message, '(', 0)
    case None =>
      assert forall i :: 0 <= i < |message| ==> message[i] == message[0..][i];
      None
    case Some(i) =>
      match FindChar(message, ')', i + 1)
      case None =>
        ScopeAbsentAfter(message, i);
        None
      case Some(j) =>
        assert FirstBracketed(message, i, j);
        Some(message[i + 1..j])
  }

  lemma ScopeAbsentAfter(message: string, first: nat)
    requires first < |message| && message[first] == '(' && '(' !in message[..first]
    requires ')' !in message[first + 1..]
    ensures !exists i, j :: 0 <= i < j < |message| && message[i] == '(' && message[j] == ')'
  {
    assert forall k :: 0 <= k < first ==> message[..first][k] == message[k];
    forall i, j | 0 <= i < j < |message| && message[i] == '('
      ensures message[j] != ')'
    {
      assert message[j] == message[first + 1..][j - first - 1];
    }
  }

  /** The leftmost bracketed span is unique, so it determines the scope. */
  lemma ScopeIsFirstBracketed(message: string, i: int, j: int)
    requires FirstBracketed(message, i, j)
    ensures ScopeFromMessage(message) == Some(message[i + 1..j])
  {
    var r := ScopeFromMessage(message);
    var i', j' :| FirstBracketed(message, i', j') && r.value == message[i' + 1..j'];
    assert forall k :: 0 <= k < i ==> message[..i][k] == message[k];
    assert forall k :: 0 <= k < i' ==> message[..i'][k] == message[k];
    assert i == i';
    assert forall k :: i + 1 <= k < j ==> message[i + 1..j][k - i - 1] == message[k];
    assert forall k :: i + 1 <= k < j' ==> message[i + 1..j'][k - i - 1] == message[k];
  }

  /** The cases exercised at src/commit_scopes/commit.rs:240-246: one scope,
      inner spaces kept, only the first bracket counts, no bracket. */
  lemma ScopeExampleSimple()
    ensures ScopeFromMessage("foo(foz): baz") == Some("foz")
  {
    ScopeExample("foo(foz): baz", 3, 7);
    assert "foo(foz): baz"[4..7] == "foz";
  }

  lemma ScopeExampleInnerSpaces()
    ensures ScopeFromMessage("foo(foz baz): bar") == Some("foz baz")
  {
    ScopeExample("foo(foz baz): bar", 3, 11);
    assert "foo(foz baz): bar"[4..11] == "foz baz";
  }

  lemma ScopeExampleFirstBracketOnly()
    ensures ScopeFromMessage("foo(bar): baz (foz)") == Some("bar")
  {
    ScopeExample("foo(bar): baz (foz)", 3, 7);
    assert "foo(bar): baz (foz)"[4..7] == "bar";
  }

  lemma ScopeExampleAbsent()
    ensures ScopeFromMessage("foo: baz") == None
  {
    var m := "foo: baz";
    assert forall k :: 0 <= k < |m| ==> m[k] != ')';
  }

  lemma ScopeExample(message: string, i: nat, j: nat)
    requires i < j < |message| && message[i] == '(' && message[j] == ')'
    requires forall k :: 0 <= k < i ==> message[k] != '('
    requires forall k :: i < k < j ==> message[k] != ')'
    ensures ScopeFromMessage(message) == Some(message[i + 1..j])
  {
    assert forall k :: 0 <= k < i ==> message[..i][k] == message[k];
    assert forall k :: i + 1 <= k < j ==> message[i + 1..j][k - i - 1] == message[k];
    ScopeIsFirstBracketed(message, i, j);
  }

  // ---------------------------------------------------------------------------
  // get_changed_files_from_commit

  /** The decodable new-file paths of one parent's diff deltas. */
  function DeltaPaths(deltas: seq<Option<Path>>): (r: set<Path>)
    ensures forall p :: p in r <==> Some(p) in deltas
  {
    if deltas == [] then {}
    else
      var last := deltas[|deltas| - 1];
      assert deltas == deltas[..|deltas| - 1] + [last];
      DeltaPaths(deltas[..|deltas| - 1]) + (if last.Some? then {last.value} else {})
  }

  /** The union, over the parents, of their diffs' paths. */
  function UnionOverParents(parents: seq<seq<Option<Path>>>): (r: set<Path>)
    ensures forall k :: 0 <= k < |parents| ==> DeltaPaths(parents[k]) <= r
  {
    if parents == [] then {}
    else UnionOverParents(parents[..|parents| - 1]) + DeltaPaths(parents[|parents| - 1])
  }

  lemma {:induction false} UnionOverParentsMembership(parents: seq<seq<Option<Path>>>, p: Path)
    ensures p in UnionOverParents(parents) <==> exists k :: 0 <= k < |parents| && Some(p) in parents[k]
    decreases |parents|
  {
    if parents != [] {
      var n := |parents| - 1;
      UnionOverParentsMembership(parents[..n], p);
      assert forall k :: 0 <= k < n ==> parents[..n][k] == parents[k];
    }
  }

  /** The files a commit changed: empty for a root commit, otherwise the union
      over all parents of the post-change paths of each parent's diff. */
  function ChangedFilesOf(c: Commit): (r: ChangedFiles)
    ensures forall p :: p in r <==> exists k :: 0 <= k < |c.parentDeltas| && Some(p) in c.parentDeltas[k]
  {
    forall p ensures p in UnionOverParents(c.parentDeltas) <==> exists k :: 0 <= k < |c.parentDeltas| && Some(p) in c.parentDeltas[k] {
      UnionOverParentsMembership(c.parentDeltas, p);
    }
    if |c.parentDeltas| != 0 then UnionOverParents(c.parentDeltas) else {}
  }

  /** Every delta path decodes; otherwise the source panics in `unwrap`. */
  predicate Decodable(c: Commit)
  {
    forall k, d :: 0 <= k < |c.parentDeltas| && 0 <= d < |c.parentDeltas[k]| ==> c.parentDeltas[k][d].Some?
  }

  /** `get_changed_files_from_commit`: fills the set parent by parent, delta by delta. */
  method ChangedFilesFromCommit(c: Commit) returns (res: ChangedFiles)
    requires Decodable(c)
    ensures res == ChangedFilesOf(c)
    ensures |c.parentDeltas| == 0 ==> res == {}
  {
    res := {};
    var parents := c.parentDeltas;
    if |parents| != 0 {
      for k := 0 to |parents|
        invariant res == UnionOverParents(parents[..k])
      {
        var deltas := parents[k];
        ghost var before := res;
        for d := 0 to |deltas|
          invariant res == before + DeltaPaths(deltas[..d])
        {
          assert deltas[..d + 1][..d] == deltas[..d];
          res := res + {deltas[d].value};
        }
        assert deltas[..|deltas|] == deltas;
        assert parents[..k + 1][..k] == parents[..k];
      }
      assert parents[..|parents|] == parents;
    }
  }

  // ---------------------------------------------------------------------------
  // get_scopes_x_changes

  /** The index key a walked commit contributes: `PrintableEntity::new` of its
      scope, if its message has one. */
  function KeyOf(c: Commit): (r: Option<CommitScope>)
    ensures r.Some? ==> r.value.description == ""
  {
    if c.message.None? then None
    else match ScopeFromMessage(c.message.value)
      case None => None
      case Some(s) => Some(New(s))
  }

  /** One step of the accumulator: union into an existing entry, insert otherwise. */
  function AddCommit(acc: ScopeIndex, c: Commit): (r: ScopeIndex)
    ensures forall k :: k in r <==> k in acc || KeyOf(c) == Some(k)
    ensures forall k :: k in acc ==> acc[k] <= r[k]
  {
    match KeyOf(c)
    case None => acc
    case Some(k) => if k in acc then acc[k := acc[k] + ChangedFilesOf(c)] else acc[k := ChangedFilesOf(c)]
  }

  /** The accumulator after folding the walked commits in order. */
  function BuildIndex(walk: seq<Commit>): (r: ScopeIndex)
    ensures forall k :: k in r ==> k.description == ""
  {
    if walk == [] then map[] else AddCommit(BuildIndex(walk[..|walk| - 1]), walk[|walk| - 1])
  }

  /** Commit `c` carries scope `k` and changed `p`. */
  predicate Contributes(c: Commit, k: CommitScope, p: Path)
  {
    KeyOf(c) == Some(k) && p in ChangedFilesOf(c)
  }

  /** Some walked commit carries scope `k`. */
  predicate Carries(walk: seq<Commit>, k: CommitScope)
  {
    exists c :: c in walk && KeyOf(c) == Some(k)
  }

  /** Some walked commit carrying scope `k` changed `p`. */
  predicate Touches(walk: seq<Commit>, k: CommitScope, p: Path)
  {
    exists c :: c in walk && Contributes(c, k, p)
  }

  lemma {:induction false} IndexAt(walk: seq<Commit>, k: CommitScope, p: Path)
    ensures k in BuildIndex(walk) <==> Carries(walk, k)
    ensures k in BuildIndex(walk) ==> (p in BuildIndex(walk)[k] <==> Touches(walk, k, p))
    decreases |walk|
  {
    if walk != [] {
      var n := |walk| - 1;
      var init, last := walk[..n], walk[n];
      IndexAt(init, k, p);
      assert walk == init + [last];
      WalkSnoc(init, last, k, p);
      AddCommitAt(BuildIndex(init), last, k, p);
    }
  }

  /** One step of the fold, seen from one scope and one path. */
  lemma AddCommitAt(acc: ScopeIndex, c: Commit, k: CommitScope, p: Path)
    ensures k in AddCommit(acc, c) <==> k in acc || KeyOf(c) == Some(k)
    ensures k in AddCommit(acc, c) ==>
              (p in AddCommit(acc, c)[k] <==> (k in acc && p in acc[k]) || Contributes(c, k, p))
  {
  }

  /** Extending the walk by one commit, seen from one scope and one path. */
  lemma WalkSnoc(init: seq<Commit>, last: Commit, k: CommitScope, p: Path)
    ensures Carries(init + [last], k) <==> Carries(init, k) || KeyOf(last) == Some(k)
    ensures Touches(init + [last], k, p) <==> Touches(init, k, p) || Contributes(last, k, p)
  {
    assert forall c :: c in init + [last] <==> c in init || c == last;
  }

  /** The index against its reference definition: a key for exactly the
      scopes some walked commit carries, mapped to the union of the files of
      every walked commit carrying it. */
  lemma IndexCharacterization(walk: seq<Commit>)
    ensures forall k :: k in BuildIndex(walk) <==> Carries(walk, k)
    ensures forall k, p :: k in BuildIndex(walk) ==> (p in BuildIndex(walk)[k] <==> Touches(walk, k, p))
  {
    forall k, p ensures (k in BuildIndex(walk) <==> Carries(walk, k))
                     && (k in BuildIndex(walk) ==> (p in BuildIndex(walk)[k] <==> Touches(walk, k, p))) {
      IndexAt(walk, k, p);
    }
  }

  lemma IndexKeysAreNewScopes(walk: seq<Commit>)
    ensures forall k :: k in BuildIndex(walk) ==> k.description == "" && Carries(walk, k)
  {
    IndexCharacterization(walk);
  }

  /** The index depends only on which commits were walked: not on their order,
      and not on a commit appearing several times in the reflog. */
  lemma IndexDependsOnlyOnWalkedCommits(w1: seq<Commit>, w2: seq<Commit>)
    requires forall c :: c in w1 <==> c in w2
    ensures BuildIndex(w1) == BuildIndex(w2)
  {
    IndexCharacterization(w1);
    IndexCharacterization(w2);
    var i1, i2 := BuildIndex(w1), BuildIndex(w2);
    assert i1.Keys == i2.Keys;
    forall k | k in i1 ensures i1[k] == i2[k] {
      assert forall p :: p in i1[k] <==> p in i2[k];
    }
  }

  /** A walked commit may be repeated without effect. */
  lemma IndexIgnoresRepeatedCommits(walk: seq<Commit>, c: Commit)
    requires c in walk
    ensures BuildIndex(walk + [c]) == BuildIndex(walk)
  {
    IndexDependsOnlyOnWalkedCommits(walk + [c], walk);
  }

  /** The index is empty exactly when no walked commit has a scope. */
  lemma IndexEmptyIffNoScope(walk: seq<Commit>)
    ensures BuildIndex(walk) == map[] <==> forall i :: 0 <= i < |walk| ==> KeyOf(walk[i]).None?
  {
    IndexCharacterization(walk);
    forall i | 0 <= i < |walk| && KeyOf(walk[i]).Some? ensures KeyOf(walk[i]).value in BuildIndex(walk) {
      assert walk[i] in walk;
    }
  }

  /** What `get_scopes_x_changes` needs of each walked commit to not panic. */
  predicate Walkable(c: Commit)
  {
    c.message.Some? && (ScopeFromMessage(c.message.value).Some? ==> Decodable(c))
  }

  /** `get_scopes_x_changes`: folds the reflog walk into the accumulator and
      reports None when it stayed empty. */
  method ScopesXChanges(walk: seq<Commit>) returns (r: Option<ScopeIndex>)
    requires forall i :: 0 <= i < |walk| ==> Walkable(walk[i])
    ensures r.None? <==> forall i :: 0 <= i < |walk| ==> KeyOf(walk[i]).None?
    ensures r.Some? ==> r.value == BuildIndex(walk)
  {
    var accumulator: ScopeIndex := map[];
    for i := 0 to |walk|
      invariant accumulator == BuildIndex(walk[..i])
    {
      var commit := walk[i];
      ghost var next := AddCommit(accumulator, commit);
      assert BuildIndex(walk[..i + 1]) == next by {
        assert walk[..i + 1][..i] == walk[..i];
      }
      var scope := ScopeFromMessage(commit.message.value);
      if scope.Some? {
        var scopeObj := New(scope.value);
        assert KeyOf(commit) == Some(scopeObj);
        var changedFiles := ChangedFilesFromCommit(commit);
        if scopeObj in accumulator {
          accumulator := accumulator[scopeObj := accumulator[scopeObj] + changedFiles];
        } else {
          accumulator := accumulator[scopeObj := changedFiles];
        }
      }
      assert accumulator == next;
    }
    assert walk[..|walk|] == walk;
    IndexEmptyIffNoScope(walk);
    r := if accumulator != map[] then Some(accumulator) else None;
  }

  // ---------------------------------------------------------------------------
  // get_staged_files

  /** A `git2::Status` bit set, with the libgit2 flag values. */
  type Status = bv32

  const INDEX_NEW: Status := 0x1
  const INDEX_MODIFIED: Status := 0x2
  const INDEX_DELETED: Status := 0x4
  const INDEX_RENAMED: Status := 0x8
  const WT_MODIFIED: Status := 0x100

  /** One entry of `repo.statuses()`: its flags and its path, None when the path is not UTF-8. */
  datatype StatusEntry = StatusEntry(status: Status, path: Option<Path>)

  /** The paths of the entries `staged` keeps, deduplicated, dropping the
      undecodable ones; None instead of an empty set. */
  function CollectStaged(statuses: seq<StatusEntry>, staged: Status -> bool): (r: Option<ChangedFiles>)
    ensures r != Some({})
    ensures forall p :: (r.Some? && p in r.value) <==>
              exists i :: 0 <= i < |statuses| && staged(statuses[i].status) && statuses[i].path == Some(p)
  {
    var paths := set i | 0 <= i < |statuses| && staged(statuses[i].status) && statuses[i].path.Some? :: statuses[i].path.value;
    CollectedPaths(statuses, staged, paths);
    if paths == {} then None else Some(paths)
  }

  lemma CollectedPaths(statuses: seq<StatusEntry>, staged: Status -> bool, paths: set<Path>)
    requires paths == set i | 0 <= i < |statuses| && staged(statuses[i].status) && statuses[i].path.Some? :: statuses[i].path.value
    ensures forall p :: p in paths <==> exists i :: 0 <= i < |statuses| && staged(statuses[i].status) && statuses[i].path == Some(p)
  {
    forall p | exists i :: 0 <= i < |statuses| && staged(statuses[i].status) && statuses[i].path == Some(p)
      ensures p in paths
    {
      var i :| 0 <= i < |statuses| && staged(statuses[i].status) && statuses[i].path == Some(p);
      assert statuses[i].path.value == p;
    }
  }

  /** The filter as written: the whole flag set must EQUAL one of four single flags. */
  predicate IsStagedAsWritten(s: Status): (r: bool)
    ensures r ==> HasIndexChange(s) && s & WT_MODIFIED == 0
  {
    s == INDEX_NEW || s == INDEX_MODIFIED || s == INDEX_DELETED || s == INDEX_RENAMED
  }

  /** `get_staged_files` as written. */
  function StagedFilesAsWritten(statuses: seq<StatusEntry>): (r: Option<ChangedFiles>)
    ensures r != Some({})
    ensures forall p :: (r.Some? && p in r.value) <==>
              exists i :: 0 <= i < |statuses| && IsStagedAsWritten(statuses[i].status) && statuses[i].path == Some(p)
  {
    CollectStaged(statuses, IsStagedAsWritten)
  }

  /** An index-side change is present: any of the four flags is set, whatever
      the working-tree flags are. */
  predicate HasIndexChange(s: Status)
  {
    s & (INDEX_NEW | INDEX_MODIFIED | INDEX_DELETED | INDEX_RENAMED) != 0
  }

  /** `get_staged_files` with the intended filter: a path is staged when its
      entry has any of the four index flags set. */
  function StagedFiles(statuses: seq<StatusEntry>): (r: Option<ChangedFiles>)
    ensures r != Some({})
    ensures forall p :: (r.Some? && p in r.value) <==>
              exists i :: 0 <= i < |statuses| && HasIndexChange(statuses[i].status) && statuses[i].path == Some(p)
  {
    CollectStaged(statuses, HasIndexChange)
  }

  /** The corrected filter only adds paths: everything the written one reports stays reported. */
  lemma StagedFilesExtendsAsWritten(statuses: seq<StatusEntry>)
    ensures StagedFilesAsWritten(statuses).Some? ==>
              StagedFiles(statuses).Some? && StagedFilesAsWritten(statuses).value <= StagedFiles(statuses).value
  {
    var w, f := StagedFilesAsWritten(statuses), StagedFiles(statuses);
    if w.Some? {
      forall p | p in w.value ensures f.Some? && p in f.value {
        var i :| 0 <= i < |statuses| && IsStagedAsWritten(statuses[i].status) && statuses[i].path == Some(p);
        assert HasIndexChange(statuses[i].status);
      }
    }
  }

  /** A file staged and then edited again in the working tree has status
      INDEX_MODIFIED | WT_MODIFIED: the written filter drops it, the intended
      one keeps it. */
  lemma StagedThenEditedIsDropped()
    ensures StagedFilesAsWritten([StatusEntry(INDEX_MODIFIED | WT_MODIFIED, Some("one"))]) == None
    ensures StagedFiles([StatusEntry(INDEX_MODIFIED | WT_MODIFIED, Some("one"))]) == Some({"one"})
  {
    var entries := [StatusEntry(INDEX_MODIFIED | WT_MODIFIED, Some("one"))];
    assert !IsStagedAsWritten(entries[0].status);
    assert HasIndexChange(entries[0].status);
    var r := StagedFiles(entries);
    assert "one" in r.value;
    assert forall p :: p in r.value ==> p == "one";
    assert r.value == {"one"};
  }
}
