/** Ascending order of scopes under the derived `Ord`, as produced by
    `itertools::sorted` and `Vec::sort` in src/commit_scopes/mod.rs and
    src/commit_scopes/distance.rs. */
module Sorting {
  import opened Utils

  predicate Sorted(s: seq<PrintableEntity>)
  {
    forall i, j :: 0 <= i < j < |s| ==> LessEq(s[i], s[j])
  }

  /** Inserts `x` before the first element it does not exceed. */
  function Insert(x: PrintableEntity, s: seq<PrintableEntity>): (r: seq<PrintableEntity>)
    ensures multiset(r) == multiset(s) + multiset{x}
    ensures Sorted(s) ==> Sorted(r)
  {
    if s == [] then [x]
    else if LessEq(x, s[0]) then
      InsertFrontSorted(x, s);
      [x] + s
    else
      var rest := Insert(x, s[1..]);
      assert s == [s[0]] + s[1..];
      LessEqIsTotalOrder(x, s[0], x);
      InsertBehindSorted(s[0], x, s[1..], rest);
      [s[0]] + rest
  }

  lemma InsertFrontSorted(x: PrintableEntity, s: seq<PrintableEntity>)
    requires s != [] && LessEq(x, s[0])
    ensures Sorted(s) ==> Sorted([x] + s)
  {
    if Sorted(s) {
      forall j | 0 < j < |s| + 1 ensures LessEq(x, ([x] + s)[j]) {
        LessEqIsTotalOrder(x, s[0], s[j - 1]);
      }
    }
  }

  lemma InsertBehindSorted(h: PrintableEntity, x: PrintableEntity, tail: seq<PrintableEntity>, rest: seq<PrintableEntity>)
    requires LessEq(h, x)
    requires multiset(rest) == multiset(tail) + multiset{x}
    requires Sorted([h] + tail) ==> Sorted(tail)
    requires Sorted(tail) ==> Sorted(rest)
    ensures Sorted([h] + tail) ==> Sorted([h] + rest)
  {
    if Sorted([h] + tail) {
      forall j | 0 <= j < |rest| ensures LessEq(h, rest[j]) {
        assert rest[j] in multiset(rest);
        if rest[j] != x {
          assert rest[j] in multiset(tail);
          var k :| 0 <= k < |tail| && tail[k] == rest[j];
          assert ([h] + tail)[0] == h && ([h] + tail)[k + 1] == tail[k];
          assert LessEq(([h] + tail)[0], ([h] + tail)[k + 1]);
        }
      }
    }
  }

  /** Sorting: an ascending permutation of the input. */
  function SortSeq(s: seq<PrintableEntity>): (r: seq<PrintableEntity>)
    ensures multiset(r) == multiset(s)
    ensures Sorted(r)
  {
    if s == [] then []
    else
      assert s == [s[0]] + s[1..];
      Insert(s[0], SortSeq(s[1..]))
  }

  /** The first element of a sorted sequence is its least element. */
  lemma HeadIsLeast(s: seq<PrintableEntity>, x: PrintableEntity)
    requires Sorted(s) && x in multiset(s)
    ensures LessEq(s[0], x)
  {
    var i :| 0 <= i < |s| && s[i] == x;
    if i > 0 { assert LessEq(s[0], s[i]); }
  }

  /** The ascending permutation is unique, since the derived order is total:
      sorting does not depend on the order of its input. */
  lemma {:induction false} SortedUnique(a: seq<PrintableEntity>, b: seq<PrintableEntity>)
    requires Sorted(a) && Sorted(b)
    requires multiset(a) == multiset(b)
    ensures a == b
    decreases |a|
  {
    assert |b| == |a| by { assert |multiset(a)| == |multiset(b)|; }
    if a != [] {
      SameHead(a, b);
      DropHead(a);
      DropHead(b);
      SortedUnique(a[1..], b[1..]);
      assert a == [a[0]] + a[1..] && b == [b[0]] + b[1..];
    }
  }

  /** Two sorted sequences holding the same elements start alike. */
  lemma SameHead(a: seq<PrintableEntity>, b: seq<PrintableEntity>)
    requires Sorted(a) && Sorted(b) && a != [] && b != []
    requires multiset(a) == multiset(b)
    ensures a[0] == b[0]
  {
    assert a[0] in multiset(a) && b[0] in multiset(b);
    HeadIsLeast(b, a[0]);
    HeadIsLeast(a, b[0]);
    LessEqIsTotalOrder(a[0], b[0], a[0]);
  }

  /** The tail of a sorted sequence is sorted and holds all but the head. */
  lemma DropHead(s: seq<PrintableEntity>)
    requires Sorted(s) && s != []
    ensures Sorted(s[1..])
    ensures multiset(s[1..]) == multiset(s) - multiset{s[0]}
  {
    assert s == [s[0]] + s[1..];
    assert multiset(s) == multiset{s[0]} + multiset(s[1..]);
  }

  lemma SortSeqOrderIndependent(a: seq<PrintableEntity>, b: seq<PrintableEntity>)
    requires multiset(a) == multiset(b)
    ensures SortSeq(a) == SortSeq(b)
  {
    SortedUnique(SortSeq(a), SortSeq(b));
  }
}
