/**
 * The ordering obligations of the verification harness: sorting events by
 * their `Ord` never breaks causality, and the order is transitive and
 * antisymmetric on the key, for events built by `CausalEvent::new` from
 * arbitrary field values.
 *
 * `slice::sort` is a stable sort; it is modelled by a stable insertion sort
 * (`Sort`), which yields the same sequence as any stable sort under `Cmp`.
 */
module OrderProofs {
  import opened Widths
  import opened CausalEvents

  /** Every pair in order: `s[i] <= s[j]` whenever `i < j`. */
  ghost predicate Sorted(s: seq<CausalEvent>)
  {
    forall i, j :: 0 <= i < j < |s| ==> Le(s[i], s[j])
  }

  /** Inserts `x` before the first element that is not smaller than it. */
  function Insert(x: CausalEvent, s: seq<CausalEvent>): (r: seq<CausalEvent>)
    ensures |r| == |s| + 1
    ensures multiset(r) == multiset{x} + multiset(s)
  {
    if s == [] || Le(x, s[0]) then [x] + s
    else
      assert s == [s[0]] + s[1..];
      [s[0]] + Insert(x, s[1..])
  }

  /** A stable sort by `Cmp` (insertion sort). */
  function Sort(s: seq<CausalEvent>): (r: seq<CausalEvent>)
    ensures |r| == |s|
    ensures multiset(r) == multiset(s)
  {
    if s == [] then []
    else
      assert s == [s[0]] + s[1..];
      Insert(s[0], Sort(s[1..]))
  }

  lemma {:induction false} InsertSorted(x: CausalEvent, s: seq<CausalEvent>)
    requires Sorted(s)
    ensures Sorted(Insert(x, s))
  {
    if s == [] || Le(x, s[0]) {
      forall j | 0 < j < |s| + 1 ensures Le(x, ([x] + s)[j]) {
        CmpTransitive(x, s[0], s[j - 1]);
      }
    } else {
      InsertSorted(x, s[1..]);
      var r := Insert(x, s);
      var t := Insert(x, s[1..]);
      assert r == [s[0]] + t;
      assert Le(s[0], x) by { CmpIrreflexiveAndTotal(x, s[0]); }
      forall k | 0 <= k < |t| ensures Le(s[0], t[k]) {
        assert t[k] in multiset(t);
        assert t[k] == x || t[k] in multiset(s[1..]);
        if t[k] != x {
          var m :| 0 <= m < |s[1..]| && s[1..][m] == t[k];
          assert s[m + 1] == t[k];
        }
      }
    }
  }

  /** The sort's output is ordered by `<=`. */
  lemma {:induction false} SortSorted(s: seq<CausalEvent>)
    ensures Sorted(Sort(s))
  {
    if s != [] {
      SortSorted(s[1..]);
      InsertSorted(s[0], Sort(s[1..]));
    }
  }

  /** Sorting an already sorted sequence changes nothing; hence sorting twice equals sorting once. */
  lemma {:induction false} SortOfSortedIsIdentity(s: seq<CausalEvent>)
    requires Sorted(s)
    ensures Sort(s) == s
  {
    if s != [] {
      assert Sorted(s[1..]) by {
        forall i, j | 0 <= i < j < |s[1..]| ensures Le(s[1..][i], s[1..][j]) {
          assert s[1..][i] == s[i + 1] && s[1..][j] == s[j + 1];
        }
      }
      SortOfSortedIsIdentity(s[1..]);
      assert s == [s[0]] + s[1..];
    }
  }

  lemma SortIdempotent(s: seq<CausalEvent>)
    ensures Sort(Sort(s)) == Sort(s)
  {
    SortSorted(s);
    SortOfSortedIsIdentity(Sort(s));
  }

  /** In a sorted sequence the Lamport timestamps never decrease. */
  lemma SortedTimestampsNonDecreasing(s: seq<CausalEvent>)
    requires Sorted(s)
    ensures forall i :: 0 <= i < |s| - 1 ==> s[i].lamportTs <= s[i + 1].lamportTs
  {
    forall i | 0 <= i < |s| - 1 ensures s[i].lamportTs <= s[i + 1].lamportTs {
      assert Le(s[i], s[i + 1]);
      CmpIsLexicographic(s[i], s[i + 1]);
    }
  }

  /**
   * `verify_monotonicity`: three events built by `new` from arbitrary
   * values, sorted, have non-decreasing timestamps. (Stated for three
   * events as in the harness; `SortSorted` and `SortedTimestampsNonDecreasing`
   * give it for any length.)
   */
  lemma Monotonicity(t0: u64, n0: u32, s0: u16, o0: u64, c0: u32,
                     t1: u64, n1: u32, s1: u16, o1: u64, c1: u32,
                     t2: u64, n2: u32, s2: u16, o2: u64, c2: u32)
    ensures var sorted := Sort([New(t0, n0, s0, o0, c0), New(t1, n1, s1, o1, c1), New(t2, n2, s2, o2, c2)]);
            sorted[0].lamportTs <= sorted[1].lamportTs <= sorted[2].lamportTs
  {
    var events := [New(t0, n0, s0, o0, c0), New(t1, n1, s1, o1, c1), New(t2, n2, s2, o2, c2)];
    SortSorted(events);
    SortedTimestampsNonDecreasing(Sort(events));
  }

  /** `verify_transitivity`: `a <= b` and `b <= c` give `a <= c`. */
  lemma Transitivity(t0: u64, n0: u32, s0: u16, o0: u64, c0: u32,
                     t1: u64, n1: u32, s1: u16, o1: u64, c1: u32,
                     t2: u64, n2: u32, s2: u16, o2: u64, c2: u32)
    ensures var a, b, c := New(t0, n0, s0, o0, c0), New(t1, n1, s1, o1, c1), New(t2, n2, s2, o2, c2);
            Le(a, b) && Le(b, c) ==> Le(a, c)
  {
    CmpTransitive(New(t0, n0, s0, o0, c0), New(t1, n1, s1, o1, c1), New(t2, n2, s2, o2, c2));
  }

  /** `verify_antisymmetry`: `a <= b` and `b <= a` give equal keys. */
  lemma Antisymmetry(t0: u64, n0: u32, s0: u16, o0: u64, c0: u32,
                     t1: u64, n1: u32, s1: u16, o1: u64, c1: u32)
    ensures var a, b := New(t0, n0, s0, o0, c0), New(t1, n1, s1, o1, c1);
            Le(a, b) && Le(b, a) ==> a.lamportTs == b.lamportTs && a.nodeId == b.nodeId && a.streamId == b.streamId
  {
  }
}
