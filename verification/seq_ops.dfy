/**
 * Sequence operations the hub's iterator chains are built from:
 * `filter`, `skip`/`take`, and keeping the newest entries of a bounded log.
 */
module SeqOps {
  import opened Wrappers

  /** Concatenation is associative (a step the solver does not take by itself on nested sequences). */
  lemma AppendAssoc<T>(a: seq<T>, b: seq<T>, c: seq<T>)
    ensures (a + b) + c == a + (b + c)
  {
  }

  /** A non-empty sequence is its front followed by its last element. */
  lemma InitLast<T>(xs: seq<T>)
    requires |xs| > 0
    ensures xs == xs[..|xs| - 1] + [xs[|xs| - 1]]
  {
  }

  /** `iter().filter(keep).collect()`: the elements that pass, in their order. */
  function Filter<T>(keep: T -> bool, xs: seq<T>): (r: seq<T>)
    ensures |r| <= |xs|
  {
    if |xs| == 0 then []
    else (if keep(xs[0]) then [xs[0]] else []) + Filter(keep, xs[1..])
  }

  /** An element is kept exactly when it is in the input and passes. */
  lemma {:induction false} FilterMembers<T>(keep: T -> bool, xs: seq<T>)
    ensures forall x :: x in Filter(keep, xs) <==> x in xs && keep(x)
  {
    if |xs| > 0 {
      FilterMembers(keep, xs[1..]);
      assert xs == [xs[0]] + xs[1..];
    }
  }

  /** Filtering works piece by piece, so the order of the input is kept. */
  lemma {:induction false} FilterAppend<T>(keep: T -> bool, a: seq<T>, b: seq<T>)
    ensures Filter(keep, a + b) == Filter(keep, a) + Filter(keep, b)
  {
    if |a| == 0 {
      assert a + b == b;
    } else {
      var head := if keep(a[0]) then [a[0]] else [];
      FilterAppend(keep, a[1..], b);
      assert (a + b)[0] == a[0] && (a + b)[1..] == a[1..] + b;
      assert Filter(keep, a + b) == head + Filter(keep, a[1..] + b);
      assert Filter(keep, a) == head + Filter(keep, a[1..]);
    }
  }

  /** A filter that every element passes changes nothing. */
  lemma {:induction false} FilterAll<T>(keep: T -> bool, xs: seq<T>)
    requires forall i :: 0 <= i < |xs| ==> keep(xs[i])
    ensures Filter(keep, xs) == xs
  {
    if |xs| > 0 {
      FilterAll(keep, xs[1..]);
    }
  }

  /** `skip(offset).take(limit)`. */
  function Page<T>(xs: seq<T>, offset: nat, limit: nat): (r: seq<T>)
    ensures |r| <= limit && |r| <= |xs|
    ensures offset >= |xs| ==> r == []
    ensures offset < |xs| ==> |r| == (if limit < |xs| - offset then limit else |xs| - offset)
    ensures forall i :: 0 <= i < |r| ==> r[i] == xs[offset + i]
  {
    if offset >= |xs| then []
    else if limit < |xs| - offset then xs[offset..offset + limit]
    else xs[offset..]
  }

  /** Consecutive pages tile the list: page `k+1` starts where page `k` ends. */
  lemma PagesTile<T>(xs: seq<T>, offset: nat, limit: nat)
    ensures Page(xs, offset, limit) + Page(xs, offset + limit, limit) == Page(xs, offset, 2 * limit)
  {
    var a, b, c := Page(xs, offset, limit), Page(xs, offset + limit, limit), Page(xs, offset, 2 * limit);
    if offset + limit < |xs| {
      assert |a| == limit;
      assert forall i :: 0 <= i < |a + b| ==> (a + b)[i] == c[i] by {
        forall i | 0 <= i < |a + b|
          ensures (a + b)[i] == c[i]
        {
          if i >= |a| {
            assert (a + b)[i] == b[i - limit];
          }
        }
      }
    }
  }

  /**
   * Collecting one more element into a page that is not yet full adds it
   * exactly when the first `offset` elements have already been skipped.
   */
  lemma PageSnoc<T>(xs: seq<T>, x: T, offset: nat, limit: nat)
    requires |xs| < offset + limit
    ensures Page(xs + [x], offset, limit) == Page(xs, offset, limit) + (if |xs| >= offset then [x] else [])
  {
    if |xs| >= offset {
      assert (xs + [x])[offset..] == xs[offset..] + [x];
    }
  }

  /** Once a page is full, later elements do not change it. */
  lemma PageFull<T>(xs: seq<T>, more: seq<T>, offset: nat, limit: nat)
    requires offset + limit <= |xs|
    ensures Page(xs + more, offset, limit) == Page(xs, offset, limit)
  {
    var a, b := Page(xs + more, offset, limit), Page(xs, offset, limit);
    assert |a| == |b|;
    forall i | 0 <= i < |a|
      ensures a[i] == b[i]
    {
      assert (xs + more)[offset + i] == xs[offset + i];
    }
  }

  /** The newest `n` entries of a log (all of it when it is shorter). */
  function Last<T>(xs: seq<T>, n: nat): (r: seq<T>)
    ensures |r| == (if |xs| <= n then |xs| else n)
    ensures forall i :: 0 <= i < |r| ==> r[i] == xs[|xs| - |r| + i]
  {
    if |xs| <= n then xs else xs[|xs| - n..]
  }

  /**
   * `if len >= cap { pop_front() } push_back(x)`: the log after appending
   * `x` to `log`, bounded by `cap`.
   */
  function PushBounded<T>(log: seq<T>, x: T, cap: nat): (r: seq<T>)
    ensures |r| > 0 && r[|r| - 1] == x
  {
    (if |log| >= cap && |log| > 0 then log[1..] else log) + [x]
  }

  /**
   * Pushing into a log that respects a positive bound keeps the newest
   * `cap` entries, evicting the oldest first; a zero bound still keeps one.
   */
  lemma PushBoundedKeepsNewest<T>(log: seq<T>, x: T, cap: nat)
    requires |log| <= (if cap == 0 then 1 else cap)
    ensures PushBounded(log, x, cap) == Last(log + [x], if cap == 0 then 1 else cap)
    ensures |PushBounded(log, x, cap)| <= (if cap == 0 then 1 else cap)
  {
    var all := log + [x];
    var r := PushBounded(log, x, cap);
    var bound := if cap == 0 then 1 else cap;
    if |log| >= cap && |log| > 0 {
      assert |log| == bound;
      assert r == all[1..];
    } else {
      assert r == all;
    }
  }

  /** `iter().rev()`: the list backwards. */
  function Reverse<T>(xs: seq<T>): (r: seq<T>)
    ensures |r| == |xs|
    ensures forall i :: 0 <= i < |r| ==> r[i] == xs[|xs| - 1 - i]
  {
    if |xs| == 0 then [] else [xs[|xs| - 1]] + Reverse(xs[..|xs| - 1])
  }

  /** `iter().rev().take(n)`: the newest `n` entries, newest first. */
  function NewestFirst<T>(xs: seq<T>, n: nat): (r: seq<T>)
    ensures r == Reverse(Last(xs, n))
  {
    var rev := Reverse(xs);
    if n < |rev| then rev[..n] else rev
  }

  /** `iter().position(p)`: the index of the first element that satisfies `p`. */
  function FirstWhere<T>(xs: seq<T>, p: T -> bool): (r: Option<nat>)
    ensures r.Some? ==> r.value < |xs| && p(xs[r.value])
    ensures r.Some? ==> forall j :: 0 <= j < r.value ==> !p(xs[j])
    ensures r.None? ==> forall j :: 0 <= j < |xs| ==> !p(xs[j])
  {
    if |xs| == 0 then None
    else if p(xs[0]) then Some(0)
    else match FirstWhere(xs[1..], p)
      case None => None
      case Some(i) => Some(i + 1)
  }

  /** The first match is the one a left-to-right scan stops at. */
  lemma FirstWhereIs<T>(xs: seq<T>, p: T -> bool, i: nat)
    requires i < |xs| && p(xs[i])
    requires forall j :: 0 <= j < i ==> !p(xs[j])
    ensures FirstWhere(xs, p) == Some(i)
  {
    var r := FirstWhere(xs, p);
    assert r.Some?;
    if r.value < i {
    } else if r.value > i {
    }
  }

  /** Appending an element changes the first match only when there was none. */
  lemma {:induction false} FirstWhereAppend<T>(xs: seq<T>, x: T, p: T -> bool)
    ensures FirstWhere(xs + [x], p) ==
      if FirstWhere(xs, p).Some? then FirstWhere(xs, p) else if p(x) then Some(|xs|) else None
  {
    var all := xs + [x];
    var found := FirstWhere(xs, p);
    if found.Some? {
      var i := found.value;
      assert all[i] == xs[i];
      assert forall j :: 0 <= j < i ==> all[j] == xs[j];
      FirstWhereIs(all, p, i);
    } else {
      assert forall j :: 0 <= j < |xs| ==> all[j] == xs[j];
      if p(x) {
        FirstWhereIs(all, p, |xs|);
      } else {
        FirstWhereNone(all, p);
      }
    }
  }

  /** No element matches exactly when there is no first match. */
  lemma FirstWhereNone<T>(xs: seq<T>, p: T -> bool)
    requires forall j :: 0 <= j < |xs| ==> !p(xs[j])
    ensures FirstWhere(xs, p) == None
  {
  }

  /**
   * Replacing the first match by an element that still matches keeps it
   * the first match, so a lookup after an in-place update finds the update.
   */
  lemma FirstWhereUpdate<T>(xs: seq<T>, p: T -> bool, y: T)
    requires FirstWhere(xs, p).Some? && p(y)
    ensures FirstWhere(xs[FirstWhere(xs, p).value := y], p) == FirstWhere(xs, p)
  {
    var i := FirstWhere(xs, p).value;
    var ys := xs[i := y];
    assert forall j :: 0 <= j < i ==> ys[j] == xs[j];
    FirstWhereIs(ys, p, i);
  }

  /** `Vec::remove(i)`: the element at `i` taken out, the rest in their order. */
  function RemoveAt<T>(xs: seq<T>, i: nat): (r: seq<T>)
    requires i < |xs|
    ensures |r| == |xs| - 1
    ensures forall j :: 0 <= j < i ==> r[j] == xs[j]
    ensures forall j :: i <= j < |r| ==> r[j] == xs[j + 1]
    ensures multiset(r) + multiset{xs[i]} == multiset(xs)
  {
    assert xs == xs[..i] + [xs[i]] + xs[i + 1..];
    xs[..i] + xs[i + 1..]
  }

  /**
   * After the first match is removed, the next lookup finds the next match
   * of the original list, if there is one.
   */
  lemma {:induction false} FirstWhereAfterRemove<T>(xs: seq<T>, p: T -> bool)
    requires FirstWhere(xs, p).Some?
    ensures var i := FirstWhere(xs, p).value;
      FirstWhere(RemoveAt(xs, i), p) ==
        match FirstWhere(xs[i + 1..], p)
        case None => None
        case Some(k) => Some(i + k)
  {
    var i := FirstWhere(xs, p).value;
    var rest := RemoveAt(xs, i);
    match FirstWhere(xs[i + 1..], p)
    case None =>
      forall j | 0 <= j < |rest|
        ensures !p(rest[j])
      {
        if j >= i {
          assert rest[j] == xs[i + 1..][j - i];
        }
      }
      FirstWhereNone(rest, p);
    case Some(k) =>
      assert rest[i + k] == xs[i + 1..][k];
      forall j | 0 <= j < i + k
        ensures !p(rest[j])
      {
        if j >= i {
          assert rest[j] == xs[i + 1..][j - i];
        }
      }
      FirstWhereIs(rest, p, i + k);
  }

  /** `iter().find(p).cloned()`: the first element that satisfies `p`. */
  function FindFirst<T>(xs: seq<T>, p: T -> bool): (r: Option<T>)
    ensures r.Some? <==> FirstWhere(xs, p).Some?
    ensures r.Some? ==> r.value == xs[FirstWhere(xs, p).value] && p(r.value) && r.value in xs
    ensures r.None? <==> forall j :: 0 <= j < |xs| ==> !p(xs[j])
  {
    match FirstWhere(xs, p)
    case None => None
    case Some(i) => Some(xs[i])
  }

  /**
   * Appending an element leaves an existing first match in place; with no
   * match before, the new element is found exactly when it matches.
   */
  lemma FindFirstAppend<T>(xs: seq<T>, x: T, p: T -> bool)
    ensures FindFirst(xs + [x], p) ==
      if FindFirst(xs, p).Some? then FindFirst(xs, p) else if p(x) then Some(x) else None
  {
    FirstWhereAppend(xs, x, p);
    if FirstWhere(xs, p).Some? {
      assert (xs + [x])[FirstWhere(xs, p).value] == xs[FirstWhere(xs, p).value];
    }
  }
}
