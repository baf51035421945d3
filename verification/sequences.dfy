/** Order-keeping selection from a sequence, as `Iterator::filter` and the two
    halves of `Iterator::partition` do it. */
module Sequences {
  import opened Results

  /** The elements of `xs` that pass `keep`, in the order of `xs`. */
  function Filter<X>(xs: seq<X>, keep: X -> bool): (s: seq<X>)
    ensures |s| <= |xs|
    ensures forall i :: 0 <= i < |s| ==> keep(s[i])
  {
    if |xs| == 0 then []
    else Filter(xs[..|xs| - 1], keep) + (if keep(xs[|xs| - 1]) then [xs[|xs| - 1]] else [])
  }

  /** Filtering a sequence with one more element at its end. */
  lemma FilterSnoc<X>(xs: seq<X>, x: X, keep: X -> bool)
    ensures Filter(xs + [x], keep) == Filter(xs, keep) + (if keep(x) then [x] else [])
  {
    assert (xs + [x])[..|xs|] == xs;
  }

  /** A test and its negation split a sequence: every element lands in exactly
      one of the two selections. */
  lemma {:induction false} FilterSplits<X>(xs: seq<X>, keep: X -> bool, drop: X -> bool)
    requires forall x :: drop(x) == !keep(x)
    ensures multiset(Filter(xs, keep)) + multiset(Filter(xs, drop)) == multiset(xs)
  {
    if |xs| > 0 {
      var init, last := xs[..|xs| - 1], xs[|xs| - 1];
      FilterSplits(init, keep, drop);
      assert xs == init + [last];
      var m, c := Filter(init, keep), Filter(init, drop);
      assert multiset(xs) == multiset(init) + multiset{last};
      if keep(last) {
        assert Filter(xs, keep) == m + [last];
        assert Filter(xs, drop) == c;
      } else {
        assert Filter(xs, keep) == m;
        assert Filter(xs, drop) == c + [last];
      }
    }
  }

  /** Every selected element comes from the sequence. */
  lemma FilterIsSubset<X>(xs: seq<X>, keep: X -> bool)
    ensures multiset(Filter(xs, keep)) <= multiset(xs)
    ensures forall i :: 0 <= i < |Filter(xs, keep)| ==> Filter(xs, keep)[i] in xs
  {
    var s := Filter(xs, keep);
    FilterSplits(xs, keep, x => !keep(x));
    forall i | 0 <= i < |s|
      ensures s[i] in xs
    {
      assert s[i] in multiset(s);
    }
  }

  /** The index of the first element that fails `ok`, or `|xs|` when all pass. */
  function FirstFailing<X>(xs: seq<X>, ok: X -> bool): (i: nat)
    ensures i <= |xs|
    ensures forall j :: 0 <= j < i ==> ok(xs[j])
    ensures i < |xs| ==> !ok(xs[i])
  {
    if |xs| == 0 || !ok(xs[0]) then 0
    else 1 + FirstFailing(xs[1..], ok)
  }

  /** When every element passes, none fails. */
  lemma FirstFailingAllPass<X>(xs: seq<X>, ok: X -> bool)
    requires forall i :: 0 <= i < |xs| ==> ok(xs[i])
    ensures FirstFailing(xs, ok) == |xs|
  {
  }

  /** `Iterator::partition` with a test that is only defined where `defined`
      holds: from the left, each element is pushed onto `yes` or `no`, and the
      first element outside `defined` stops the walk and is returned. */
  function PartitionFrom<X>(xs: seq<X>, defined: X -> bool, keep: X -> bool, yes: seq<X>, no: seq<X>): Result<(seq<X>, seq<X>), X>
    decreases |xs|
  {
    if |xs| == 0 then Ok((yes, no))
    else if !defined(xs[0]) then Err(xs[0])
    else if keep(xs[0]) then PartitionFrom(xs[1..], defined, keep, yes + [xs[0]], no)
    else PartitionFrom(xs[1..], defined, keep, yes, no + [xs[0]])
  }

  /** Partitioning the rest of a sequence after the elements already pushed. */
  lemma {:induction false} PartitionFromFilters<X>(done: seq<X>, rest: seq<X>, defined: X -> bool, keep: X -> bool, drop: X -> bool)
    requires forall x :: drop(x) == !keep(x)
    ensures PartitionFrom(rest, defined, keep, Filter(done, keep), Filter(done, drop))
         == (var i := FirstFailing(rest, defined);
             if i == |rest| then Ok((Filter(done + rest, keep), Filter(done + rest, drop)))
             else Err(rest[i]))
    decreases |rest|
  {
    if |rest| == 0 {
      assert done + rest == done;
    } else if defined(rest[0]) {
      var x, tail := rest[0], rest[1..];
      var yes, no := Filter(done, keep), Filter(done, drop);
      FilterSnoc(done, x, keep);
      FilterSnoc(done, x, drop);
      if keep(x) {
        assert Filter(done + [x], keep) == yes + [x] && Filter(done + [x], drop) == no;
      } else {
        assert Filter(done + [x], keep) == yes && Filter(done + [x], drop) == no + [x];
      }
      PartitionFromFilters(done + [x], tail, defined, keep, drop);
      assert done + [x] + tail == done + rest;
      var i := FirstFailing(tail, defined);
      assert FirstFailing(rest, defined) == 1 + i;
      if i < |tail| {
        assert tail[i] == rest[i + 1];
      }
    }
  }

  /** The partition succeeds exactly when every element is in `defined`, and
      then yields the two selections; otherwise it stops at the first element
      outside `defined`. */
  lemma PartitionSpec<X>(xs: seq<X>, defined: X -> bool, keep: X -> bool, drop: X -> bool)
    requires forall x :: drop(x) == !keep(x)
    ensures var i := FirstFailing(xs, defined);
            PartitionFrom(xs, defined, keep, [], [])
              == if i == |xs| then Ok((Filter(xs, keep), Filter(xs, drop))) else Err(xs[i])
  {
    PartitionFromFilters([], xs, defined, keep, drop);
    assert [] + xs == xs;
  }
}
