/**
 * First-seen de-duplication of a sequence, the idiom
 * `for x in xs: if x not in seen: out.append(x); seen.add(x)` that both the
 * candidate generator and Python's insertion-ordered `dict` follow.
 */
module Seqs {

  predicate Distinct<T(==)>(s: seq<T>) {
    forall i, j :: 0 <= i < j < |s| ==> s[i] != s[j]
  }

  /** Keeps the first occurrence of every element, in order of first appearance. */
  function Dedup<T(==)>(xs: seq<T>): seq<T> {
    if xs == [] then []
    else
      var prev := Dedup(xs[..|xs| - 1]);
      if xs[|xs| - 1] in prev then prev else prev + [xs[|xs| - 1]]
  }

  lemma {:induction false} DedupMembers<T>(xs: seq<T>)
    ensures forall x :: x in Dedup(xs) <==> x in xs
  {
    if xs != [] {
      var init := xs[..|xs| - 1];
      DedupMembers(init);
      assert xs == init + [xs[|xs| - 1]];
    }
  }

  lemma DedupMember<T>(xs: seq<T>, x: T)
    ensures x in Dedup(xs) <==> x in xs
  {
    DedupMembers(xs);
  }

  lemma {:induction false} DedupDistinct<T>(xs: seq<T>)
    ensures Distinct(Dedup(xs))
  {
    if xs != [] {
      DedupDistinct(xs[..|xs| - 1]);
    }
  }

  /**
   * First-seen order: of two elements of the result, the earlier one occurs
   * in the input before the first occurrence of the later one.
   */
  lemma {:induction false} DedupOrder<T>(xs: seq<T>, i: nat, j: nat)
    requires i < j < |Dedup(xs)|
    ensures exists p :: 0 <= p < |xs| && xs[p] == Dedup(xs)[i] && Dedup(xs)[j] !in xs[..p]
  {
    var init := xs[..|xs| - 1];
    var prev := Dedup(init);
    var last := xs[|xs| - 1];
    if j < |prev| {
      DedupOrder(init, i, j);
      var p :| 0 <= p < |init| && init[p] == prev[i] && prev[j] !in init[..p];
      assert xs[..p] == init[..p];
    } else {
      // the later element is the last one of the input, seen there for the first time
      DedupMembers(init);
      assert Dedup(xs) == if last in prev then prev else prev + [last];
      assert Dedup(xs)[j] == last && last !in init;
      var y := prev[i];
      DedupMember(init, y);
      var p :| 0 <= p < |init| && init[p] == y;
      assert xs[..p] == init[..p];
    }
  }

  /** The first element of `xs` that satisfies `p`, if any. */
  function FirstMatch<T>(xs: seq<T>, p: T -> bool): (r: int)
    ensures -1 <= r < |xs|
    ensures r == -1 ==> forall k :: 0 <= k < |xs| ==> !p(xs[k])
    ensures r >= 0 ==> p(xs[r]) && forall k :: 0 <= k < r ==> !p(xs[k])
  {
    if xs == [] then -1
    else if p(xs[0]) then 0
    else var r := FirstMatch(xs[1..], p); if r == -1 then -1 else r + 1
  }

  lemma {:induction false} FirstMatchSnoc<T>(xs: seq<T>, x: T, p: T -> bool)
    ensures FirstMatch(xs + [x], p)
            == if FirstMatch(xs, p) >= 0 then FirstMatch(xs, p) else if p(x) then |xs| else -1
  {
    if xs != [] {
      FirstMatchSnoc(xs[1..], x, p);
      assert (xs + [x])[1..] == xs[1..] + [x];
    }
  }

  /**
   * Scanning the de-duplicated sequence finds the same element as scanning
   * the original one: an element skipped as a duplicate was already scanned.
   */
  lemma {:induction false} DedupFirstMatch<T>(xs: seq<T>, p: T -> bool)
    ensures var d, m := FirstMatch(Dedup(xs), p), FirstMatch(xs, p);
            (d == -1 <==> m == -1) && (d >= 0 ==> Dedup(xs)[d] == xs[m])
  {
    if xs != [] {
      var init := xs[..|xs| - 1];
      var last := xs[|xs| - 1];
      DedupFirstMatch(init, p);
      DedupMembers(init);
      var prev := Dedup(init);
      var dp, mp := FirstMatch(prev, p), FirstMatch(init, p);
      assert forall k :: 0 <= k < |init| ==> xs[k] == init[k];
      if mp >= 0 {
        assert FirstMatch(xs, p) == mp;
        assert Dedup(xs)[..|prev|] == prev;
        assert FirstMatch(Dedup(xs), p) == dp;
      } else if last in init {
        var q :| 0 <= q < |init| && init[q] == last;
        assert !p(last);
      } else {
        assert Dedup(xs) == prev + [last];
        FirstMatchSnoc(prev, last, p);
        FirstMatchSnoc(init, last, p);
        assert xs == init + [last];
      }
    }
  }
}
