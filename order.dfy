/** Least, greatest, neighbours and ranks within a finite set of keys. */
module Order {
  import opened Options

  ghost predicate IsMin(s: set<nat>, m: nat) {
    m in s && forall x :: x in s ==> m <= x
  }

  ghost predicate IsMax(s: set<nat>, m: nat) {
    m in s && forall x :: x in s ==> x <= m
  }

  /** On a circle of keys, `x` lies strictly between `k` and its follower `n`
      (going upwards from `k` and wrapping past the largest key). */
  predicate InGap(k: nat, n: nat, x: nat) {
    if k < n then k < x < n else k < x || x < n
  }

  /** `n` is what follows `k` on a circular ascending list of `s`: the next larger key,
      or, after the largest key, the smallest one. */
  ghost predicate IsSucc(s: set<nat>, k: nat, n: nat) {
    n in s && forall x :: x in s ==> !InGap(k, n, x)
  }

  /** `n` is what precedes `k` on a circular ascending list of `s`. */
  ghost predicate IsPred(s: set<nat>, k: nat, n: nat) {
    n in s && forall x :: x in s ==> !InGap(n, k, x)
  }

  /** `r` is the greatest key of `s` below `k`, or none when no key lies below `k`. */
  ghost predicate IsLower(s: set<nat>, k: nat, r: Option<nat>) {
    match r
    case None => forall x :: x in s ==> k <= x
    case Some(m) => m in s && m < k && forall x :: x in s && x < k ==> x <= m
  }

  /** `m` is the least key of `s` not below `k`. */
  ghost predicate IsCeil(s: set<nat>, k: nat, m: nat) {
    m in s && k <= m && forall x :: x in s && k <= x ==> m <= x
  }

  /** The number of keys of `s` below `k`: its zero-based position in ascending order. */
  ghost function Rank(s: set<nat>, k: nat): nat {
    |set x | x in s && x < k|
  }

  // Five facts about points on the circle of keys, used when a leaf is linked in or out.

  /** Linking `leaf` after `m`, whose follower was `r`: nothing lies between `leaf` and `r`. */
  lemma GapAfterLinked(m: nat, r: nat, leaf: nat, x: nat)
    requires !InGap(m, r, x) && !InGap(m, leaf, x) && !InGap(m, leaf, r)
    requires leaf != m && leaf != r && x != leaf
    ensures !InGap(leaf, r, x)
  {
  }

  /** Linking `leaf` after `m` does not fall into the gap after any other key `k`. */
  lemma GapOtherSucc(k: nat, n: nat, m: nat, leaf: nat)
    requires !InGap(k, n, m) && !InGap(m, leaf, k) && !InGap(m, leaf, n)
    requires k != m && leaf != k && leaf != n && leaf != m
    ensures !InGap(k, n, leaf)
  {
  }

  /** Linking `leaf` between `m` and `r` does not fall into the gap before any other key `k`. */
  lemma GapOtherPred(p: nat, k: nat, m: nat, r: nat, leaf: nat)
    requires !InGap(p, k, m) && !InGap(p, k, r) && !InGap(m, leaf, p) && !InGap(m, leaf, k)
    requires !InGap(m, r, p) && !InGap(m, r, k)
    requires k != r && leaf != p && leaf != k && leaf != m && leaf != r
    ensures !InGap(p, k, leaf)
  {
  }

  /** Unlinking `k` from between `l` and `r` joins the two gaps around it. */
  lemma GapJoined(l: nat, k: nat, r: nat, x: nat)
    requires !InGap(l, k, x) && !InGap(k, r, x) && !InGap(l, k, r) && !InGap(k, r, l)
    requires x != k && l != k && r != k
    ensures !InGap(l, r, x)
  {
  }

  /** A key has a single predecessor. */
  lemma GapSamePred(x: nat, l: nat, k: nat)
    requires !InGap(x, k, l) && !InGap(l, k, x) && x != k && l != k
    ensures x == l
  {
  }

  /** A key has one follower and one predecessor. */
  lemma SuccUnique(s: set<nat>, k: nat, a: nat, b: nat)
    requires IsSucc(s, k, a) && IsSucc(s, k, b)
    ensures a == b
  {
    assert !InGap(k, a, b) && !InGap(k, b, a);
  }

  /** Stepping back from `m`, the least key not below `k`, finds the greatest key below `k`
      unless it wraps around past the smallest key. */
  lemma LowerFromPred(s: set<nat>, k: nat, m: nat, pm: nat)
    requires m in s && k <= m && IsPred(s, m, pm)
    requires forall x :: x in s && k <= x ==> m <= x
    ensures IsLower(s, k, if pm < k then Some(pm) else None)
  {
    if pm < k {
      forall x | x in s && x < k ensures x <= pm { assert !InGap(pm, m, x); }
    } else {
      forall x | x in s ensures k <= x {
        assert !InGap(pm, m, x);
        if pm <= m { assert m <= pm; }
      }
    }
  }

  lemma {:induction false} SubsetCard(a: set<nat>, b: set<nat>)
    requires a <= b
    ensures |a| <= |b|
  {
    if a != {} {
      var x :| x in a;
      SubsetCard(a - {x}, b - {x});
    }
  }

  /** Stepping to the successor raises the rank by one, unless it wraps around. */
  lemma RankSucc(s: set<nat>, k: nat, n: nat)
    requires k in s && IsSucc(s, k, n) && k < n
    ensures Rank(s, n) == Rank(s, k) + 1
  {
    var below := set x | x in s && x < k;
    assert (set x | x in s && x < n) == below + {k};
  }

  lemma RankMin(s: set<nat>, m: nat)
    requires IsMin(s, m)
    ensures Rank(s, m) == 0
  {
    assert (set x | x in s && x < m) == {};
  }

  /** Only the greatest key has the last rank. */
  lemma RankMax(s: set<nat>, k: nat)
    requires k in s
    ensures IsMax(s, k) <==> Rank(s, k) == |s| - 1
  {
    var below := set x | x in s && x < k;
    if IsMax(s, k) {
      assert below == s - {k};
    } else {
      var y :| y in s && k < y;
      assert below <= s - {k, y};
      SubsetCard(below, s - {k, y});
      assert |s - {k, y}| == |s - {k}| - 1;
    }
  }

  /** A key's rank is below the number of keys. */
  lemma RankBound(s: set<nat>, k: nat)
    requires k in s
    ensures Rank(s, k) < |s|
  {
    var below := set x | x in s && x < k;
    assert below <= s - {k};
    SubsetCard(below, s - {k});
  }

  /** On the circle, the follower of the greatest key is the least key, and any other key
      is followed by a greater one that is not the least. */
  lemma SuccWraps(s: set<nat>, k: nat, n: nat)
    requires k in s && IsSucc(s, k, n)
    ensures IsMax(s, k) <==> IsMin(s, n)
    ensures !IsMax(s, k) ==> k < n
  {
    if !IsMax(s, k) {
      var y :| y in s && k < y;
      assert !InGap(k, n, y);
    }
    if IsMax(s, k) {
      forall x | x in s ensures n <= x { assert !InGap(k, n, x); }
    }
  }

  /** Being the predecessor of `k` is being the key `k` follows. */
  lemma PredIsSucc(s: set<nat>, k: nat, p: nat)
    requires k in s && IsPred(s, k, p)
    ensures IsSucc(s, p, k)
  {
  }

  /** Any key other than the least is preceded by a smaller key. */
  lemma PredBelow(s: set<nat>, k: nat, p: nat)
    requires k in s && IsPred(s, k, p) && !IsMin(s, k)
    ensures p < k
  {
    var y :| y in s && y < k;
    assert !InGap(p, k, y);
  }
}
