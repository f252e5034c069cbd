/** The circular, doubly linked, ascending list of leaves. A leaf is named by its key;
    `next` holds each leaf's right link, `prev` its left link, and `head` the list head
    (the smallest key), absent when there are no leaves. */
module LeafList {
  import opened Options
  import opened Order

  /** Every leaf's links name its neighbours on the circular ascending order. */
  ghost predicate Linked(s: set<nat>, next: map<nat, nat>, prev: map<nat, nat>) {
    && next.Keys == s && prev.Keys == s
    && (forall k {:trigger NextOk(s, next, k)} :: k in s ==> NextOk(s, next, k))
    && (forall k {:trigger PrevOk(s, prev, k)} :: k in s ==> PrevOk(s, prev, k))
  }

  /** The right link of `k` names its follower. */
  ghost predicate NextOk(s: set<nat>, next: map<nat, nat>, k: nat) {
    k in next && IsSucc(s, k, next[k])
  }

  /** The left link of `k` names its predecessor. */
  ghost predicate PrevOk(s: set<nat>, prev: map<nat, nat>, k: nat) {
    k in prev && IsPred(s, k, prev[k])
  }

  ghost predicate ListOk(s: set<nat>, next: map<nat, nat>, prev: map<nat, nat>, head: Option<nat>) {
    && Linked(s, next, prev)
    && (head.None? <==> s == {})
    && (head.Some? ==> IsMin(s, head.value))
  }

  /** A one-leaf list links the leaf to itself both ways. */
  lemma LinkOnly(leaf: nat)
    ensures Linked({leaf}, map[leaf := leaf], map[leaf := leaf])
  {
  }

  /** Linking `leaf` between `m` and its follower `r`, when no key lies between `m` and
      `leaf`, makes `leaf` the neighbour of both. */
  lemma NeighboursOfLinked(s: set<nat>, m: nat, r: nat, leaf: nat)
    requires m in s && leaf !in s && IsSucc(s, m, r)
    requires forall x :: x in s ==> !InGap(m, leaf, x)
    ensures IsSucc(s + {leaf}, leaf, r) && IsPred(s + {leaf}, r, leaf)
    ensures IsSucc(s + {leaf}, m, leaf) && IsPred(s + {leaf}, leaf, m)
  {
    assert !InGap(m, leaf, r) && !InGap(leaf, r, leaf);
    forall x | x in s ensures !InGap(leaf, r, x) { GapAfterLinked(m, r, leaf, x); }
  }

  /** ... and leaves the follower of every other key as it was. */
  lemma SuccAfterLink(s: set<nat>, k: nat, n: nat, m: nat, leaf: nat)
    requires k in s && m in s && k != m && leaf !in s && IsSucc(s, k, n)
    requires forall x :: x in s ==> !InGap(m, leaf, x)
    ensures IsSucc(s + {leaf}, k, n)
  {
    assert !InGap(k, n, m) && !InGap(m, leaf, k) && !InGap(m, leaf, n);
    GapOtherSucc(k, n, m, leaf);
  }

  /** ... and the predecessor of every key other than `r`. */
  lemma PredAfterLink(s: set<nat>, k: nat, p: nat, m: nat, r: nat, leaf: nat)
    requires k in s && m in s && k != r && leaf !in s && IsPred(s, k, p) && IsSucc(s, m, r)
    requires forall x :: x in s ==> !InGap(m, leaf, x)
    ensures IsPred(s + {leaf}, k, p)
  {
    assert !InGap(p, k, m) && !InGap(p, k, r) && !InGap(m, leaf, p) && !InGap(m, leaf, k);
    assert !InGap(m, r, p) && !InGap(m, r, k);
    GapOtherPred(p, k, m, r, leaf);
  }

  /** The right link of any key other than `m` and `leaf` after linking `leaf` after `m`. */
  lemma NextAfterLink(s: set<nat>, next: map<nat, nat>, prev: map<nat, nat>, m: nat, leaf: nat, k: nat)
    requires Linked(s, next, prev)
    requires leaf !in s && m in s && k in s && k != m
    requires forall x :: x in s ==> !InGap(m, leaf, x)
    ensures NextOk(s + {leaf}, next[m := leaf][leaf := next[m]], k)
  {
    assert NextOk(s, next, k);
    var n := next[k];
    assert next[m := leaf][leaf := next[m]][k] == n;
    SuccAfterLink(s, k, n, m, leaf);
  }

  /** The left link of any key other than `leaf` and `m`'s old follower. */
  lemma PrevAfterLink(s: set<nat>, next: map<nat, nat>, prev: map<nat, nat>, m: nat, leaf: nat, k: nat)
    requires Linked(s, next, prev)
    requires leaf !in s && m in s && k in s && k != next[m]
    requires forall x :: x in s ==> !InGap(m, leaf, x)
    ensures PrevOk(s + {leaf}, prev[leaf := m][next[m] := leaf], k)
  {
    assert PrevOk(s, prev, k) && NextOk(s, next, m);
    var p := prev[k];
    assert prev[leaf := m][next[m] := leaf][k] == p;
    PredAfterLink(s, k, p, m, next[m], leaf);
  }

  /** Linking `leaf` right after `m` keeps every right link naming a follower. */
  lemma NextsAfterLink(s: set<nat>, next: map<nat, nat>, prev: map<nat, nat>, m: nat, leaf: nat,
                        s': set<nat>, next': map<nat, nat>)
    requires Linked(s, next, prev)
    requires leaf !in s && m in s
    requires forall x :: x in s ==> !InGap(m, leaf, x)
    requires s' == s + {leaf} && next' == next[m := leaf][leaf := next[m]]
    ensures forall k {:trigger NextOk(s', next', k)} :: k in s' ==> NextOk(s', next', k)
  {
    assert NextOk(s, next, m);
    var r := next[m];
    NeighboursOfLinked(s, m, r, leaf);
    forall k | k in s' ensures NextOk(s', next', k) {
      if k == leaf {
        assert next'[k] == r;
      } else if k == m {
        assert next'[k] == leaf;
      } else {
        NextAfterLink(s, next, prev, m, leaf, k);
      }
    }
  }

  /** ... and every left link naming a predecessor. */
  lemma PrevsAfterLink(s: set<nat>, next: map<nat, nat>, prev: map<nat, nat>, m: nat, leaf: nat,
                        s': set<nat>, prev': map<nat, nat>)
    requires Linked(s, next, prev)
    requires leaf !in s && m in s
    requires forall x :: x in s ==> !InGap(m, leaf, x)
    requires s' == s + {leaf} && prev' == prev[leaf := m][next[m] := leaf]
    ensures forall k {:trigger PrevOk(s', prev', k)} :: k in s' ==> PrevOk(s', prev', k)
  {
    assert NextOk(s, next, m);
    var r := next[m];
    NeighboursOfLinked(s, m, r, leaf);
    forall k | k in s' ensures PrevOk(s', prev', k) {
      if k == r {
        assert prev'[k] == leaf;
      } else if k == leaf {
        assert prev'[k] == m;
      } else {
        PrevAfterLink(s, next, prev, m, leaf, k);
      }
    }
  }

  /** Linking `leaf` right after `m`, when no key lies between `m` and `leaf`, keeps every
      link naming a neighbour. */
  lemma LinkAfter(s: set<nat>, next: map<nat, nat>, prev: map<nat, nat>, m: nat, leaf: nat)
    requires Linked(s, next, prev)
    requires leaf !in s && m in s
    requires forall x :: x in s ==> !InGap(m, leaf, x)
    ensures Linked(s + {leaf}, next[m := leaf][leaf := next[m]], prev[leaf := m][next[m] := leaf])
  {
    assert NextOk(s, next, m);
    var s' := s + {leaf};
    NextsAfterLink(s, next, prev, m, leaf, s', next[m := leaf][leaf := next[m]]);
    PrevsAfterLink(s, next, prev, m, leaf, s', prev[leaf := m][next[m] := leaf]);
  }

  /** Removing a key other than both ends of a link keeps the link. */
  lemma SuccWithout(s: set<nat>, x: nat, n: nat, k: nat)
    requires IsSucc(s, x, n) && n != k
    ensures IsSucc(s - {k}, x, n)
  {
  }

  lemma PredWithout(s: set<nat>, x: nat, p: nat, k: nat)
    requires IsPred(s, x, p) && p != k
    ensures IsPred(s - {k}, x, p)
  {
  }

  /** Unlinking `k`, whose neighbours are `l` and `r`, leaves `l` and `r` neighbours. */
  lemma NeighboursOfUnlinked(s: set<nat>, l: nat, k: nat, r: nat)
    requires k in s && IsSucc(s, k, r) && IsPred(s, k, l) && r != k
    ensures l != k
    ensures IsSucc(s - {k}, l, r) && IsPred(s - {k}, r, l)
  {
    assert !InGap(k, r, l);
    assert !InGap(l, k, r);
    forall x | x in s - {k} ensures !InGap(l, r, x) { GapJoined(l, k, r, x); }
  }

  /** Unlinking `k` from between `l` and `r` keeps every other right link naming a follower. */
  lemma NextsAfterUnlink(s: set<nat>, next: map<nat, nat>, prev: map<nat, nat>, k: nat,
                         s': set<nat>, next': map<nat, nat>)
    requires Linked(s, next, prev) && k in s && next[k] != k
    requires s' == s - {k} && next' == next[prev[k] := next[k]] - {k}
    ensures forall x {:trigger NextOk(s', next', x)} :: x in s' ==> NextOk(s', next', x)
  {
    assert NextOk(s, next, k) && PrevOk(s, prev, k);
    var r, l := next[k], prev[k];
    NeighboursOfUnlinked(s, l, k, r);
    forall x | x in s' ensures NextOk(s', next', x) {
      if x == l {
        assert next'[x] == r;
      } else {
        assert NextOk(s, next, x);
        var n := next[x];
        assert next'[x] == n;
        if n == k { GapSamePred(x, l, k); }
        SuccWithout(s, x, n, k);
      }
    }
  }

  /** ... and every other left link naming a predecessor. */
  lemma PrevsAfterUnlink(s: set<nat>, next: map<nat, nat>, prev: map<nat, nat>, k: nat,
                         s': set<nat>, prev': map<nat, nat>)
    requires Linked(s, next, prev) && k in s && next[k] != k
    requires s' == s - {k} && prev' == prev[next[k] := prev[k]] - {k}
    ensures forall x {:trigger PrevOk(s', prev', x)} :: x in s' ==> PrevOk(s', prev', x)
  {
    assert NextOk(s, next, k) && PrevOk(s, prev, k);
    var r, l := next[k], prev[k];
    NeighboursOfUnlinked(s, l, k, r);
    forall x | x in s' ensures PrevOk(s', prev', x) {
      if x == r {
        assert prev'[x] == l;
      } else {
        assert PrevOk(s, prev, x);
        var p := prev[x];
        assert prev'[x] == p;
        PredWithout(s, x, p, k);
      }
    }
  }

  /** Unlinking `k` joins its two neighbours; the only leaf leaves an empty list. */
  lemma Unlink(s: set<nat>, next: map<nat, nat>, prev: map<nat, nat>, head: Option<nat>, k: nat)
    requires ListOk(s, next, prev, head) && k in s
    ensures next[k] == k <==> s == {k}
    ensures next[k] == k ==> ListOk(s - {k}, next - {k}, prev - {k}, None)
    ensures next[k] != k ==>
      ListOk(s - {k}, next[prev[k] := next[k]] - {k}, prev[next[k] := prev[k]] - {k},
             if head == Some(k) then Some(next[k]) else head)
  {
    assert NextOk(s, next, k) && PrevOk(s, prev, k);
    var r, l := next[k], prev[k];
    var s' := s - {k};
    if r == k {
      assert forall x :: x in s ==> !InGap(k, k, x);
      assert s == {k};
    } else {
      assert r in s';
      var next', prev' := next[l := r] - {k}, prev[r := l] - {k};
      NextsAfterUnlink(s, next, prev, k, s', next');
      PrevsAfterUnlink(s, next, prev, k, s', prev');
      assert next'.Keys == s' && prev'.Keys == s';
      if head == Some(k) {
        assert IsMin(s', r);
      }
    }
  }

  /** The follower of the greatest key below `key` (or the head, when none is below) is the
      least key not below `key`, so it is `key` exactly when `key` is in the list; when every
      key lies below `key` it wraps around to the head. */
  lemma FollowerOfLower(s: set<nat>, next: map<nat, nat>, prev: map<nat, nat>, head: Option<nat>,
                        key: nat, r: Option<nat>)
    requires ListOk(s, next, prev, head) && IsLower(s, key, r)
    ensures r.Some? ==> r.value in next
    ensures var f := if r.Some? then Some(next[r.value]) else head;
            && (f == Some(key) <==> key in s)
            && ((exists k :: k in s && key <= k) ==> f.Some? && IsCeil(s, key, f.value))
            && ((forall k :: k in s ==> k < key) ==> f == head)
  {
    if r.Some? {
      var m := r.value;
      assert NextOk(s, next, m);
      var n := next[m];
      if exists k :: k in s && key <= k {
        var k :| k in s && key <= k;
        assert !IsMax(s, m) by { assert m < k; }
        SuccWraps(s, m, n);
        forall x | x in s && key <= x ensures n <= x {
          assert !InGap(m, n, x);
        }
      } else {
        assert IsMax(s, m) by {
          forall x | x in s ensures x <= m {
            assert x < key;
          }
        }
        SuccWraps(s, m, n);
        assert n == head.value by {
          assert n <= head.value && head.value <= n;
        }
      }
      if key in s {
        assert IsSucc(s, m, key);
        SuccUnique(s, m, key, next[m]);
      }
    }
  }
}
