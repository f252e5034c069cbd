/** The level tables of an X-fast trie over `W`-bit keys. Level `i` (0 <= i < W) maps the
    `i`-bit prefix of every present key to a node with two slots; a slot either leads to the
    node one level down (`Child`) or, when that subtree is empty, jumps to the smallest
    (left slot) or greatest (right slot) key below the node. */
module Levels {
  import opened Bits
  import opened Options
  import opened Order

  /** The prefix id of `k` at level `i`: its `i` leading bits out of `W`, `k >> (W - i)`. */
  function Prefix(W: nat, k: nat, i: nat): nat
    requires i <= W
  {
    Shr(k, W - i)
  }

  /** The prefix ids present at level `i`. */
  ghost function Pref(W: nat, S: set<nat>, i: nat): set<nat>
    requires i <= W
  {
    set k | k in S :: Prefix(W, k, i)
  }

  /** The keys below the node with id `p` at level `i`. */
  ghost function Sub(W: nat, S: set<nat>, i: nat, p: nat): set<nat>
    requires i <= W
  {
    set k | k in S && Prefix(W, k, i) == p
  }

  /** The ids present one level below level `i`; the last level has no children. */
  ghost function Below(W: nat, S: set<nat>, i: nat): set<nat>
    requires i < W
  {
    if i + 1 < W then Pref(W, S, i + 1) else {}
  }

  // Prefix arithmetic

  /** The source cuts prefixes as `key >> (W - 1 - i) >> 1`. */
  lemma SourcePrefix(W: nat, k: nat, i: nat)
    requires i < W
    ensures Shr(Shr(k, W - 1 - i), 1) == Prefix(W, k, i)
    ensures Shr(k, W - 1 - i) == Prefix(W, k, i + 1)
  {
    ShrShr(k, W - 1 - i, 1);
  }

  /** Every key below `2^W` has the root id 0 and is its own prefix at level `W`. */
  lemma PrefixEnds(W: nat, k: nat)
    requires k < Pow2(W)
    ensures Prefix(W, k, 0) == 0 && Prefix(W, k, W) == k
  {
    ShrBelow(k, W);
  }

  /** A node's id is its child's id without the last bit. */
  lemma PrefixParent(W: nat, k: nat, i: nat)
    requires i < W
    ensures Prefix(W, k, i) == Prefix(W, k, i + 1) / 2
    ensures Prefix(W, k, i + 1) == 2 * Prefix(W, k, i) + Prefix(W, k, i + 1) % 2
  {
    SourcePrefix(W, k, i);
  }

  /** Keys that agree on a long prefix agree on every shorter one. */
  lemma PrefixAgree(W: nat, a: nat, b: nat, i: nat, j: nat)
    requires i <= j <= W && Prefix(W, a, j) == Prefix(W, b, j)
    ensures Prefix(W, a, i) == Prefix(W, b, i)
  {
    ShrShr(a, W - j, j - i);
    ShrShr(b, W - j, j - i);
  }

  lemma PrefixMono(W: nat, a: nat, b: nat, i: nat)
    requires i <= W && a <= b
    ensures Prefix(W, a, i) <= Prefix(W, b, i)
  {
    ShrMono(a, b, W - i);
  }

  /** Keys with a smaller prefix are smaller keys. */
  lemma PrefixOrder(W: nat, a: nat, b: nat, i: nat)
    requires i <= W && Prefix(W, a, i) < Prefix(W, b, i)
    ensures a < b
  {
    if b <= a {
      PrefixMono(W, b, a, i);
    }
  }

  /** A key between two keys of one subtree is in that subtree. */
  lemma PrefixBetween(W: nat, a: nat, x: nat, b: nat, i: nat)
    requires i <= W && a <= x <= b && Prefix(W, a, i) == Prefix(W, b, i)
    ensures Prefix(W, x, i) == Prefix(W, a, i)
  {
    PrefixMono(W, a, x, i);
    PrefixMono(W, x, b, i);
  }

  // Nodes and what their slots must hold

  /** A node slot: a link to the node one level down, or a jump to a leaf's key. */
  datatype Slot = Child | Jump(leaf: nat)

  datatype Node = Node(left: Slot, right: Slot)

  /** The left slot leads down when the left subtree is present, else jumps to the least key. */
  ghost predicate LeftOk(sub: set<nat>, child: bool, s: Slot) {
    if child then s == Child else s.Jump? && IsMin(sub, s.leaf)
  }

  /** The right slot leads down when the right subtree is present, else jumps to the greatest key. */
  ghost predicate RightOk(sub: set<nat>, child: bool, s: Slot) {
    if child then s == Child else s.Jump? && IsMax(sub, s.leaf)
  }

  /** Node `p` over the keys `sub`, whose children among `kids` are `2p` and `2p + 1`. */
  ghost predicate NodeOk(sub: set<nat>, kids: set<nat>, p: nat, n: Node) {
    LeftOk(sub, 2 * p in kids, n.left) && RightOk(sub, 2 * p + 1 in kids, n.right)
  }

  /** Level `i` holds a node for exactly the present prefixes, each one right for its keys. */
  ghost predicate LevelOk(W: nat, S: set<nat>, i: nat, t: map<nat, Node>, kids: set<nat>)
    requires i <= W
  {
    && t.Keys == Pref(W, S, i)
    && forall p {:trigger t[p]} :: p in t ==> NodeOk(Sub(W, S, i, p), kids, p, t[p])
  }

  /** A node's slots are determined by the keys below it and the children present. */
  lemma NodeUnique(sub: set<nat>, kids: set<nat>, p: nat, n1: Node, n2: Node)
    requires NodeOk(sub, kids, p, n1) && NodeOk(sub, kids, p, n2)
    ensures n1 == n2
  {
    if n1.left.Jump? { assert n1.left.leaf <= n2.left.leaf && n2.left.leaf <= n1.left.leaf; }
    if n1.right.Jump? { assert n1.right.leaf <= n2.right.leaf && n2.right.leaf <= n1.right.leaf; }
  }

  // Prefix sets

  lemma InPref(W: nat, S: set<nat>, k: nat, i: nat)
    ensures i <= W && k in S ==> Prefix(W, k, i) in Pref(W, S, i) && k in Sub(W, S, i, Prefix(W, k, i))
  {
  }

  /** A prefix is present exactly when some key lies below it. */
  lemma PrefSub(W: nat, S: set<nat>, i: nat, p: nat)
    requires i <= W
    ensures p in Pref(W, S, i) <==> Sub(W, S, i, p) != {}
  {
    if p in Pref(W, S, i) {
      var k :| k in S && Prefix(W, k, i) == p;
      assert k in Sub(W, S, i, p);
    }
  }

  /** The ancestors of a present prefix are present. */
  lemma AncestorPresent(W: nat, S: set<nat>, key: nat, i: nat, j: nat)
    requires i <= j <= W && Prefix(W, key, j) in Pref(W, S, j)
    ensures Prefix(W, key, i) in Pref(W, S, i)
  {
    var k :| k in S && Prefix(W, k, j) == Prefix(W, key, j);
    PrefixAgree(W, k, key, i, j);
  }

  /** Adding or removing `key` changes no prefix set except at `key`'s own prefix. */
  lemma PrefOther(W: nat, S1: set<nat>, S2: set<nat>, key: nat, i: nat, q: nat)
    requires i <= W && S1 - {key} == S2 - {key} && q != Prefix(W, key, i)
    ensures q in Pref(W, S1, i) <==> q in Pref(W, S2, i)
    ensures Sub(W, S1, i, q) == Sub(W, S2, i, q)
  {
    forall k | k in Sub(W, S1, i, q) ensures k in Sub(W, S2, i, q) { assert k in S1 - {key}; }
    forall k | k in Sub(W, S2, i, q) ensures k in Sub(W, S1, i, q) { assert k in S2 - {key}; }
    if q in Pref(W, S1, i) {
      var k :| k in S1 && Prefix(W, k, i) == q;
      assert k in S1 - {key};
    }
    if q in Pref(W, S2, i) {
      var k :| k in S2 && Prefix(W, k, i) == q;
      assert k in S2 - {key};
    }
  }

  /** Adding a key adds its prefix and puts it below that prefix. */
  lemma PrefAdd(W: nat, S: set<nat>, key: nat, i: nat)
    requires i <= W
    ensures Pref(W, S + {key}, i) == Pref(W, S, i) + {Prefix(W, key, i)}
    ensures Sub(W, S + {key}, i, Prefix(W, key, i)) == Sub(W, S, i, Prefix(W, key, i)) + {key}
  {
    forall q | q in Pref(W, S + {key}, i) ensures q in Pref(W, S, i) + {Prefix(W, key, i)} {
      var k :| k in S + {key} && Prefix(W, k, i) == q;
      if k != key { InPref(W, S, k, i); }
    }
  }

  /** Below level `W` the prefixes are the keys themselves. */
  lemma PrefFull(W: nat, S: set<nat>)
    requires forall k :: k in S ==> k < Pow2(W)
    ensures Pref(W, S, W) == S
  {
    forall k | k in S ensures k in Pref(W, S, W) {
      PrefixEnds(W, k);
      InPref(W, S, k, W);
    }
  }

  /** The child ids of level `i` change by at most `key`'s own. */
  lemma BelowOther(W: nat, S1: set<nat>, S2: set<nat>, key: nat, i: nat)
    requires i < W && S1 - {key} == S2 - {key}
    ensures Below(W, S1, i) - {Prefix(W, key, i + 1)} == Below(W, S2, i) - {Prefix(W, key, i + 1)}
  {
    if i + 1 < W {
      forall q | q != Prefix(W, key, i + 1) ensures q in Below(W, S1, i) <==> q in Below(W, S2, i) {
        PrefOther(W, S1, S2, key, i + 1, q);
      }
    }
  }

  /** Every key below node `p` is below one of its two children. */
  lemma SubChildren(W: nat, S: set<nat>, i: nat, p: nat, k: nat)
    requires i < W && k in Sub(W, S, i, p)
    ensures Prefix(W, k, i + 1) == 2 * p || Prefix(W, k, i + 1) == 2 * p + 1
  {
    PrefixParent(W, k, i);
  }

  // Changing one node of a level

  /** When the keys and the child ids differ by at most `key`, every node of a level other
      than `key`'s own stays right. */
  lemma OtherNodeOk(W: nat, S1: set<nat>, S2: set<nat>, k1: set<nat>, k2: set<nat>, key: nat,
                    i: nat, t: map<nat, Node>, q: nat)
    requires i < W && S1 - {key} == S2 - {key}
    requires k1 - {Prefix(W, key, i + 1)} == k2 - {Prefix(W, key, i + 1)}
    requires LevelOk(W, S1, i, t, k1) && q in t && q != Prefix(W, key, i)
    ensures q in Pref(W, S2, i) && NodeOk(Sub(W, S2, i, q), k2, q, t[q])
  {
    PrefOther(W, S1, S2, key, i, q);
    PrefixParent(W, key, i);
    assert 2 * q in k1 <==> 2 * q in k2 by {
      assert 2 * q != Prefix(W, key, i + 1);
      assert 2 * q in k1 <==> 2 * q in k1 - {Prefix(W, key, i + 1)};
      assert 2 * q in k2 <==> 2 * q in k2 - {Prefix(W, key, i + 1)};
    }
    assert 2 * q + 1 in k1 <==> 2 * q + 1 in k2 by {
      assert 2 * q + 1 != Prefix(W, key, i + 1);
      assert 2 * q + 1 in k1 <==> 2 * q + 1 in k1 - {Prefix(W, key, i + 1)};
      assert 2 * q + 1 in k2 <==> 2 * q + 1 in k2 - {Prefix(W, key, i + 1)};
    }
  }

  /** Writing the right node at `key`'s prefix keeps the level right. */
  lemma LiftUpdate(W: nat, S1: set<nat>, S2: set<nat>, k1: set<nat>, k2: set<nat>, key: nat,
                   i: nat, t: map<nat, Node>, n: Node)
    requires i < W && S1 - {key} == S2 - {key}
    requires k1 - {Prefix(W, key, i + 1)} == k2 - {Prefix(W, key, i + 1)}
    requires LevelOk(W, S1, i, t, k1)
    requires Prefix(W, key, i) in Pref(W, S2, i)
    requires NodeOk(Sub(W, S2, i, Prefix(W, key, i)), k2, Prefix(W, key, i), n)
    ensures LevelOk(W, S2, i, t[Prefix(W, key, i) := n], k2)
  {
    var c := Prefix(W, key, i);
    var t2 := t[c := n];
    forall q | q in t2 ensures NodeOk(Sub(W, S2, i, q), k2, q, t2[q]) {
      if q != c {
        OtherNodeOk(W, S1, S2, k1, k2, key, i, t, q);
      }
    }
    forall q ensures q in t2 <==> q in Pref(W, S2, i) {
      if q != c {
        PrefOther(W, S1, S2, key, i, q);
      }
    }
  }

  /** Dropping the node at `key`'s prefix, once no key is left below it, keeps the level right. */
  lemma LiftRemove(W: nat, S1: set<nat>, S2: set<nat>, k1: set<nat>, k2: set<nat>, key: nat,
                   i: nat, t: map<nat, Node>)
    requires i < W && S1 - {key} == S2 - {key}
    requires k1 - {Prefix(W, key, i + 1)} == k2 - {Prefix(W, key, i + 1)}
    requires LevelOk(W, S1, i, t, k1)
    requires Prefix(W, key, i) !in Pref(W, S2, i)
    ensures LevelOk(W, S2, i, t - {Prefix(W, key, i)}, k2)
  {
    var c := Prefix(W, key, i);
    var t2 := t - {c};
    forall q | q in t2 ensures NodeOk(Sub(W, S2, i, q), k2, q, t2[q]) {
      OtherNodeOk(W, S1, S2, k1, k2, key, i, t, q);
    }
    forall q ensures q in t2 <==> q in Pref(W, S2, i) {
      if q != c {
        PrefOther(W, S1, S2, key, i, q);
      }
    }
  }

  // The node updates of insert

  /** An existing node on the new key's path takes the key as its new least or greatest leaf
      when the key lands beyond its left or right jump. */
  function Retarget(n: Node, key: nat): (r: Node)
    ensures r.left.Child? <==> n.left.Child?
    ensures r.right.Child? <==> n.right.Child?
    ensures r.left != n.left ==> r.left == Jump(key) && n.left.Jump? && key < n.left.leaf
    ensures r.right != n.right ==> r.right == Jump(key) && n.right.Jump? && n.right.leaf < key
  {
    if n.left.Jump? && n.left.leaf > key then Node(Jump(key), n.right)
    else if n.right.Jump? && n.right.leaf < key then Node(n.left, Jump(key))
    else n
  }

  /** Retargeting keeps a node right when its subtree gains the key. */
  lemma RetargetOk(sub: set<nat>, kids: set<nat>, p: nat, n: Node, key: nat)
    requires NodeOk(sub, kids, p, n) && sub != {} && key !in sub
    ensures NodeOk(sub + {key}, kids, p, Retarget(n, key))
  {
    if n.left.Jump? && n.right.Jump? {
      assert n.left.leaf <= n.right.leaf;
    }
  }

  /** A node whose subtree already holds the key is left alone. */
  lemma RetargetPresent(sub: set<nat>, kids: set<nat>, p: nat, n: Node, key: nat)
    requires NodeOk(sub, kids, p, n) && key in sub
    ensures Retarget(n, key) == n
  {
  }

  /** A node created for the new key alone jumps to it from both slots. */
  lemma FreshNodeOk(W: nat, S: set<nat>, key: nat, i: nat)
    requires i < W && Prefix(W, key, i) !in Pref(W, S, i)
    ensures Sub(W, S + {key}, i, Prefix(W, key, i)) == {key}
    ensures NodeOk({key}, Below(W, S, i), Prefix(W, key, i), Node(Jump(key), Jump(key)))
  {
    var c := Prefix(W, key, i);
    forall k | k in Sub(W, S + {key}, i, c) ensures k == key {
      if k != key { InPref(W, S, k, i); }
    }
    if i + 1 < W {
      forall d | d in Pref(W, S, i + 1) ensures d / 2 != c {
        var k :| k in S && Prefix(W, k, i + 1) == d;
        PrefixParent(W, k, i);
        InPref(W, S, k, i);
      }
      assert (2 * c) / 2 == c && (2 * c + 1) / 2 == c;
    }
  }

  /** The parent of a freshly created node links the side the new id's last bit names. */
  function Link(n: Node, right: bool): (r: Node)
    ensures (if right then r.right else r.left) == Child
    ensures if right then r.left == n.left else r.right == n.right
  {
    if right then Node(n.left, Child) else Node(Child, n.right)
  }

  /** Linking the new child `d` keeps its parent right once `d` counts as present. */
  lemma LinkOk(sub: set<nat>, kids: set<nat>, p: nat, n: Node, d: nat)
    requires NodeOk(sub, kids, p, n) && d / 2 == p
    ensures NodeOk(sub, kids + {d}, p, Link(n, d % 2 == 1))
  {
  }

  // The node updates of erase

  /** The key's predecessor is the greatest key left below a node whose remaining keys all
      lie below the removed key. */
  lemma PredIsMax(W: nat, S: set<nat>, key: nat, i: nat, l: nat, x: nat)
    requires i <= W && key in S && IsPred(S, key, l)
    requires x in Sub(W, S - {key}, i, Prefix(W, key, i))
    requires forall y :: y in Sub(W, S - {key}, i, Prefix(W, key, i)) ==> y < key
    ensures IsMax(Sub(W, S - {key}, i, Prefix(W, key, i)), l)
  {
    assert !InGap(l, key, x);
    PrefixBetween(W, x, l, key, i);
    assert l in Sub(W, S - {key}, i, Prefix(W, key, i));
    forall y | y in Sub(W, S - {key}, i, Prefix(W, key, i)) ensures y <= l {
      assert !InGap(l, key, y);
    }
  }

  /** The key's successor is the least key left above a node whose remaining keys all lie
      above the removed key. */
  lemma SuccIsMin(W: nat, S: set<nat>, key: nat, i: nat, r: nat, x: nat)
    requires i <= W && key in S && IsSucc(S, key, r)
    requires x in Sub(W, S - {key}, i, Prefix(W, key, i))
    requires forall y :: y in Sub(W, S - {key}, i, Prefix(W, key, i)) ==> y > key
    ensures IsMin(Sub(W, S - {key}, i, Prefix(W, key, i)), r)
  {
    assert !InGap(key, r, x);
    PrefixBetween(W, key, r, x, i);
    assert r in Sub(W, S - {key}, i, Prefix(W, key, i));
    forall y | y in Sub(W, S - {key}, i, Prefix(W, key, i)) ensures r <= y {
      assert !InGap(key, r, y);
    }
  }

  /** After the removal, the child away from the removed key keeps its presence. */
  lemma OtherChild(W: nat, S: set<nat>, key: nat, i: nat, o: nat)
    requires i < W && o != Prefix(W, key, i + 1)
    ensures o in Below(W, S, i) <==> o in Below(W, S - {key}, i)
  {
    if i + 1 < W {
      PrefOther(W, S, S - {key}, key, i + 1, o);
    }
  }

  /** All remaining keys of the node lie on the side of child `o` when the removed key's own
      child `d` has no key left. */
  lemma OneSide(W: nat, S: set<nat>, key: nat, i: nat, y: nat)
    requires i < W && Prefix(W, key, i + 1) !in Pref(W, S - {key}, i + 1)
    requires y in Sub(W, S - {key}, i, Prefix(W, key, i))
    ensures Prefix(W, y, i + 1) == 2 * Prefix(W, key, i) + 1 - Prefix(W, key, i + 1) % 2
    ensures Prefix(W, key, i + 1) % 2 == 1 ==> y < key
    ensures Prefix(W, key, i + 1) % 2 == 0 ==> y > key
  {
    PrefixParent(W, key, i);
    SubChildren(W, S - {key}, i, Prefix(W, key, i), y);
    InPref(W, S - {key}, y, i + 1);
    if Prefix(W, key, i + 1) % 2 == 1 {
      PrefixOrder(W, y, key, i + 1);
    } else {
      PrefixOrder(W, key, y, i + 1);
    }
  }

  /** Removing the last key of a right child: the node survives iff its left side still holds
      a key, and then its right slot jumps to the removed key's predecessor. */
  lemma KeepFromRight(W: nat, S: set<nat>, key: nat, i: nat, n: Node, l: nat)
    requires i < W && key in S && IsPred(S, key, l)
    requires NodeOk(Sub(W, S, i, Prefix(W, key, i)), Below(W, S, i), Prefix(W, key, i), n)
    requires Prefix(W, key, i + 1) !in Pref(W, S - {key}, i + 1) && Prefix(W, key, i + 1) % 2 == 1
    requires n.left.Child? || (i == W - 1 && n.left.leaf != key)
    ensures Prefix(W, key, i) in Pref(W, S - {key}, i)
    ensures NodeOk(Sub(W, S - {key}, i, Prefix(W, key, i)), Below(W, S - {key}, i), Prefix(W, key, i),
                   Node(n.left, Jump(l)))
  {
    var c, d, S' := Prefix(W, key, i), Prefix(W, key, i + 1), S - {key};
    PrefixParent(W, key, i);
    var x;
    if n.left.Child? {
      var k :| k in S && Prefix(W, k, i + 1) == 2 * c;
      PrefixParent(W, k, i);
      x := k;
    } else {
      x := n.left.leaf;
    }
    assert x in Sub(W, S', i, c);
    forall y | y in Sub(W, S', i, c) ensures y < key { OneSide(W, S, key, i, y); }
    PredIsMax(W, S, key, i, l, x);
    OtherChild(W, S, key, i, 2 * c);
  }

  /** ... and otherwise no key is left below it. */
  lemma DropFromRight(W: nat, S: set<nat>, key: nat, i: nat, n: Node)
    requires i < W && key in S
    requires NodeOk(Sub(W, S, i, Prefix(W, key, i)), Below(W, S, i), Prefix(W, key, i), n)
    requires Prefix(W, key, i + 1) !in Pref(W, S - {key}, i + 1) && Prefix(W, key, i + 1) % 2 == 1
    requires !(n.left.Child? || (i == W - 1 && n.left.leaf != key))
    ensures Prefix(W, key, i) !in Pref(W, S - {key}, i)
  {
    var c, j := Prefix(W, key, i), i + 1;
    forall y | y in Sub(W, S - {key}, i, c) ensures false {
      OneSide(W, S, key, i, y);
      if j < W {
        InPref(W, S, y, j);
      } else {
        InPref(W, S, y, i);
      }
    }
    PrefSub(W, S - {key}, i, c);
  }

  /** Removing the last key of a left child: the node survives iff its right side still holds
      a key, and then its left slot jumps to the removed key's successor. */
  lemma KeepFromLeft(W: nat, S: set<nat>, key: nat, i: nat, n: Node, r: nat)
    requires i < W && key in S && IsSucc(S, key, r)
    requires NodeOk(Sub(W, S, i, Prefix(W, key, i)), Below(W, S, i), Prefix(W, key, i), n)
    requires Prefix(W, key, i + 1) !in Pref(W, S - {key}, i + 1) && Prefix(W, key, i + 1) % 2 == 0
    requires n.right.Child? || (i == W - 1 && n.right.leaf != key)
    ensures Prefix(W, key, i) in Pref(W, S - {key}, i)
    ensures NodeOk(Sub(W, S - {key}, i, Prefix(W, key, i)), Below(W, S - {key}, i), Prefix(W, key, i),
                   Node(Jump(r), n.right))
  {
    var c, d, S' := Prefix(W, key, i), Prefix(W, key, i + 1), S - {key};
    PrefixParent(W, key, i);
    var x;
    if n.right.Child? {
      var k :| k in S && Prefix(W, k, i + 1) == 2 * c + 1;
      PrefixParent(W, k, i);
      x := k;
    } else {
      x := n.right.leaf;
    }
    assert x in Sub(W, S', i, c);
    forall y | y in Sub(W, S', i, c) ensures y > key { OneSide(W, S, key, i, y); }
    SuccIsMin(W, S, key, i, r, x);
    OtherChild(W, S, key, i, 2 * c + 1);
  }

  lemma DropFromLeft(W: nat, S: set<nat>, key: nat, i: nat, n: Node)
    requires i < W && key in S
    requires NodeOk(Sub(W, S, i, Prefix(W, key, i)), Below(W, S, i), Prefix(W, key, i), n)
    requires Prefix(W, key, i + 1) !in Pref(W, S - {key}, i + 1) && Prefix(W, key, i + 1) % 2 == 0
    requires !(n.right.Child? || (i == W - 1 && n.right.leaf != key))
    ensures Prefix(W, key, i) !in Pref(W, S - {key}, i)
  {
    var c, j := Prefix(W, key, i), i + 1;
    forall y | y in Sub(W, S - {key}, i, c) ensures false {
      OneSide(W, S, key, i, y);
      if j < W {
        InPref(W, S, y, j);
      } else {
        InPref(W, S, y, i);
      }
    }
    PrefSub(W, S - {key}, i, c);
  }

  /** Above the first surviving level the removed key's own child survives, so only a jump
      slot that named the removed key moves, to its successor on the left or its predecessor
      on the right. */
  function Join(n: Node, key: nat, l: nat, r: nat): (j: Node)
    ensures j.left.Child? <==> n.left.Child?
    ensures j.right.Child? <==> n.right.Child?
    ensures j.left != n.left ==> n.left == Jump(key) && j.left == Jump(r)
    ensures j.right != n.right ==> n.right == Jump(key) && j.right == Jump(l)
  {
    if n.left == Jump(key) then Node(Jump(r), n.right)
    else if n.right == Jump(key) then Node(n.left, Jump(l))
    else n
  }

  /** Removing a key shrinks every subtree to the keys left. */
  lemma SubShrinks(W: nat, S: set<nat>, key: nat, i: nat, c: nat)
    requires i <= W
    ensures Sub(W, S - {key}, i, c) == Sub(W, S, i, c) - {key}
  {
  }

  /** The join step when the removed key lies in the right child. */
  lemma JoinFromRight(W: nat, S: set<nat>, key: nat, i: nat, n: Node, l: nat, r: nat, y: nat)
    requires i + 1 < W && key in S && IsSucc(S, key, r)
    requires NodeOk(Sub(W, S, i, Prefix(W, key, i)), Below(W, S, i), Prefix(W, key, i), n)
    requires Prefix(W, key, i + 1) % 2 == 1 && Prefix(W, key, i + 1) in Below(W, S, i)
    requires Prefix(W, key, i + 1) in Below(W, S - {key}, i)
    requires y in Sub(W, S - {key}, i, Prefix(W, key, i))
    ensures NodeOk(Sub(W, S - {key}, i, Prefix(W, key, i)), Below(W, S - {key}, i), Prefix(W, key, i),
                   Join(n, key, l, r))
  {
    var c, S' := Prefix(W, key, i), S - {key};
    PrefixParent(W, key, i);
    OtherChild(W, S, key, i, 2 * c);
    assert n.right == Child && Join(n, key, l, r).right == Child;
    SubShrinks(W, S, key, i, c);
    if n.left == Jump(key) {
      forall z | z in Sub(W, S', i, c) ensures z > key { assert z in Sub(W, S, i, c); }
      SuccIsMin(W, S, key, i, r, y);
      assert LeftOk(Sub(W, S', i, c), 2 * c in Below(W, S', i), Jump(r));
    } else {
      assert Join(n, key, l, r) == n;
      assert LeftOk(Sub(W, S', i, c), 2 * c in Below(W, S', i), n.left);
    }
  }

  /** The join step when the removed key lies in the left child. */
  lemma JoinFromLeft(W: nat, S: set<nat>, key: nat, i: nat, n: Node, l: nat, r: nat, y: nat)
    requires i + 1 < W && key in S && IsPred(S, key, l)
    requires NodeOk(Sub(W, S, i, Prefix(W, key, i)), Below(W, S, i), Prefix(W, key, i), n)
    requires Prefix(W, key, i + 1) % 2 == 0 && Prefix(W, key, i + 1) in Below(W, S, i)
    requires Prefix(W, key, i + 1) in Below(W, S - {key}, i)
    requires y in Sub(W, S - {key}, i, Prefix(W, key, i))
    ensures NodeOk(Sub(W, S - {key}, i, Prefix(W, key, i)), Below(W, S - {key}, i), Prefix(W, key, i),
                   Join(n, key, l, r))
  {
    var c, S' := Prefix(W, key, i), S - {key};
    PrefixParent(W, key, i);
    OtherChild(W, S, key, i, 2 * c + 1);
    assert n.left == Child && Join(n, key, l, r).left == Child;
    SubShrinks(W, S, key, i, c);
    if n.right == Jump(key) {
      forall z | z in Sub(W, S', i, c) ensures z < key { assert z in Sub(W, S, i, c); }
      PredIsMax(W, S, key, i, l, y);
      assert RightOk(Sub(W, S', i, c), 2 * c + 1 in Below(W, S', i), Jump(l));
    } else {
      assert Join(n, key, l, r) == n;
      assert RightOk(Sub(W, S', i, c), 2 * c + 1 in Below(W, S', i), n.right);
    }
  }

  lemma JoinOk(W: nat, S: set<nat>, key: nat, i: nat, n: Node, l: nat, r: nat)
    requires i + 1 < W && key in S && IsPred(S, key, l) && IsSucc(S, key, r)
    requires NodeOk(Sub(W, S, i, Prefix(W, key, i)), Below(W, S, i), Prefix(W, key, i), n)
    requires Prefix(W, key, i + 1) in Pref(W, S - {key}, i + 1)
    ensures Prefix(W, key, i) in Pref(W, S - {key}, i)
    ensures NodeOk(Sub(W, S - {key}, i, Prefix(W, key, i)), Below(W, S - {key}, i), Prefix(W, key, i),
                   Join(n, key, l, r))
  {
    var d, S' := Prefix(W, key, i + 1), S - {key};
    var y :| y in S' && Prefix(W, y, i + 1) == d;
    PrefixAgree(W, y, key, i, i + 1);
    InPref(W, S', y, i);
    InPref(W, S, key, i + 1);
    if d % 2 == 1 {
      JoinFromRight(W, S, key, i, n, l, r, y);
    } else {
      JoinFromLeft(W, S, key, i, n, l, r, y);
    }
  }

  /** The step as the source writes it: any node whose left slot did not name the removed key
      gets its right slot overwritten, a child link included. */
  function JoinAsWritten(n: Node, key: nat, l: nat, r: nat): (j: Node)
    ensures j.left.Child? <==> n.left.Child?
    ensures n.left != Jump(key) ==> j.right == Jump(l)
  {
    if n.left == Jump(key) then Node(Jump(r), n.right) else Node(n.left, Jump(l))
  }

  /** With 2-bit keys {0, 1, 2, 3}, removing 0 turns the root's right child link into a jump
      to 3, though keys 2 and 3 still lie below that child. */
  lemma JoinAsWrittenBreaks(n: Node)
    requires NodeOk(Sub(2, {0, 1, 2, 3}, 0, 0), Below(2, {0, 1, 2, 3}, 0), 0, n)
    ensures IsPred({0, 1, 2, 3}, 0, 3) && IsSucc({0, 1, 2, 3}, 0, 1)
    ensures Prefix(2, 0, 1) in Pref(2, {1, 2, 3}, 1)
    ensures JoinAsWritten(n, 0, 3, 1) == Node(Child, Jump(3))
    ensures !NodeOk(Sub(2, {1, 2, 3}, 0, 0), Below(2, {1, 2, 3}, 0), 0, JoinAsWritten(n, 0, 3, 1))
  {
    FourKeysNeighbours();
    TwoBitChildren({0, 1, 2, 3}, 0, 2);
    TwoBitChildren({1, 2, 3}, 1, 2);
    assert n == Node(Child, Child);
  }

  /** In {0, 1, 2, 3}, 3 precedes 0 cyclically and 1 follows it. */
  lemma FourKeysNeighbours()
    ensures IsPred({0, 1, 2, 3}, 0, 3) && IsSucc({0, 1, 2, 3}, 0, 1)
  {
  }

  /** A 2-bit key set holding some `a < 2` and some `2 <= b < 4` has both children under the
      root, and the 1-bit prefix of `a` is 0. */
  lemma TwoBitChildren(S: set<nat>, a: nat, b: nat)
    requires a in S && b in S && a < 2 && 2 <= b < 4
    ensures Prefix(2, a, 1) == 0 && 0 in Below(2, S, 0) && 1 in Below(2, S, 0)
  {
    TwoBitPrefix(a);
    TwoBitPrefix(b);
    InPref(2, S, a, 1);
    InPref(2, S, b, 1);
  }

  /** With 2-bit keys, the 1-bit prefix is the key without its last bit. */
  lemma TwoBitPrefix(k: nat)
    ensures Prefix(2, k, 1) == k / 2
  {
    assert Pow2(1) == 2;
  }

  // The greatest key below a given one, seen from the deepest node on its path

  /** A node's greatest key, when it lies below `key` and the node is on `key`'s path, is the
      greatest key of the whole set below `key`: nothing lies between the two. */
  lemma MaxOfSubIsLower(W: nat, S: set<nat>, key: nat, d: nat, mx: nat)
    requires d <= W && IsMax(Sub(W, S, d, Prefix(W, key, d)), mx) && mx < key
    ensures IsLower(S, key, Some(mx))
  {
    forall x | x in S && mx <= x <= key ensures x in Sub(W, S, d, Prefix(W, key, d)) {
      PrefixBetween(W, mx, x, key, d);
    }
  }

  /** A node's least key, when it is not below `key` and the node is on `key`'s path, is the
      least key of the whole set not below `key`. */
  lemma MinOfSubIsLeastAbove(W: nat, S: set<nat>, key: nat, d: nat, mn: nat)
    requires d <= W && IsMin(Sub(W, S, d, Prefix(W, key, d)), mn) && key <= mn
    ensures forall x :: x in S && key <= x ==> mn <= x
  {
    forall x | x in S && key <= x <= mn ensures x in Sub(W, S, d, Prefix(W, key, d)) {
      PrefixBetween(W, key, x, mn, d);
    }
  }

  /** A bottom-level node holds at most two keys; when its greatest is `key`, its least one,
      if below `key`, is the greatest key of the set below `key`. */
  lemma MinOfPairIsLower(W: nat, S: set<nat>, key: nat, mn: nat)
    requires W >= 1 && key in S && forall k :: k in S ==> k < Pow2(W)
    requires IsMin(Sub(W, S, W - 1, Prefix(W, key, W - 1)), mn) && mn < key
    ensures IsLower(S, key, Some(mn))
  {
    var c := Prefix(W, key, W - 1);
    PrefixEnds(W, key);
    PrefFull(W, S - {key});
    assert mn in Sub(W, S - {key}, W - 1, c);
    OneSide(W, S, key, W - 1, mn);
    PrefixEnds(W, mn);
    forall x | x in S && mn <= x <= key ensures x in Sub(W, S, W - 1, c) {
      PrefixBetween(W, mn, x, key, W - 1);
    }
    forall x | x in S && x != key && Prefix(W, x, W - 1) == c ensures x == mn {
      assert x in Sub(W, S - {key}, W - 1, c);
      OneSide(W, S, key, W - 1, x);
      PrefixEnds(W, x);
    }
  }
}
