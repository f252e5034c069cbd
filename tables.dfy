/** The per-level hash tables as a whole: the invariant they keep for a key set, and the
    intermediate states the insert and erase walks pass through, one level at a time. */
module Tables {
  import opened Bits
  import opened Order
  import opened Levels

  /** All `W` levels are right for the keys `S`. */
  ghost predicate TablesOk(W: nat, S: set<nat>, table: seq<map<nat, Node>>) {
    && |table| == W
    && forall i {:trigger LevelOk(W, S, i, table[i], Below(W, S, i))} :: 0 <= i < W ==> LevelOk(W, S, i, table[i], Below(W, S, i))
  }

  /** Insert walk: the levels above `m` already describe `S2`, the others still `S`. A level's
      child set is taken from the key set of the level below it. */
  ghost predicate Staged(W: nat, S: set<nat>, S2: set<nat>, table: seq<map<nat, Node>>, m: nat) {
    && |table| == W
    && forall j {:trigger StageOk(W, S, S2, table[j], j, m)} :: 0 <= j < W ==> StageOk(W, S, S2, table[j], j, m)
  }

  ghost predicate StageOk(W: nat, S: set<nat>, S2: set<nat>, t: map<nat, Node>, j: nat, m: nat)
    requires j < W
  {
    LevelOk(W, if j < m then S2 else S, j, t, Below(W, if j + 1 < m then S2 else S, j))
  }

  /** Before the walk: an empty trie gets its root node for `key` first. */
  lemma StagedStart(W: nat, S: set<nat>, key: nat, table: seq<map<nat, Node>>)
    requires W >= 1 && TablesOk(W, S, table) && key < Pow2(W) && key !in S
    ensures S != {} ==> Staged(W, S, S + {key}, table, 0)
    ensures S == {} ==> Staged(W, S, S + {key}, table[0 := table[0][0 := Node(Jump(key), Jump(key))]], 1)
  {
    if S == {} {
      PrefixEnds(W, key);
      assert Pref(W, S, 0) == {};
      FreshNodeOk(W, S, key, 0);
      PrefAdd(W, S, key, 0);
      assert LevelOk(W, S, 0, table[0], Below(W, S, 0));
      LiftUpdate(W, S, S + {key}, Below(W, S, 0), Below(W, S, 0), key, 0, table[0], Node(Jump(key), Jump(key)));
      var t := table[0 := table[0][0 := Node(Jump(key), Jump(key))]];
      forall j | 0 <= j < W ensures StageOk(W, S, S + {key}, t[j], j, 1) {
        if j > 0 {
          assert t[j] == table[j];
          assert LevelOk(W, S, j, table[j], Below(W, S, j));
        }
      }
    } else {
      forall j | 0 <= j < W ensures StageOk(W, S, S + {key}, table[j], j, 0) {
        assert LevelOk(W, S, j, table[j], Below(W, S, j));
      }
    }
  }

  /** During the walk the root node is present. */
  lemma StagedRoot(W: nat, S: set<nat>, key: nat, table: seq<map<nat, Node>>, m: nat)
    requires 0 < W && key < Pow2(W) && forall k :: k in S ==> k < Pow2(W)
    requires m == 0 ==> S != {}
    requires Staged(W, S, S + {key}, table, m)
    ensures Prefix(W, key, 0) in table[0]
  {
    PrefixEnds(W, key);
    assert StageOk(W, S, S + {key}, table[0], 0, m);
    if m > 0 {
      InPref(W, S + {key}, key, 0);
    } else {
      var k :| k in S;
      PrefixEnds(W, k);
      InPref(W, S, k, 0);
    }
  }

  /** The root of a trie that was empty already holds the new key. */
  lemma StagedRetargetRoot(W: nat, S: set<nat>, key: nat, table: seq<map<nat, Node>>)
    requires 0 < W && S == {} && Staged(W, S, S + {key}, table, 1)
    requires Prefix(W, key, 0) in table[0]
    ensures var c := Prefix(W, key, 0);
            var t: map<nat, Node> := table[0][c := Retarget(table[0][c], key)];
            table[0 := t] == table
  {
    var c := Prefix(W, key, 0);
    var t := table[0];
    assert StageOk(W, S, S + {key}, t, 0, 1);
    InPref(W, S + {key}, key, 0);
    RetargetPresent(Sub(W, S + {key}, 0, c), Below(W, S, 0), c, t[c], key);
    assert t[c := Retarget(t[c], key)] == t;
  }

  /** A node already present for `key`'s prefix is retargeted to `key` where `key` is a new
      least or greatest key below it. */
  lemma StagedRetarget(W: nat, S: set<nat>, key: nat, table: seq<map<nat, Node>>, i: nat, m: nat)
    requires i < W && key !in S
    requires m == i || (i == 0 && m == 1 && S == {})
    requires Staged(W, S, S + {key}, table, m)
    requires Prefix(W, key, i) in table[i]
    ensures var c := Prefix(W, key, i);
            var t: map<nat, Node> := table[i][c := Retarget(table[i][c], key)];
            Staged(W, S, S + {key}, table[i := t], i + 1)
  {
    if m == 1 && i == 0 && S == {} {
      StagedRetargetRoot(W, S, key, table);
    } else {
      StagedRetargetAt(W, S, key, table, i);
    }
  }

  lemma StagedRetargetAt(W: nat, S: set<nat>, key: nat, table: seq<map<nat, Node>>, i: nat)
    requires i < W && key !in S
    requires Staged(W, S, S + {key}, table, i)
    requires Prefix(W, key, i) in table[i]
    ensures var c := Prefix(W, key, i);
            var t: map<nat, Node> := table[i][c := Retarget(table[i][c], key)];
            Staged(W, S, S + {key}, table[i := t], i + 1)
  {
    var S2, c := S + {key}, Prefix(W, key, i);
    var t := table[i];
    var n := t[c];
    var table' := table[i := t[c := Retarget(n, key)]];
    assert StageOk(W, S, S2, t, i, i);
    PrefSub(W, S, i, c);
    RetargetOk(Sub(W, S, i, c), Below(W, S, i), c, n, key);
    PrefAdd(W, S, key, i);
    LiftUpdate(W, S, S2, Below(W, S, i), Below(W, S, i), key, i, t, Retarget(n, key));
    if i > 0 {
      PrefAdd(W, S, key, i);
      assert Below(W, S2, i - 1) == Below(W, S, i - 1);
    }
    forall j | 0 <= j < W ensures StageOk(W, S, S2, table'[j], j, i + 1) {
      if j == i {
      } else if j + 1 == i {
        assert StageOk(W, S, S2, table[j], j, i);
      } else {
        assert table'[j] == table[j];
        assert StageOk(W, S, S2, table[j], j, i);
      }
    }
  }

  /** A missing node for `key`'s prefix at level `i > 0` is created pointing to `key` both
      ways, and its parent at level `i - 1` gets a child link on the side of `key`. */
  lemma StagedFresh(W: nat, S: set<nat>, key: nat, table: seq<map<nat, Node>>, i: nat)
    requires 0 < i < W && key !in S
    requires Staged(W, S, S + {key}, table, i)
    requires Prefix(W, key, i) !in table[i]
    ensures var c, p := Prefix(W, key, i), Prefix(W, key, i - 1);
            var t: map<nat, Node> := table[i][c := Node(Jump(key), Jump(key))];
            var t2 := table[i := t];
            p in t2[i - 1] &&
            var u: map<nat, Node> := t2[i - 1][p := Link(t2[i - 1][p], c % 2 == 1)];
            Staged(W, S, S + {key}, t2[i - 1 := u], i + 1)
  {
    var S2, c, p := S + {key}, Prefix(W, key, i), Prefix(W, key, i - 1);
    var leafNode := Node(Jump(key), Jump(key));
    assert StageOk(W, S, S2, table[i], i, i);
    assert StageOk(W, S, S2, table[i - 1], i - 1, i);
    FreshLevel(W, S, key, table[i], i);
    LinkedLevel(W, S, key, table[i - 1], i);
    var t2 := table[i := table[i][c := leafNode]];
    var u := t2[i - 1];
    assert u == table[i - 1];
    var t3 := t2[i - 1 := u[p := Link(u[p], c % 2 == 1)]];
    forall j | 0 <= j < W ensures StageOk(W, S, S2, t3[j], j, i + 1) {
      if j != i && j != i - 1 {
        assert t3[j] == table[j];
        assert StageOk(W, S, S2, table[j], j, i);
      }
    }
  }

  /** The level where `key`'s prefix is new gains the node jumping to `key` both ways; the
      level below still describes the old keys. */
  lemma FreshLevel(W: nat, S: set<nat>, key: nat, t: map<nat, Node>, i: nat)
    requires i < W && key !in S && Prefix(W, key, i) !in t
    requires LevelOk(W, S, i, t, Below(W, S, i))
    ensures var t': map<nat, Node> := t[Prefix(W, key, i) := Node(Jump(key), Jump(key))];
            LevelOk(W, S + {key}, i, t', Below(W, S, i))
  {
    FreshNodeOk(W, S, key, i);
    PrefAdd(W, S, key, i);
    LiftUpdate(W, S, S + {key}, Below(W, S, i), Below(W, S, i), key, i, t, Node(Jump(key), Jump(key)));
  }

  /** The parent of a fresh node, already describing the new keys, links it as a child. */
  lemma LinkedLevel(W: nat, S: set<nat>, key: nat, u: map<nat, Node>, i: nat)
    requires 0 < i < W && key !in S && Prefix(W, key, i) !in Pref(W, S, i)
    requires LevelOk(W, S + {key}, i - 1, u, Below(W, S, i - 1))
    ensures Prefix(W, key, i - 1) in u
    ensures var c, p := Prefix(W, key, i), Prefix(W, key, i - 1);
            var u': map<nat, Node> := u[p := Link(u[p], c % 2 == 1)];
            LevelOk(W, S + {key}, i - 1, u', Below(W, S + {key}, i - 1))
  {
    var S2, c, p := S + {key}, Prefix(W, key, i), Prefix(W, key, i - 1);
    InPref(W, S2, key, i - 1);
    PrefixParent(W, key, i - 1);
    LinkOk(Sub(W, S2, i - 1, p), Below(W, S, i - 1), p, u[p], c);
    PrefAdd(W, S, key, i);
    assert Below(W, S2, i - 1) == Below(W, S, i - 1) + {c};
    LiftUpdate(W, S2, S2, Below(W, S, i - 1), Below(W, S2, i - 1), key, i - 1, u, Link(u[p], c % 2 == 1));
  }

  /** After the walk every level describes the new key set. */
  lemma StagedDone(W: nat, S: set<nat>, S2: set<nat>, table: seq<map<nat, Node>>, m: nat)
    requires W <= m && Staged(W, S, S2, table, m)
    ensures TablesOk(W, S2, table)
  {
    forall j | 0 <= j < W ensures LevelOk(W, S2, j, table[j], Below(W, S2, j)) {
      assert StageOk(W, S, S2, table[j], j, m);
    }
  }

  /** Erase walk, going up from the leaves: levels above `i` describe `S2`, the others `S`. */
  ghost predicate Unstaged(W: nat, S: set<nat>, S2: set<nat>, table: seq<map<nat, Node>>, i: int) {
    && |table| == W
    && forall j {:trigger UnstageOk(W, S, S2, table[j], j, i)} :: 0 <= j < W ==> UnstageOk(W, S, S2, table[j], j, i)
  }

  ghost predicate UnstageOk(W: nat, S: set<nat>, S2: set<nat>, t: map<nat, Node>, j: nat, i: int)
    requires j < W
  {
    LevelOk(W, if j <= i then S else S2, j, t, Below(W, if j <= i then S else S2, j))
  }

  /** Replacing level `i` by one that describes `S2` moves the walk up one level. */
  lemma UnstagedStep(W: nat, S: set<nat>, S2: set<nat>, table: seq<map<nat, Node>>, i: nat, t: map<nat, Node>)
    requires i < W && Unstaged(W, S, S2, table, i)
    requires LevelOk(W, S2, i, t, Below(W, S2, i))
    ensures Unstaged(W, S, S2, table[i := t], i - 1)
  {
    var table' := table[i := t];
    forall j | 0 <= j < W ensures UnstageOk(W, S, S2, table'[j], j, i - 1) {
      if j != i {
        assert table'[j] == table[j];
        assert UnstageOk(W, S, S2, table[j], j, i);
      }
    }
  }

  /** The level the erase walk is about to change still describes the old keys. */
  lemma UnstagedAt(W: nat, S: set<nat>, S2: set<nat>, table: seq<map<nat, Node>>, i: nat)
    requires i < W && Unstaged(W, S, S2, table, i)
    ensures LevelOk(W, S, i, table[i], Below(W, S, i))
  {
    assert UnstageOk(W, S, S2, table[i], i, i);
  }

  lemma UnstagedDone(W: nat, S: set<nat>, S2: set<nat>, table: seq<map<nat, Node>>)
    requires Unstaged(W, S, S2, table, -1)
    ensures TablesOk(W, S2, table)
  {
    forall j | 0 <= j < W ensures LevelOk(W, S2, j, table[j], Below(W, S2, j)) {
      assert UnstageOk(W, S, S2, table[j], j, -1);
    }
  }

  lemma UnstagedStart(W: nat, S: set<nat>, S2: set<nat>, table: seq<map<nat, Node>>)
    requires W >= 1 && TablesOk(W, S, table)
    ensures Unstaged(W, S, S2, table, W - 1)
  {
    forall j | 0 <= j < W ensures UnstageOk(W, S, S2, table[j], j, W - 1) {
      assert LevelOk(W, S, j, table[j], Below(W, S, j));
    }
  }

  /** Before the erase walk every level describes the old keys, and the removed key, a
      full-width prefix of itself, is gone from the new key set. */
  lemma UnstagedBegin(W: nat, S: set<nat>, key: nat, table: seq<map<nat, Node>>)
    requires W >= 1 && key in S && TablesOk(W, S, table)
    requires forall k :: k in S ==> k < Pow2(W)
    ensures Unstaged(W, S, S - {key}, table, W - 1)
    ensures Prefix(W, key, W) !in Pref(W, S - {key}, W)
  {
    PrefixEnds(W, key);
    PrefFull(W, S - {key});
    UnstagedStart(W, S, S - {key}, table);
  }

  // One level of the erase walk, for each way the source handles it

  /** The removed key was alone in the right child, the left side keeps keys: the right
      slot becomes a jump to the key's predecessor `l`. */
  lemma EraseKeepRight(W: nat, S: set<nat>, key: nat, table: seq<map<nat, Node>>, i: nat, l: nat)
    requires i < W && key in S && IsPred(S, key, l) && Unstaged(W, S, S - {key}, table, i)
    requires Prefix(W, key, i + 1) !in Pref(W, S - {key}, i + 1) && Prefix(W, key, i + 1) % 2 == 1
    requires Prefix(W, key, i) in table[i]
    requires var n := table[i][Prefix(W, key, i)]; n.left.Child? || (i == W - 1 && n.left.leaf != key)
    ensures var c := Prefix(W, key, i);
            var t: map<nat, Node> := table[i][c := Node(table[i][c].left, Jump(l))];
            Prefix(W, key, i) in Pref(W, S - {key}, i) && Unstaged(W, S, S - {key}, table[i := t], i - 1)
  {
    var S', c, t := S - {key}, Prefix(W, key, i), table[i];
    UnstagedAt(W, S, S', table, i);
    BelowOther(W, S, S', key, i);
    KeepFromRight(W, S, key, i, t[c], l);
    LiftUpdate(W, S, S', Below(W, S, i), Below(W, S', i), key, i, t, Node(t[c].left, Jump(l)));
    UnstagedStep(W, S, S', table, i, t[c := Node(t[c].left, Jump(l))]);
  }

  /** The removed key was alone in the left child, the right side keeps keys: the left
      slot becomes a jump to the key's successor `r`. */
  lemma EraseKeepLeft(W: nat, S: set<nat>, key: nat, table: seq<map<nat, Node>>, i: nat, r: nat)
    requires i < W && key in S && IsSucc(S, key, r) && Unstaged(W, S, S - {key}, table, i)
    requires Prefix(W, key, i + 1) !in Pref(W, S - {key}, i + 1) && Prefix(W, key, i + 1) % 2 == 0
    requires Prefix(W, key, i) in table[i]
    requires var n := table[i][Prefix(W, key, i)]; n.right.Child? || (i == W - 1 && n.right.leaf != key)
    ensures var c := Prefix(W, key, i);
            var t: map<nat, Node> := table[i][c := Node(Jump(r), table[i][c].right)];
            Prefix(W, key, i) in Pref(W, S - {key}, i) && Unstaged(W, S, S - {key}, table[i := t], i - 1)
  {
    var S', c, t := S - {key}, Prefix(W, key, i), table[i];
    UnstagedAt(W, S, S', table, i);
    BelowOther(W, S, S', key, i);
    KeepFromLeft(W, S, key, i, t[c], r);
    LiftUpdate(W, S, S', Below(W, S, i), Below(W, S', i), key, i, t, Node(Jump(r), t[c].right));
    UnstagedStep(W, S, S', table, i, t[c := Node(Jump(r), t[c].right)]);
  }

  /** The node served the removed key alone: it is dropped. */
  lemma EraseDrop(W: nat, S: set<nat>, key: nat, table: seq<map<nat, Node>>, i: nat)
    requires i < W && key in S && Unstaged(W, S, S - {key}, table, i)
    requires Prefix(W, key, i + 1) !in Pref(W, S - {key}, i + 1)
    requires Prefix(W, key, i) in table[i]
    requires var n := table[i][Prefix(W, key, i)];
             if Prefix(W, key, i + 1) % 2 == 1 then !(n.left.Child? || (i == W - 1 && n.left.leaf != key))
             else !(n.right.Child? || (i == W - 1 && n.right.leaf != key))
    ensures Prefix(W, key, i) !in Pref(W, S - {key}, i)
    ensures Unstaged(W, S, S - {key}, table[i := table[i] - {Prefix(W, key, i)}], i - 1)
  {
    var S', c, t := S - {key}, Prefix(W, key, i), table[i];
    UnstagedAt(W, S, S', table, i);
    InPref(W, S, key, i);
    BelowOther(W, S, S', key, i);
    if Prefix(W, key, i + 1) % 2 == 1 {
      DropFromRight(W, S, key, i, t[c]);
    } else {
      DropFromLeft(W, S, key, i, t[c]);
    }
    LiftRemove(W, S, S', Below(W, S, i), Below(W, S', i), key, i, t);
    UnstagedStep(W, S, S', table, i, t - {c});
  }

  /** Above the first surviving level only a jump naming the removed key moves. */
  lemma EraseJoin(W: nat, S: set<nat>, key: nat, table: seq<map<nat, Node>>, i: nat, l: nat, r: nat)
    requires i < W && key in S && IsPred(S, key, l) && IsSucc(S, key, r)
    requires Unstaged(W, S, S - {key}, table, i)
    requires Prefix(W, key, i + 1) in Pref(W, S - {key}, i + 1)
    ensures Prefix(W, key, i) in table[i] && Prefix(W, key, i) in Pref(W, S - {key}, i)
    ensures var c := Prefix(W, key, i);
            var t: map<nat, Node> := table[i][c := Join(table[i][c], key, l, r)];
            Unstaged(W, S, S - {key}, table[i := t], i - 1)
  {
    var S', c, t := S - {key}, Prefix(W, key, i), table[i];
    UnstagedAt(W, S, S', table, i);
    InPref(W, S, key, i);
    BelowOther(W, S, S', key, i);
    if i + 1 == W {
      assert false;
    }
    JoinOk(W, S, key, i, t[c], l, r);
    LiftUpdate(W, S, S', Below(W, S, i), Below(W, S', i), key, i, t, Join(t[c], key, l, r));
    UnstagedStep(W, S, S', table, i, t[c := Join(t[c], key, l, r)]);
  }

  /** Each level holds exactly the prefixes of the keys: at least one node per key and level,
      no node without a key beneath it, and the bottom level points only at leaves. */
  lemma {:induction false} TablesReachKeys(W: nat, S: set<nat>, table: seq<map<nat, Node>>, k: nat, i: nat)
    requires TablesOk(W, S, table) && k in S && i < W
    ensures Prefix(W, k, i) in table[i]
    ensures |table[i]| <= |S|
  {
    InPref(W, S, k, i);
    assert LevelOk(W, S, i, table[i], Below(W, S, i));
    PrefCard(W, S, i);
  }

  /** There are no more prefixes than keys. */
  lemma {:induction false} PrefCard(W: nat, S: set<nat>, i: nat)
    requires i <= W
    ensures |Pref(W, S, i)| <= |S|
  {
    if S != {} {
      var k :| k in S;
      PrefCard(W, S - {k}, i);
      assert Pref(W, S, i) <= Pref(W, S - {k}, i) + {Prefix(W, k, i)} by {
        forall q | q in Pref(W, S, i) ensures q in Pref(W, S - {k}, i) + {Prefix(W, k, i)} {
          var x :| x in S && Prefix(W, x, i) == q;
          if x != k { InPref(W, S - {k}, x, i); }
        }
      }
      SubsetCard(Pref(W, S, i), Pref(W, S - {k}, i) + {Prefix(W, k, i)});
    }
  }

  /** The bottom level never holds a child link: its slots name leaves of the key set. */
  lemma BottomSlots(W: nat, S: set<nat>, table: seq<map<nat, Node>>, p: nat)
    requires W >= 1 && TablesOk(W, S, table) && p in table[W - 1]
    ensures table[W - 1][p].left.Jump? && table[W - 1][p].left.leaf in S
    ensures table[W - 1][p].right.Jump? && table[W - 1][p].right.leaf in S
  {
    assert LevelOk(W, S, W - 1, table[W - 1], Below(W, S, W - 1));
  }

  /** The tables are determined by the key set. */
  lemma TablesUnique(W: nat, S: set<nat>, t1: seq<map<nat, Node>>, t2: seq<map<nat, Node>>)
    requires TablesOk(W, S, t1) && TablesOk(W, S, t2)
    ensures t1 == t2
  {
    forall i | 0 <= i < W ensures t1[i] == t2[i] {
      assert LevelOk(W, S, i, t1[i], Below(W, S, i));
      assert LevelOk(W, S, i, t2[i], Below(W, S, i));
      forall p | p in t1[i] ensures t1[i][p] == t2[i][p] {
        NodeUnique(Sub(W, S, i, p), Below(W, S, i), p, t1[i][p], t2[i][p]);
      }
    }
  }

  /** Jumps name keys of the set; child links name nodes present one level down. */
  lemma SlotTargets(W: nat, S: set<nat>, table: seq<map<nat, Node>>, d: nat, p: nat)
    requires TablesOk(W, S, table) && d < W && p in table[d]
    ensures table[d][p].left.Jump? ==> table[d][p].left.leaf in S
    ensures table[d][p].right.Jump? ==> table[d][p].right.leaf in S
    ensures table[d][p].left.Child? ==> d + 1 < W && 2 * p in table[d + 1]
    ensures table[d][p].right.Child? ==> d + 1 < W && 2 * p + 1 in table[d + 1]
  {
    assert LevelOk(W, S, d, table[d], Below(W, S, d));
    if d + 1 < W {
      assert LevelOk(W, S, d + 1, table[d + 1], Below(W, S, d + 1));
    }
  }

  /** Along a key's path the present levels come first: the ancestors of a present node are
      present and the descendants of a missing one are missing. */
  lemma PathPresence(W: nat, S: set<nat>, table: seq<map<nat, Node>>, key: nat, j: nat)
    requires TablesOk(W, S, table) && j < W
    ensures Prefix(W, key, j) in table[j] ==> forall i :: 0 <= i <= j ==> Prefix(W, key, i) in table[i]
    ensures Prefix(W, key, j) !in table[j] ==> forall i :: j <= i < W ==> Prefix(W, key, i) !in table[i]
  {
    assert LevelOk(W, S, j, table[j], Below(W, S, j));
    forall i | 0 <= i < W ensures Prefix(W, key, i) in table[i] <==> Prefix(W, key, i) in Pref(W, S, i) {
      assert LevelOk(W, S, i, table[i], Below(W, S, i));
    }
    forall i | 0 <= i <= j && Prefix(W, key, j) in table[j] ensures Prefix(W, key, i) in table[i] {
      AncestorPresent(W, S, key, i, j);
    }
    forall i | j <= i < W && Prefix(W, key, j) !in table[j] ensures Prefix(W, key, i) !in table[i] {
      if Prefix(W, key, i) in table[i] { AncestorPresent(W, S, key, j, i); }
    }
  }

  /** What the test harness's structural check demands of the tables, for every present key
      and level: the key's prefix has its node, every jump names a present key, the bottom
      level holds only jumps, and a level has one node per distinct prefix. */
  lemma {:induction false} HarnessInvariant(W: nat, S: set<nat>, table: seq<map<nat, Node>>, k: nat, i: nat)
    requires TablesOk(W, S, table) && k in S && i < W
    ensures Prefix(W, k, i) in table[i]
    ensures var n := table[i][Prefix(W, k, i)];
            && (n.left.Jump? ==> n.left.leaf in S) && (n.right.Jump? ==> n.right.leaf in S)
            && (i == W - 1 ==> n.left.Jump? && n.right.Jump?)
    ensures |table[i]| == |Pref(W, S, i)|
  {
    TablesReachKeys(W, S, table, k, i);
    SlotTargets(W, S, table, i, Prefix(W, k, i));
    assert LevelOk(W, S, i, table[i], Below(W, S, i));
    assert |table[i]| == |table[i].Keys|;
  }

  /** Insert creates exactly the entries for prefixes no key but the new one has, and leaves
      every level with an entry for the new key's prefix. */
  lemma {:induction false} InsertedEntries(W: nat, S: set<nat>, key: nat, t1: seq<map<nat, Node>>,
                                           t2: seq<map<nat, Node>>, i: nat, p: nat)
    requires TablesOk(W, S, t1) && TablesOk(W, S + {key}, t2) && i < W && key !in S
    ensures Prefix(W, key, i) in t2[i]
    ensures p in t1[i] ==> p in t2[i]
    ensures p in t2[i] && p !in t1[i] <==> Sub(W, S + {key}, i, p) == {key}
  {
    assert LevelOk(W, S, i, t1[i], Below(W, S, i));
    assert LevelOk(W, S + {key}, i, t2[i], Below(W, S + {key}, i));
    InPref(W, S + {key}, key, i);
    PrefSub(W, S, i, p);
    PrefSub(W, S + {key}, i, p);
    SubShrinks(W, S + {key}, key, i, p);
    assert S + {key} - {key} == S;
    if p in t1[i] {
      var x :| x in Sub(W, S, i, p);
      assert x in Sub(W, S + {key}, i, p);
    }
  }

  /** Erase deletes exactly the entries whose subtree held the removed key alone. */
  lemma {:induction false} ErasedEntries(W: nat, S: set<nat>, key: nat, t1: seq<map<nat, Node>>,
                                         t2: seq<map<nat, Node>>, i: nat, p: nat)
    requires TablesOk(W, S, t1) && TablesOk(W, S - {key}, t2) && i < W && key in S
    ensures p in t2[i] ==> p in t1[i]
    ensures p in t1[i] && p !in t2[i] <==> Sub(W, S, i, p) == {key}
  {
    assert LevelOk(W, S, i, t1[i], Below(W, S, i));
    assert LevelOk(W, S - {key}, i, t2[i], Below(W, S - {key}, i));
    PrefSub(W, S, i, p);
    PrefSub(W, S - {key}, i, p);
    SubShrinks(W, S, key, i, p);
    if p in t2[i] {
      var x :| x in Sub(W, S - {key}, i, p);
      assert x in Sub(W, S, i, p);
    }
  }
}
