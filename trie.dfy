/** The X-fast trie over `W`-bit keys: `W` levels of hash tables keyed by key prefixes, and
    the leaves, one per key, on a circular doubly linked list in ascending order. */
module XFastTrie {
  import opened Bits
  import opened Options
  import opened Order
  import opened LeafList
  import opened Levels
  import opened Tables

  /** An iterator: the list head it was made with, and the leaf it stands on (none at the end). */
  datatype Iter = Iter(listHead: Option<nat>, node: Option<nat>)

  /** The outcome of `at`: the value, or the out-of-range error for a missing key. */
  datatype Lookup<T> = Found(value: T) | OutOfRange

  class Trie<V> {
    /** The key width. */
    const W: nat
    /** One table per level; level `i` maps the `i`-bit prefixes of the keys to their nodes. */
    const table: array<map<nat, Node>>
    var count: nat
    var version: nat
    /** The leaf list: its head and each leaf's right and left links, leaves named by key. */
    var head: Option<nat>
    var next: map<nat, nat>
    var prev: map<nat, nat>
    /** The leaf records: the value stored with each key. */
    var values: map<nat, V>

    ghost predicate Valid()
      reads this, table
    {
      && W >= 1
      && table.Length == W
      && count == |values|
      && (forall k :: k in values ==> k < Pow2(W))
      && ListOk(values.Keys, next, prev, head)
      && TablesOk(W, values.Keys, table[..])
    }

    /** An empty trie: no leaves and `W` empty tables. */
    constructor (width: nat)
      requires width >= 1
      ensures Valid() && W == width && fresh(table)
      ensures values == map[] && count == 0 && version == 0 && head == None
      ensures forall i :: 0 <= i < W ==> table[i] == map[]
    {
      W := width;
      table := new map<nat, Node>[width](_ => map[]);
      count, version := 0, 0;
      head := None;
      next, prev := map[], map[];
      values := map[];
      new;
      forall i | 0 <= i < W ensures LevelOk(W, {}, i, table[..][i], Below(W, {}, i)) {
        assert Pref(W, {}, i) == {};
      }
    }

    /** `b` is the deepest level holding a node on `key`'s path, none when not even the root
        holds one. Along a path the present levels come first. */
    ghost predicate IsBottom(key: nat, b: Option<nat>)
      reads this, table
      requires table.Length == W
    {
      match b
      case None => forall j :: 0 <= j < W ==> Prefix(W, key, j) !in table[j]
      case Some(d) => d < W && forall j :: 0 <= j < W ==> (Prefix(W, key, j) in table[j] <==> j <= d)
    }

    /** Binary search over the levels for the deepest node on `key`'s path. */
    method Bottom(key: nat) returns (b: Option<nat>)
      requires Valid()
      ensures IsBottom(key, b)
      ensures key in values ==> b == Some(W - 1)
      ensures key < Pow2(W) ==> (b.None? <==> values == map[])
    {
      var l, h := 0, W;
      b := None;
      while l < h
        invariant 0 <= l <= h <= W
        invariant forall j :: 0 <= j < l ==> Prefix(W, key, j) in table[j]
        invariant forall j :: h <= j < W ==> Prefix(W, key, j) !in table[j]
        invariant b == if l == 0 then None else Some(l - 1)
        decreases h - l
      {
        var j := (l + h) / 2;
        var ancestor := Shr(Shr(key, W - 1 - j), 1);
        SourcePrefix(W, key, j);
        PathPresence(W, values.Keys, table[..], key, j);
        if ancestor in table[j] {
          l := j + 1;
          b := Some(j);
        } else {
          h := j;
        }
      }
      if key in values {
        if l < W {
          TablesReachKeys(W, values.Keys, table[..], key, l);
          assert false;
        }
      }
      if key < Pow2(W) {
        PrefixEnds(W, key);
        if values != map[] {
          var k :| k in values;
          PrefixEnds(W, k);
          TablesReachKeys(W, values.Keys, table[..], k, 0);
        } else {
          assert LevelOk(W, values.Keys, 0, table[..][0], Below(W, values.Keys, 0));
        }
      }
    }

    /** The three probes for the greatest key below `key`, starting from the deepest node on
        its path: that node's right jump, its left jump, and the leaf reached from its left
        slot by one more left step. */
    function LowerNodeFromBottom(b: Option<nat>, key: nat): (r: Option<nat>)
      reads this, table
      requires Valid() && IsBottom(key, b)
      ensures r.Some? ==> r.value in values && r.value < key
    {
      match b
      case None => None
      case Some(d) =>
        var p := Prefix(W, key, d);
        SlotTargets(W, values.Keys, table[..], d, p);
        var n := table[d][p];
        if n.right.Jump? && n.right.leaf < key then Some(n.right.leaf)
        else if n.left.Jump? && n.left.leaf < key then Some(n.left.leaf)
        else match n.left
          case Jump(m) =>
            assert PrevOk(values.Keys, prev, m);
            if prev[m] < key then Some(prev[m]) else None
          case Child =>
            SlotTargets(W, values.Keys, table[..], d + 1, 2 * p);
            var c := table[d + 1][2 * p];
            if c.left.Jump? && c.left.leaf < key then Some(c.left.leaf) else None
    }

    /** The probes find the greatest key below `key`, or report that there is none. */
    lemma PredecessorFromBottom(key: nat, b: Option<nat>)
      requires Valid() && IsBottom(key, b) && key < Pow2(W)
      ensures IsLower(values.Keys, key, LowerNodeFromBottom(b, key))
    {
      var S := values.Keys;
      PrefixEnds(W, key);
      match b
      case None =>
        if S != {} {
          var k :| k in S;
          PrefixEnds(W, k);
          TablesReachKeys(W, S, table[..], k, 0);
          assert false;
        }
      case Some(d) =>
        var p, c := Prefix(W, key, d), Prefix(W, key, d + 1);
        var n := table[d][p];
        var sub := Sub(W, S, d, p);
        assert LevelOk(W, S, d, table[..][d], Below(W, S, d));
        assert NodeOk(sub, Below(W, S, d), p, n);
        PrefixParent(W, key, d);
        assert c !in Below(W, S, d) && c !in Pref(W, S - {key}, d + 1) by {
          if d + 1 < W {
            assert LevelOk(W, S, d + 1, table[..][d + 1], Below(W, S, d + 1));
            assert Pref(W, S - {key}, d + 1) <= Pref(W, S, d + 1);
          } else {
            PrefFull(W, S - {key});
          }
        }
        forall y | y in sub && y != key
          ensures (c % 2 == 1 ==> y < key) && (c % 2 == 0 ==> y > key)
        {
          OneSide(W, S, key, d, y);
        }
        if c % 2 == 1 {
          LowerOnRight(key, d);
        } else {
          LowerOnLeft(key, d);
        }
    }

    /** The probes when `key` branches right below its deepest node. */
    lemma LowerOnRight(key: nat, d: nat)
      requires Valid() && IsBottom(key, Some(d)) && key < Pow2(W)
      requires Prefix(W, key, d + 1) % 2 == 1
      requires Prefix(W, key, d + 1) == 2 * Prefix(W, key, d) + 1
      requires NodeOk(Sub(W, values.Keys, d, Prefix(W, key, d)), Below(W, values.Keys, d), Prefix(W, key, d),
                      table[d][Prefix(W, key, d)])
      requires Prefix(W, key, d + 1) !in Below(W, values.Keys, d)
      requires forall y :: y in Sub(W, values.Keys, d, Prefix(W, key, d)) && y != key ==> y < key
      ensures IsLower(values.Keys, key, LowerNodeFromBottom(Some(d), key))
    {
      var S, p := values.Keys, Prefix(W, key, d);
      var n, sub := table[d][p], Sub(W, S, d, p);
      var mx := n.right.leaf;
      assert IsMax(sub, mx);
      if mx < key {
        MaxOfSubIsLower(W, S, key, d, mx);
      } else {
        assert mx == key && key in S;
        TablesReachKeys(W, S, table[..], key, W - 1);
        assert d == W - 1;
        var mn := n.left.leaf;
        assert IsMin(sub, mn);
        if mn < key {
          MinOfPairIsLower(W, S, key, mn);
        } else {
          assert PrevOk(S, prev, key);
          LowerFromPred(S, key, key, prev[key]);
        }
      }
    }

    /** The probes when `key` branches left below its deepest node. */
    lemma LowerOnLeft(key: nat, d: nat)
      requires Valid() && IsBottom(key, Some(d)) && key < Pow2(W)
      requires Prefix(W, key, d + 1) % 2 == 0
      requires Prefix(W, key, d + 1) == 2 * Prefix(W, key, d)
      requires NodeOk(Sub(W, values.Keys, d, Prefix(W, key, d)), Below(W, values.Keys, d), Prefix(W, key, d),
                      table[d][Prefix(W, key, d)])
      requires Prefix(W, key, d + 1) !in Below(W, values.Keys, d)
      requires forall y :: y in Sub(W, values.Keys, d, Prefix(W, key, d)) && y != key ==> y > key
      ensures IsLower(values.Keys, key, LowerNodeFromBottom(Some(d), key))
    {
      var S, p := values.Keys, Prefix(W, key, d);
      var n, sub := table[d][p], Sub(W, S, d, p);
      var mn := n.left.leaf;
      assert IsMin(sub, mn);
      assert !(n.right.Jump? && n.right.leaf < key);
      MinOfSubIsLeastAbove(W, S, key, d, mn);
      assert PrevOk(S, prev, mn);
      LowerFromPred(S, key, mn, prev[mn]);
    }

    /** The bottom level's node for `key >> 1` names `key` on the side of its last bit. */
    function Find(key: nat): (it: Iter)
      reads this, table
      requires Valid()
      ensures it.listHead == head
      ensures it.node.Some? <==> key in values
      ensures it.node.Some? ==> it.node.value == key
    {
      var t := table[W - 1];
      var id := Shr(key, 1);
      FindAtBottom(key);
      if id in t then
        var n := t[id];
        if key % 2 == 1 then
          (if n.right.Jump? && n.right.leaf == key then Iter(head, Some(key)) else End())
        else
          (if n.left.Jump? && n.left.leaf == key then Iter(head, Some(key)) else End())
      else End()
    }

    /** A key is in the trie exactly when the bottom node for `key >> 1` names it on the side
        of its last bit. */
    lemma FindAtBottom(key: nat)
      requires Valid()
      ensures key in values ==> Shr(key, 1) in table[W - 1]
      ensures Shr(key, 1) in table[W - 1] ==>
        var n := table[W - 1][Shr(key, 1)];
        key in values <==>
          if key % 2 == 1 then n.right.Jump? && n.right.leaf == key else n.left.Jump? && n.left.leaf == key
    {
      var S, id := values.Keys, Shr(key, 1);
      assert Prefix(W, key, W - 1) == id;
      assert LevelOk(W, S, W - 1, table[..][W - 1], Below(W, S, W - 1));
      if key in S {
        InPref(W, S, key, W - 1);
      }
      if id in table[W - 1] {
        var sub := Sub(W, S, W - 1, id);
        forall x | x in sub ensures x / 2 == id { assert Prefix(W, x, W - 1) == Shr(x, 1); }
        assert key in S ==> key in sub;
      }
    }

    /** The value stored with `key`, or the out-of-range error when it is missing. */
    function At(key: nat): (r: Lookup<V>)
      reads this, table
      requires Valid()
      ensures r.Found? <==> key in values
      ensures r.Found? ==> r.value == values[key]
    {
      var it := Find(key);
      if it.node.Some? then Found(values[it.node.value]) else OutOfRange
    }

    /** Links `leaf` into the leaf list right after `marker`, or in front of the head when
        there is no marker. */
    method InsertLeafAfter(marker: Option<nat>, leaf: nat, ghost s: set<nat>)
      requires ListOk(s, next, prev, head) && leaf !in s
      requires marker.None? ==> forall x :: x in s ==> leaf < x
      requires marker.Some? ==> marker.value in s && marker.value < leaf
      requires marker.Some? ==> forall x :: x in s ==> !InGap(marker.value, leaf, x)
      modifies this`next, this`prev, this`head
      ensures ListOk(s + {leaf}, next, prev, head)
      ensures marker.None? ==> head == Some(leaf)
      ensures marker.Some? ==> head == old(head)
      ensures marker.Some? ==>
        && next == old(next)[marker.value := leaf][leaf := old(next)[marker.value]]
        && prev == old(prev)[leaf := marker.value][old(next)[marker.value] := leaf]
    {
      match marker {
        case None =>
          if head.None? {
            head := Some(leaf);
            prev := prev[leaf := leaf];
            next := next[leaf := leaf];
            assert next == map[leaf := leaf] && prev == map[leaf := leaf];
            LinkOnly(leaf);
          } else {
            var h := head.value;
            assert PrevOk(s, prev, h);
            var last := prev[h];
            LastLinksToHead(s, h, last);
            assert NextOk(s, next, last);
            SuccUnique(s, last, h, next[last]);
            LinkAfter(s, next, prev, last, leaf);
            next := next[last := leaf];
            prev := prev[leaf := last];
            next := next[leaf := h];
            prev := prev[h := leaf];
            head := Some(leaf);
          }
        case Some(m) =>
          assert NextOk(s, next, m);
          LinkAfter(s, next, prev, m, leaf);
          var rightNode := next[m];
          next := next[m := leaf];
          prev := prev[leaf := m];
          next := next[leaf := rightNode];
          prev := prev[rightNode := leaf];
      }
    }

    /** The left neighbour of the head is the greatest key, and its follower is the head. */
    static lemma LastLinksToHead(s: set<nat>, h: nat, last: nat)
      requires IsMin(s, h) && IsPred(s, h, last)
      ensures IsMax(s, last) && IsSucc(s, last, h)
    {
      assert !InGap(last, h, last);
    }

    /** Adds `key` with `value` unless it is present; answers where `key` stands and whether
        it was added. */
    method Insert(key: nat, value: V) returns (it: Iter, inserted: bool)
      requires Valid() && key < Pow2(W)
      modifies this, table
      ensures Valid()
      ensures inserted <==> key !in old(values)
      ensures it == Iter(head, Some(key))
      ensures values == if inserted then old(values)[key := value] else old(values)
      ensures count == old(count) + (if inserted then 1 else 0)
      ensures version == old(version) + (if inserted then 1 else 0)
      ensures !inserted ==> head == old(head) && next == old(next) && prev == old(prev) && table[..] == old(table[..])
      ensures inserted && old(head).Some? && key < old(head).value ==> head == Some(key)
      ensures inserted && old(head).Some? && old(head).value < key ==> head == old(head)
    {
      ghost var S := values.Keys;
      var bottom, predecessor, predRight := InsertionPoint(key);
      if predRight.Some? && predRight.value == key {
        return Iter(head, predRight), false;
      }
      InsertNew(key, value, bottom.None?, predecessor);
      it, inserted := Iter(head, Some(key)), true;
    }

    /** The mutating half of insert, for a key not yet present: the counters go up, a leaf is
        linked in after `predecessor` (or in front, without one) and the levels take the key. */
    method InsertNew(key: nat, value: V, rootMissing: bool, predecessor: Option<nat>)
      requires Valid() && key < Pow2(W) && key !in values
      requires IsLower(values.Keys, key, predecessor) && (rootMissing <==> values == map[])
      modifies this, table
      ensures Valid()
      ensures values == old(values)[key := value]
      ensures count == old(count) + 1 && version == old(version) + 1
      ensures predecessor.None? ==> head == Some(key)
      ensures predecessor.Some? ==> head == old(head)
    {
      ghost var vs, S := values, values.Keys;
      count, version := count + 1, version + 1;
      SpliceAfterLower(S, key, predecessor);
      InsertLeafAfter(predecessor, key, S);
      values := values[key := value];
      InsertLevels(key, rootMissing, S);
      NewLeafValid(vs, key, value);
    }

    /** With the leaf linked in and the levels updated, the trie is whole again. */
    lemma NewLeafValid(vs: map<nat, V>, key: nat, value: V)
      requires W >= 1 && table.Length == W && key !in vs && key < Pow2(W)
      requires values == vs[key := value] && count == |vs| + 1
      requires forall k :: k in vs ==> k < Pow2(W)
      requires ListOk(vs.Keys + {key}, next, prev, head) && TablesOk(W, vs.Keys + {key}, table[..])
      ensures Valid()
    {
      assert values.Keys == vs.Keys + {key};
    }

    /** The search half of insert: the deepest node on `key`'s path, the greatest key below
        `key` found from it, and the leaf that follows that key on the list (the head when
        no key is below), which holds `key` exactly when `key` is present. */
    method InsertionPoint(key: nat) returns (bottom: Option<nat>, predecessor: Option<nat>, predRight: Option<nat>)
      requires Valid() && key < Pow2(W)
      ensures bottom.None? <==> values == map[]
      ensures IsLower(values.Keys, key, predecessor)
      ensures predRight.Some? && predRight.value == key <==> key in values
      ensures (exists k :: k in values && key <= k) ==> predRight.Some? && IsCeil(values.Keys, key, predRight.value)
      ensures key !in values && head.Some? && key < head.value ==> predecessor.None?
      ensures key !in values && head.Some? && head.value < key ==> predecessor.Some?
    {
      bottom := Bottom(key);
      predecessor := LowerNodeFromBottom(bottom, key);
      PredecessorFromBottom(key, bottom);
      FollowerOfLower(values.Keys, next, prev, head, key, predecessor);
      predRight := if predecessor.Some? then Some(next[predecessor.value]) else head;
    }

    /** The greatest key below `key` is the place to link `key` in after; with none, `key`
        goes in front of every key. */
    static lemma SpliceAfterLower(S: set<nat>, key: nat, r: Option<nat>)
      requires IsLower(S, key, r) && key !in S
      ensures r.None? ==> forall x :: x in S ==> key < x
      ensures r.Some? ==> r.value in S && r.value < key && forall x :: x in S ==> !InGap(r.value, key, x)
    {
    }

    /** The level walk of insert, from the root down: each level either already holds a node
        for `key`'s prefix, which may take `key` as a new jump target, or gets a fresh node
        jumping to `key` both ways, linked as a child into the node one level up. When the
        trie was empty the root node is created first. */
    method InsertLevels(key: nat, rootMissing: bool, ghost S: set<nat>)
      requires W >= 1 && table.Length == W && key < Pow2(W) && key !in S
      requires forall k :: k in S ==> k < Pow2(W)
      requires TablesOk(W, S, table[..]) && (rootMissing <==> S == {})
      modifies table
      ensures TablesOk(W, S + {key}, table[..])
    {
      StagedStart(W, S, key, table[..]);
      if rootMissing {
        table[0] := table[0][0 := Node(Jump(key), Jump(key))];
      }
      ghost var first := if S == {} then 1 else 0;
      var oldNode: Option<nat> := None;
      var i := 0;
      while i < W
        invariant 0 <= i <= W
        invariant oldNode == if i == 0 then None else Some(Prefix(W, key, i - 1))
        invariant Staged(W, S, S + {key}, table[..], if i < first then first else i)
      {
        var id := Shr(Shr(key, W - 1 - i), 1);
        SourcePrefix(W, key, i);
        StagedRoot(W, S, key, table[..], if i < first then first else i);
        if id in table[i] {
          StagedRetarget(W, S, key, table[..], i, if i < first then first else i);
          table[i] := table[i][id := Retarget(table[i][id], key)];
        } else if oldNode.Some? {
          StagedFresh(W, S, key, table[..], i);
          table[i] := table[i][id := Node(Jump(key), Jump(key))];
          table[i - 1] := table[i - 1][oldNode.value := Link(table[i - 1][oldNode.value], id % 2 == 1)];
        } else {
          assert false;
        }
        oldNode := Some(id);
        i := i + 1;
      }
      StagedDone(W, S, S + {key}, table[..], W);
    }

    /** `operator[]`: the value stored with `key`, after storing `fallback` (the value type's
        default) with it when it was missing. */
    method Subscript(key: nat, fallback: V) returns (v: V)
      requires Valid() && key < Pow2(W)
      modifies this, table
      ensures Valid()
      ensures v == if key in old(values) then old(values)[key] else fallback
      ensures values == old(values)[key := v]
      ensures key !in old(values) ==> count == old(count) + 1 && version == old(version) + 1
      ensures key in old(values) ==> count == old(count) && version == old(version) && head == old(head)
                                     && next == old(next) && prev == old(prev) && table[..] == old(table[..])
    {
      var r := At(key);
      if r.Found? {
        v := r.value;
      } else {
        var it, _ := Insert(key, fallback);
        v := values[it.node.value];
      }
    }

    /** Assignment through the reference `at` and `operator[]` return: the leaf of `key`
        now holds `v`; no link, table entry or counter moves. */
    method Set(key: nat, v: V)
      requires Valid() && key in values
      modifies this`values
      ensures Valid()
      ensures values == old(values)[key := v]
      ensures At(key) == Found(v)
      ensures forall k :: k != key ==> At(k) == old(At(k))
    {
      values := values[key := v];
      assert values.Keys == old(values).Keys;
    }

    /** Removes the leaf `pos` stands on: unlinks it from the leaf list and, level by level
        from the bottom, drops the nodes left without keys and redirects jumps to it. */
    method Erase(pos: Iter) returns (it: Iter)
      requires Valid() && pos.node.Some? && pos.node.value in values
      modifies this, table
      ensures Valid()
      ensures values == old(values) - {pos.node.value}
      ensures count == old(count) - 1 && version == old(version) + 1
      ensures old(values).Keys == {pos.node.value} ==> head == None
      ensures old(values).Keys != {pos.node.value} && old(head) == pos.node ==> head == Some(old(next)[pos.node.value])
      ensures old(head) != pos.node ==> head == old(head)
      ensures it == Iter(head, Some(old(next)[pos.node.value]))
    {
      var leaf := pos.node.value;
      ghost var S := values.Keys;
      var left, right := Unsplice(leaf, S);
      values := values - {leaf};
      assert values.Keys == S - {leaf};
      EraseLevels(leaf, left, right, S);
      count := count - 1;
      version := version + 1;
      it := Iter(head, Some(right));
    }

    /** Unlinks `leaf` from the leaf list: its neighbours are joined, the list empties when
        it was the only leaf, and the head moves on when it was the head. */
    method Unsplice(leaf: nat, ghost s: set<nat>) returns (left: nat, right: nat)
      requires ListOk(s, next, prev, head) && leaf in s
      modifies this`next, this`prev, this`head
      ensures ListOk(s - {leaf}, next, prev, head)
      ensures IsPred(s, leaf, left) && IsSucc(s, leaf, right)
      ensures right == old(next)[leaf] && left == old(prev)[leaf]
      ensures s == {leaf} ==> head == None
      ensures s != {leaf} && old(head) == Some(leaf) ==> head == Some(right)
      ensures old(head) != Some(leaf) ==> head == old(head)
    {
      assert NextOk(s, next, leaf) && PrevOk(s, prev, leaf);
      right, left := next[leaf], prev[leaf];
      Unlink(s, next, prev, head, leaf);
      if right == leaf {
        head := None;
      } else {
        next := next[left := right];
        prev := prev[right := left];
        if head == Some(leaf) {
          head := Some(right);
        }
      }
      next, prev := next - {leaf}, prev - {leaf};
    }

    /** The level walk of erase, from the bottom up. While `single` holds, the node on the
        removed key's path served that key alone on its side: it is dropped when its other
        side is empty too, and otherwise its side turns into a jump to the removed key's
        neighbour on that side, ending the phase. Above that level, only a jump slot that
        named the removed key is redirected. */
    method EraseLevels(key: nat, left: nat, right: nat, ghost S: set<nat>)
      requires W >= 1 && table.Length == W && key in S
      requires forall k :: k in S ==> k < Pow2(W)
      requires IsPred(S, key, left) && IsSucc(S, key, right)
      requires TablesOk(W, S, table[..])
      modifies table
      ensures TablesOk(W, S - {key}, table[..])
    {
      UnstagedBegin(W, S, key, table[..]);
      var single := true;
      var i: int := W - 1;
      while i >= 0
        invariant -1 <= i < W
        invariant Unstaged(W, S, S - {key}, table[..], i)
        invariant single <==> Prefix(W, key, i + 1) !in Pref(W, S - {key}, i + 1)
      {
        single := EraseLevel(key, left, right, S, i, single);
        assert Unstaged(W, S, S - {key}, table[..], i - 1);
        i := i - 1;
      }
      UnstagedDone(W, S, S - {key}, table[..]);
    }

    /** One level of the erase walk: level `i` is brought from the old key set to the new one,
        and the answer says whether the removed key's path is still unshared above it. */
    method EraseLevel(key: nat, left: nat, right: nat, ghost S: set<nat>, i: nat, single: bool)
      returns (single': bool)
      requires i < W && table.Length == W && key in S
      requires IsPred(S, key, left) && IsSucc(S, key, right)
      requires Unstaged(W, S, S - {key}, table[..], i)
      requires single <==> Prefix(W, key, i + 1) !in Pref(W, S - {key}, i + 1)
      modifies table
      ensures Unstaged(W, S, S - {key}, table[..], i - 1)
      ensures single' <==> Prefix(W, key, i) !in Pref(W, S - {key}, i)
    {
      var id := Shr(Shr(key, W - 1 - i), 1);
      var isFromRight := Shr(key, W - 1 - i) % 2 == 1;
      SourcePrefix(W, key, i);
      ghost var before := table[..];
      UnstagedAt(W, S, S - {key}, before, i);
      InPref(W, S, key, i);
      var current := table[i][id];
      single' := single;
      if single {
        if isFromRight && (current.left.Child? || (i == W - 1 && current.left.leaf != key)) {
          EraseKeepRight(W, S, key, before, i, left);
          table[i] := table[i][id := Node(current.left, Jump(left))];
          single' := false;
        } else if !isFromRight && (current.right.Child? || (i == W - 1 && current.right.leaf != key)) {
          EraseKeepLeft(W, S, key, before, i, right);
          table[i] := table[i][id := Node(Jump(right), current.right)];
          single' := false;
        } else {
          EraseDrop(W, S, key, before, i);
          table[i] := table[i] - {id};
        }
      } else {
        EraseJoin(W, S, key, before, i, left, right);
        table[i] := table[i][id := Join(current, key, left, right)];
      }
      assert table[..] == before[i := table[i]];
    }

    /** Drops every leaf and empties every level; the modification counter restarts at 0. */
    method Clear()
      requires Valid()
      modifies this, table
      ensures Valid()
      ensures values == map[] && count == 0 && version == 0 && head == None
      ensures forall i :: 0 <= i < W ==> table[i] == map[]
    {
      ClearLevels();
      next, prev, values := map[], map[], map[];
      count := 0;
      version := 0;
      head := None;
      forall i | 0 <= i < W ensures LevelOk(W, {}, i, table[..][i], Below(W, {}, i)) {
        assert Pref(W, {}, i) == {};
      }
    }

    /** Empties each level's table. */
    method ClearLevels()
      modifies table
      ensures forall i :: 0 <= i < table.Length ==> table[i] == map[]
    {
      for i := 0 to table.Length
        invariant forall j :: 0 <= j < i ==> table[j] == map[]
      {
        table[i] := map[];
      }
    }

    /** `end()`: the position past the last leaf, equal to no position on a stored key. */
    function End(): (it: Iter)
      reads this
      ensures it.listHead == head
      ensures forall k :: k in values ==> !Same(it, Iter(head, Some(k)))
    {
      Iter(head, None)
    }

    /** `find` answers `end()` exactly for a missing key. */
    lemma FindMissIsEnd(key: nat)
      requires Valid()
      ensures Same(Find(key), End()) <==> key !in values
    {
    }

    /** Two `find` results compare equal exactly when both keys are missing or they are the
        same stored key. */
    lemma SameFind(k1: nat, k2: nat)
      requires Valid()
      ensures Same(Find(k1), Find(k2)) <==> (k1 !in values && k2 !in values) || (k1 in values && k1 == k2)
    {
    }

    /** `begin()`: the head leaf, or the end when the trie is empty. */
    function Begin(): (it: Iter)
      reads this, table
      requires Valid()
      ensures it.listHead == head
      ensures it.node.None? <==> values == map[]
      ensures it.node.Some? ==> IsMin(values.Keys, it.node.value) && Rank(values.Keys, it.node.value) == 0
    {
      if head.None? then End()
      else
        RankMin(values.Keys, head.value);
        Iter(head, head)
    }

    /** `empty()`. */
    function Empty(): (r: bool)
      reads this, table
      requires Valid()
      ensures r <==> values == map[]
    {
      count == 0
    }

    /** `size()`: the number of keys held. */
    function Size(): (r: nat)
      reads this, table
      requires Valid()
      ensures r == |values.Keys|
    {
      count
    }

    /** On a trie whose list has a head, the end marker is the only position that is not a
        leaf, so `begin() == end()` exactly when the trie is empty. */
    lemma BeginIsEnd()
      requires Valid()
      ensures Same(Begin(), End()) <==> Empty()
    {
    }

    /** `operator++`: move to the right neighbour; coming back round to the iterator's list
        head means the walk is over. On an iterator made from the current head, the step goes
        to the next greater key, one rank up, and past the greatest key to the end. */
    function Inc(it: Iter): (r: Iter)
      reads this, table
      requires Valid() && it.node.Some? && it.node.value in values
      ensures r.listHead == it.listHead
      ensures it.listHead == head ==>
        var S, k := values.Keys, it.node.value;
        && (r.node.None? <==> IsMax(S, k))
        && (r.node.Some? ==> IsSucc(S, k, r.node.value) && k < r.node.value
                             && Rank(S, r.node.value) == Rank(S, k) + 1)
    {
      var k := it.node.value;
      assert NextOk(values.Keys, next, k);
      var n := next[k];
      IncStep(k, n);
      if Some(n) == it.listHead then Iter(it.listHead, None) else Iter(it.listHead, Some(n))
    }

    lemma IncStep(k: nat, n: nat)
      requires Valid() && k in values && IsSucc(values.Keys, k, n)
      ensures Some(n) == head <==> IsMax(values.Keys, k)
      ensures Some(n) != head ==> k < n && Rank(values.Keys, n) == Rank(values.Keys, k) + 1
    {
      var S := values.Keys;
      SuccWraps(S, k, n);
      if IsMin(S, n) {
        assert n <= head.value && head.value <= n;
      }
      if !IsMax(S, k) {
        RankSucc(S, k, n);
      }
    }

    /** `operator--`: move to the left neighbour; arriving at the left neighbour of the
        iterator's list head means the walk is over. On an iterator made from the current
        head, the step goes to the next smaller key, one rank down, and from the least key to
        the end. */
    function Dec(it: Iter): (r: Iter)
      reads this, table
      requires Valid() && it.node.Some? && it.node.value in values
      requires it.listHead.Some? && it.listHead.value in values
      ensures r.listHead == it.listHead
      ensures it.listHead == head ==>
        var S, k := values.Keys, it.node.value;
        && (r.node.None? <==> IsMin(S, k))
        && (r.node.Some? ==> IsPred(S, k, r.node.value) && r.node.value < k
                             && Rank(S, r.node.value) + 1 == Rank(S, k))
    {
      var k, h := it.node.value, it.listHead.value;
      assert PrevOk(values.Keys, prev, k) && PrevOk(values.Keys, prev, h);
      var p := prev[k];
      DecStep(k, p);
      if p == prev[h] then Iter(it.listHead, None) else Iter(it.listHead, Some(p))
    }

    lemma DecStep(k: nat, p: nat)
      requires Valid() && k in values && IsPred(values.Keys, k, p)
      ensures head.Some? && head.value in prev
      ensures p == prev[head.value] <==> IsMin(values.Keys, k)
      ensures p != prev[head.value] ==> p < k && Rank(values.Keys, p) + 1 == Rank(values.Keys, k)
    {
      var S, h := values.Keys, head.value;
      assert PrevOk(S, prev, h);
      var last := prev[h];
      if p == last {
        PredIsSucc(S, k, p);
        PredIsSucc(S, h, last);
        SuccUnique(S, p, k, h);
      } else {
        PredBelow(S, k, p);
        PredIsSucc(S, k, p);
        RankSucc(S, p, k);
      }
    }

    /** A forward walk from `begin()` to `end()`, as the source's tests do it: the keys come
        out in strictly ascending order, each present key exactly once. */
    method Keys() returns (keys: seq<nat>)
      requires Valid()
      ensures |keys| == Size()
      ensures forall i, j :: 0 <= i < j < |keys| ==> keys[i] < keys[j]
      ensures forall k :: k in keys <==> k in values
    {
      keys := [];
      var it := Begin();
      while !Same(it, End())
        invariant it.listHead == head
        invariant it.node.Some? ==> it.node.value in values && Rank(values.Keys, it.node.value) == |keys|
        invariant it.node.None? ==> |keys| == |values.Keys|
        invariant forall i, j :: 0 <= i < j < |keys| ==> keys[i] < keys[j]
        invariant forall k :: k in keys ==> k in values
        invariant forall k :: k in values ==> (k in keys <==> it.node.None? || k < it.node.value)
        decreases |values.Keys| - |keys|
      {
        var k := it.node.value;
        RankBound(values.Keys, k);
        forall i | 0 <= i < |keys| ensures keys[i] < k {
          assert keys[i] in keys;
        }
        keys := keys + [k];
        it := Inc(it);
        if it.node.None? {
          RankMax(values.Keys, k);
        } else {
          forall x | x in values && x < it.node.value ensures x <= k {
            assert !InGap(k, it.node.value, x);
          }
        }
      }
    }
  }

  /** Iterator equality compares the leaves the two stand on, not the list heads they carry:
      both at the end, or both on the same key. */
  predicate Same(a: Iter, b: Iter): (r: bool)
    ensures r <==> (a.node.None? && b.node.None?) || (a.node.Some? && b.node.Some? && a.node.value == b.node.value)
    ensures a.listHead != b.listHead && a.node == b.node ==> r
  {
    a.node == b.node
  }
}
