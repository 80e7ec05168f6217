/** `pywind/clib/map.c`: a trie over fixed-length byte keys. Every node counts the stored keys
    that run through it, all nodes but the root sit on one doubly linked list, and removed
    nodes are kept in a pool. */
module TrieMap {
  import opened Bytes

  type Key = seq<Byte>

  class Node<V> {
    var tmp: Node?<V>
    var listPrev: Node?<V>
    var listNext: Node?<V>
    var treePrev: Node?<V>
    var nextNodes: map<Byte, Node<V>>
    var data: Option<V>
    var refcnt: nat
    var keyV: Byte
    var isDataNode: bool
    // the key bytes that lead from the root to this node
    ghost var path: Key

    constructor ()
      ensures tmp == null && listPrev == null && listNext == null && treePrev == null
      ensures nextNodes == map[] && data == None && refcnt == 0 && keyV == 0 && !isDataNode && path == []
    {
      tmp, listPrev, listNext, treePrev := null, null, null, null;
      nextNodes, data, refcnt, keyV, isDataNode := map[], None, 0, 0, false;
      path := [];
    }

    /** `bzero`. */
    method Clear()
      modifies this
      ensures tmp == null && listPrev == null && listNext == null && treePrev == null
      ensures nextNodes == map[] && data == None && refcnt == 0 && keyV == 0 && !isDataNode
    {
      tmp, listPrev, listNext, treePrev := null, null, null, null;
      nextNodes, data, refcnt, keyV, isDataNode := map[], None, 0, 0, false;
    }
  }

  /** The i-th node, or null outside the sequence. */
  ghost function At<V>(s: seq<Node<V>>, i: int): Node?<V> {
    if 0 <= i < |s| then s[i] else null
  }

  ghost predicate Distinct<V>(s: seq<Node<V>>) {
    forall i, j | 0 <= i < j < |s| :: s[i] != s[j]
  }

  lemma OnlyAt<V>(s: seq<Node<V>>, k: nat)
    requires Distinct(s) && k < |s|
    ensures forall i | 0 <= i < |s| && i != k :: s[i] != s[k]
  {
  }

  ghost function Up(p: Key): Key
    requires p != []
  {
    p[..|p| - 1]
  }

  ghost function Last(p: Key): Byte
    requires p != []
  {
    p[|p| - 1]
  }

  lemma SamePath(p: Key, q: Key)
    requires p != [] && q != [] && Up(p) == Up(q) && Last(p) == Last(q)
    ensures p == q
  {
    assert p == Up(p) + [Last(p)];
    assert q == Up(q) + [Last(q)];
  }

  // ---------- how many stored keys run through a path ----------

  ghost function Through(keys: set<Key>, p: Key): nat {
    |set k | k in keys && p <= k|
  }

  lemma ThroughAdd(keys: set<Key>, key: Key, p: Key)
    requires key !in keys
    ensures Through(keys + {key}, p) == Through(keys, p) + if p <= key then 1 else 0
  {
    var before := set k | k in keys && p <= k;
    var after := set k | k in keys + {key} && p <= k;
    if p <= key {
      assert after == before + {key};
    } else {
      assert after == before;
    }
  }

  lemma ThroughNone(keys: set<Key>, p: Key)
    ensures Through(keys, p) == 0 <==> forall k | k in keys :: !(p <= k)
  {
    var s := set k | k in keys && p <= k;
    if k :| k in keys && p <= k {
      assert k in s;
    } else {
      assert s == {};
    }
  }

  /** Some prefix of the key longer than j is used by no stored key and runs into p. */
  ghost predicate Dead(keys: set<Key>, key: Key, j: nat, p: Key) {
    exists i {:trigger key[..i]} | j < i <= |key| :: key[..i] <= p && Through(keys, key[..i]) == 0
  }

  lemma DeadStep(keys: set<Key>, key: Key, j: nat, p: Key)
    requires 0 < j <= |key|
    ensures Dead(keys, key, j - 1, p) <==> Dead(keys, key, j, p) || (key[..j] <= p && Through(keys, key[..j]) == 0)
  {
    if i :| j - 1 < i <= |key| && key[..i] <= p && Through(keys, key[..i]) == 0 {
      assert i == j || Dead(keys, key, j, p);
    }
  }

  /** Death spreads down the key: what runs into a dead prefix of the key and lies on the key is dead. */
  lemma DeadOnKey(keys: set<Key>, key: Key, j: nat, p: Key)
    requires 0 < j <= |key| && Through(keys, key[..j]) == 0 && key[..j] <= p <= key
    ensures p == key[..j] || Dead(keys, key, j, p)
  {
    var i := |p|;
    assert p == key[..i];
    ThroughNone(keys, key[..j]);
    ThroughNone(keys, key[..i]);
  }

  /** On nodes off the key, being cut off by its removal and being unused are the same. */
  lemma StubOrUsed(keys: set<Key>, key: Key, p: Key)
    requires Dead(keys, key, 0, p)
    ensures !(p <= key) <==> Through(keys + {key}, p) == 0
  {
    ThroughNone(keys + {key}, p);
    var i :| 0 < i <= |key| && key[..i] <= p && Through(keys, key[..i]) == 0;
    ThroughNone(keys, key[..i]);
    assert forall k | k in keys && p <= k :: key[..i] <= k;
  }

  ghost function Live<V>(paths: map<Node<V>, Key>, keys: set<Key>, key: Key, j: nat): set<Node<V>> {
    set n | n in paths && !Dead(keys, key, j, paths[n])
  }

  /** Nodes off the key that hang below a dead prefix of it. */
  ghost function Stranded<V>(paths: map<Node<V>, Key>, keys: set<Key>, key: Key, j: nat): set<Node<V>> {
    set n | n in paths && !(paths[n] <= key) && Dead(keys, key, j, paths[n])
  }

  lemma ReleaseSets<V>(paths: map<Node<V>, Key>, keys: set<Key>, key: Key, j: nat, live: set<Node<V>>)
    requires 0 < j <= |key| && live <= Live(paths, keys, key, j)
    requires forall n | n in Live(paths, keys, key, j) ::
      n in live <==> !(key[..j] <= paths[n] && Through(keys, key[..j]) == 0)
    ensures live == Live(paths, keys, key, j - 1)
    ensures Stranded(paths, keys, key, j) + (set n | n in Live(paths, keys, key, j) && n !in live
      && key[..j] != paths[n])
         == Stranded(paths, keys, key, j - 1)
  {
    forall n | n in paths
      ensures Dead(keys, key, j - 1, paths[n]) <==>
        Dead(keys, key, j, paths[n]) || (key[..j] <= paths[n] && Through(keys, key[..j]) == 0)
    {
      DeadStep(keys, key, j, paths[n]);
    }
    forall n | n in Live(paths, keys, key, j) && n !in live && paths[n] <= key
      ensures paths[n] == key[..j]
    {
      DeadOnKey(keys, key, j, paths[n]);
    }
  }

  /** How many nodes below depth n the key still lacks. */
  ghost function Missing<V>(t: map<Key, Node<V>>, key: Key, n: nat): nat
    decreases |key| - n
  {
    if n >= |key| then 0 else (if key[..n + 1] in t then 0 else 1) + Missing(t, key, n + 1)
  }

  lemma {:induction false} MissingBound<V>(t: map<Key, Node<V>>, key: Key, n: nat)
    requires n <= |key|
    ensures Missing(t, key, n) <= |key| - n
    decreases |key| - n
  {
    if n < |key| {
      MissingBound(t, key, n + 1);
    }
  }

  /** One node for each prefix of the key, from depth n on, that is not in the tree. */
  lemma {:induction false} MissingIs<V>(t: map<Key, Node<V>>, key: Key, n: nat)
    requires n <= |key|
    ensures Missing(t, key, n) == |set i | n < i <= |key| && key[..i] !in t|
    decreases |key| - n
  {
    var all := set i | n < i <= |key| && key[..i] !in t;
    if n < |key| {
      MissingIs(t, key, n + 1);
      var rest := set i | n + 1 < i <= |key| && key[..i] !in t;
      assert all == rest + if key[..n + 1] in t then {} else {n + 1};
    } else {
      assert all == {};
    }
  }

  /** A prefix that is not dead after a deletion is still used. */
  lemma StillUsed(p: Key, key: Key, before: set<Key>, after: set<Key>)
    requires after == before - {key} && p != [] && Through(before, p) > 0 && !Dead(after, key, 0, p)
    ensures Through(after, p) > 0
  {
    ThroughNone(after, p);
    ThroughNone(before, p);
    var k :| k in before && p <= k;
    assert k != key ==> k in after;
    if k == key {
      assert key[..|p|] == p;
    }
  }

  class Map<V> {
    const length: nat
    var treeRoot: Node<V>
    var listHead: Node?<V>
    var emptyHead: Node?<V>
    var curAllocNum: nat
    var preAllocNum: nat
    var keyTotNum: nat

    ghost var Contents: map<Key, V>
    ghost var nodes: set<Node<V>>
    // the nodes reachable from the root, by path
    ghost var tree: map<Key, Node<V>>
    ghost var treeNodes: set<Node<V>>
    // the doubly linked list and the pool, from the oldest node to the head
    ghost var list: seq<Node<V>>
    ghost var pool: seq<Node<V>>
    // nodes left on the list after the tree lost the way to them
    ghost var orphans: set<Node<V>>

    // ---------- invariants ----------

    /** Paths name the tree nodes one to one, and links run both ways. */
    ghost predicate TreeShape()
      reads this`tree, this`treeRoot, this`treeNodes, treeNodes`path, treeNodes`nextNodes, treeNodes`treePrev,
        treeNodes`keyV
    {
      && treeRoot in treeNodes && treeRoot.path == []
      && (forall p | p in tree :: tree[p] in treeNodes && tree[p].path == p)
      && (forall n | n in treeNodes :: n.path in tree && tree[n.path] == n && |n.path| <= length)
      && (forall n {:trigger UpLink(n)} | n in treeNodes && n != treeRoot :: UpLink(n))
      && (forall n, v {:trigger DownLink(n, v)} | n in treeNodes && v in n.nextNodes :: DownLink(n, v))
    }

    ghost predicate UpLink(n: Node<V>)
      requires n in treeNodes
      reads this`treeNodes, treeNodes`path, treeNodes`nextNodes, treeNodes`treePrev, treeNodes`keyV
    {
      var up := n.treePrev;
      && up != null && up in treeNodes
      && n.path != [] && up.path == Up(n.path) && n.keyV == Last(n.path)
      && n.keyV in up.nextNodes && up.nextNodes[n.keyV] == n
    }

    ghost predicate DownLink(n: Node<V>, v: Byte)
      requires n in treeNodes && v in n.nextNodes
      reads this`treeNodes, this`treeRoot, treeNodes`nextNodes, treeNodes`treePrev, treeNodes`keyV
    {
      var c := n.nextNodes[v];
      c in treeNodes && c != treeRoot && c.treePrev == n && c.keyV == v
    }

    /** Every node counts the keys through it, and one more if it is in `more`. */
    ghost predicate Counted(keys: set<Key>, more: set<Node<V>>)
      reads this`treeNodes, treeNodes`refcnt, treeNodes`path
    {
      forall n | n in treeNodes :: n.refcnt == Through(keys, n.path) + if n in more then 1 else 0
    }

    /** Data sits in the full-depth nodes and nowhere else; `extra` is a key being added or removed. */
    ghost predicate Leaves(stored: map<Key, V>, extra: set<Key>)
      reads this`tree, this`treeNodes, treeNodes`data, treeNodes`isDataNode, treeNodes`path
    {
      && (forall k | k in stored :: k in tree && |k| == length)
      && (forall n | n in treeNodes && n.path in stored :: n.data == Some(stored[n.path]) && n.isDataNode)
      && (forall n | n in treeNodes && n.path !in stored && n.path !in extra :: !n.isDataNode)
      && (forall n | n in treeNodes && |n.path| == length :: n.path in stored || n.path in extra)
    }

    ghost predicate ListShape()
      reads this`list, this`listHead, list`listNext, list`listPrev
    {
      && listHead == At(list, |list| - 1)
      && (forall i {:trigger list[i].listNext} | 0 <= i < |list| :: list[i].listNext == At(list, i - 1))
      && (forall i {:trigger list[i].listPrev} | 0 <= i < |list| :: list[i].listPrev == At(list, i + 1))
      && (forall i, j | 0 <= i < j < |list| :: list[i] != list[j])
    }

    ghost predicate PoolShape()
      reads this`pool, this`emptyHead, pool`tmp, pool`listPrev, pool`listNext, pool`treePrev, pool`nextNodes,
            pool`data, pool`refcnt, pool`isDataNode, pool`keyV
    {
      && emptyHead == At(pool, |pool| - 1)
      && (forall i {:trigger pool[i].tmp} | 0 <= i < |pool| :: pool[i].tmp == At(pool, i - 1))
      && (forall n | n in pool ::
            && n.listPrev == null && n.listNext == null && n.treePrev == null
            && n.nextNodes == map[] && n.data == None && n.refcnt == 0 && n.keyV == 0 && !n.isDataNode)
      && (forall i, j | 0 <= i < j < |pool| :: pool[i] != pool[j])
    }

    /** The list holds the tree nodes below the root and, besides them, only orphans. */
    ghost predicate Placed()
      reads this`list, this`pool, this`treeNodes, this`treeRoot, this`orphans, this`nodes, this`curAllocNum
    {
      && treeNodes <= nodes && orphans <= nodes && treeNodes !! orphans
      && (forall n | n in treeNodes && n != treeRoot :: n in list)
      && (forall n | n in list :: n in nodes && n != treeRoot && (n in treeNodes || n in orphans))
      && (forall n | n in orphans :: n in list)
      && (forall n | n in pool :: n in nodes && n !in list && n !in treeNodes)
      && curAllocNum == |list| + |pool|
    }

    ghost predicate OrphansHoldNothing()
      reads this`orphans, orphans`isDataNode
    {
      forall n | n in orphans :: !n.isDataNode
    }

    ghost predicate TreeOk(keys: set<Key>, more: set<Node<V>>, stored: map<Key, V>, extra: set<Key>)
      reads this`tree, this`treeRoot, this`treeNodes, treeNodes`path, treeNodes`nextNodes, treeNodes`treePrev,
            treeNodes`keyV, treeNodes`refcnt, treeNodes`data, treeNodes`isDataNode
    {
      TreeShape() && Counted(keys, more) && Leaves(stored, extra)
    }

    ghost predicate ListsOk()
      reads this`list, this`listHead, list`listNext, list`listPrev,
            this`pool, this`emptyHead, pool`tmp, pool`listPrev, pool`listNext, pool`treePrev, pool`nextNodes,
            pool`data, pool`refcnt, pool`keyV, pool`isDataNode, this`orphans, orphans`isDataNode
    {
      ListShape() && PoolShape() && OrphansHoldNothing()
    }

    ghost predicate Core(keys: set<Key>, more: set<Node<V>>, stored: map<Key, V>, extra: set<Key>)
      reads this, nodes
    {
      && 0 < length && treeRoot in nodes && Placed()
      && TreeOk(keys, more, stored, extra) && ListsOk()
    }

    ghost predicate Valid()
      reads this, nodes
    {
      && Core(Contents.Keys, {}, Contents, {})
      && keyTotNum == |Contents|
    }

    // ---------- map_new, map_find ----------

    constructor (length: nat)
      requires 0 < length < 0x100
      ensures Valid() && fresh(nodes) && this.length == length
      ensures Contents == map[] && orphans == {} && pool == [] && tree.Keys == {[]}
    {
      var root := new Node<V>();
      this.length := length;
      treeRoot, listHead, emptyHead := root, null, null;
      curAllocNum, preAllocNum, keyTotNum := 0, 0, 0;
      Contents, nodes, tree := map[], {root}, map[[] := root];
      treeNodes, list, pool, orphans := {root}, [], [], {};
      new;
      assert Through({}, []) == 0;
    }

    method Find(key: Key) returns (data: Option<V>, isFound: bool)
      requires Valid() && |key| == length
      ensures isFound <==> key in Contents
      ensures data == if key in Contents then Some(Contents[key]) else None
    {
      hide Placed, Counted, ListShape, PoolShape;
      var node: Node?<V> := treeRoot;
      var n := 0;
      assert key[..0] == [];
      while n < length
        invariant 0 <= n <= length
        invariant node != null && key[..n] in tree && node == tree[key[..n]]
      {
        var v := key[n];
        ChildOfPath(key, n);
        if v in node.nextNodes {
          node := node.nextNodes[v];
        } else {
          return None, false;
        }
        n := n + 1;
      }
      assert key[..n] == key;
      return node.data, true;
    }

    // ---------- paths ----------

    lemma ParentLink(p: Key)
      requires TreeShape() && p in tree && p != []
      ensures Up(p) in tree && Last(p) in tree[Up(p)].nextNodes && tree[Up(p)].nextNodes[Last(p)] == tree[p]
      ensures tree[p].treePrev == tree[Up(p)] && tree[p].keyV == Last(p)
    {
      assert tree[p] != treeRoot && UpLink(tree[p]);
    }

    /** The tree is closed under prefixes. */
    lemma {:induction false} PathInTree(key: Key, n: nat)
      requires TreeShape() && key in tree && n <= |key|
      ensures key[..n] in tree
      decreases |key| - n
    {
      if n < |key| {
        PathInTree(key, n + 1);
        ParentLink(key[..n + 1]);
        assert Up(key[..n + 1]) == key[..n];
      } else {
        assert key[..n] == key;
      }
    }

    /** The children of a node on a path are exactly the longer paths of the tree. */
    lemma ChildOfPath(key: Key, n: nat)
      requires TreeShape() && n < |key| && key[..n] in tree
      ensures key[n] in tree[key[..n]].nextNodes <==> key[..n + 1] in tree
      ensures key[..n + 1] in tree ==> tree[key[..n]].nextNodes[key[n]] == tree[key[..n + 1]]
      ensures key in tree ==> key[..n + 1] in tree
    {
      var p, q := key[..n], key[..n + 1];
      assert Up(q) == p && Last(q) == key[n];
      if key in tree {
        PathInTree(key, n + 1);
      }
      if q in tree {
        ParentLink(q);
      }
      if key[n] in tree[p].nextNodes {
        assert DownLink(tree[p], key[n]);
        assert UpLink(tree[p].nextNodes[key[n]]);
        SamePath(q, tree[p].nextNodes[key[n]].path);
      }
    }

    /** Without a child for v nothing of the tree lies below p + [v]. */
    lemma NothingBelow(p: Key, v: Byte)
      requires TreeShape() && p in tree && v !in tree[p].nextNodes
      ensures p + [v] !in tree
      ensures forall k | k in tree :: !(p + [v] <= k)
    {
      var q := p + [v];
      assert Up(q) == p && Last(q) == v;
      if q in tree {
        ParentLink(q);
      }
      forall k | k in tree
        ensures !(q <= k)
      {
        if q <= k {
          assert k[..|q|] == q;
          PathInTree(k, |q|);
        }
      }
    }

    // ---------- the node pool ----------

    /** `__map_node_get`: the pool first, then the allocator, which grants `avail` more nodes. */
    method NodeGet(avail: nat) returns (node: Node?<V>, left: nat)
      requires PoolShape() && treeNodes <= nodes
      requires forall n | n in list :: n in nodes
      requires forall n | n in pool :: n in nodes && n !in list && n !in treeNodes
      modifies this`emptyHead, this`curAllocNum, this`pool, this`nodes, pool`tmp
      ensures node == null <==> |old(pool)| + avail == 0
      ensures node == null ==> unchanged(this) && left == avail
      ensures node != null ==>
        && PoolShape()
        && node.tmp == null && node.listPrev == null && node.listNext == null && node.treePrev == null
        && node.nextNodes == map[] && node.data == None && node.refcnt == 0 && node.keyV == 0 && !node.isDataNode
        && node !in pool && node !in list && node !in treeNodes
        && nodes == old(nodes) + {node} && (node in old(pool) || fresh(node))
        && |pool| + left == |old(pool)| + avail - 1 && |pool| <= |old(pool)| && (forall n | n in pool :: n in old(pool))
        && curAllocNum == old(curAllocNum) + |pool| + 1 - |old(pool)|
    {
      left := avail;
      if emptyHead != null {
        node := emptyHead;
        assert node == pool[|pool| - 1];
        emptyHead := node.tmp;
        node.tmp := null;
        pool := pool[..|pool| - 1];
      } else if left == 0 {
        node := null;
      } else {
        node := new Node<V>();
        left := left - 1;
        curAllocNum := curAllocNum + 1;
        nodes := nodes + {node};
      }
    }

    // ---------- extending the tree by one node ----------

    /** A new node takes the head of the list. */
    method ListPush(t: Node<V>)
      requires ListShape() && t !in list && t.listPrev == null
      modifies this`listHead, this`list, t`listNext, list`listPrev
      ensures ListShape() && list == old(list) + [t]
    {
      if listHead != null {
        listHead.listPrev := t;
      }
      t.listNext := listHead;
      listHead := t;
      list := list + [t];
    }

    /** Hang the unused node t below the node of path p. */
    method Link(ghost p: Key, node: Node<V>, v: Byte, t: Node<V>, ghost keys: set<Key>, ghost extra: set<Key>)
      requires TreeOk(keys, {}, Contents, extra)
      requires node in treeNodes && p in tree && node == tree[p] && v !in node.nextNodes && |p| < length
      requires |p| + 1 == length ==> p + [v] in extra
      requires forall k | k in keys :: k in tree
      requires t !in treeNodes && t.nextNodes == map[] && t.refcnt == 0 && !t.isDataNode
      modifies this`tree, this`treeNodes, node`nextNodes, t`treePrev, t`path, t`keyV
      ensures TreeOk(keys, {}, Contents, extra)
      ensures tree == old(tree)[p + [v] := t] && treeNodes == old(treeNodes) + {t} && t.path == p + [v]
    {
      hide TreeShape, Counted, Leaves;
      NothingBelow(p, v);
      t.keyV := v;
      node.nextNodes := node.nextNodes[v := t];
      t.treePrev := node;
      t.path := p + [v];
      tree := tree[p + [v] := t];
      treeNodes := treeNodes + {t};
      LinkShape(p, node, v, t);
      LinkCounted(p, v, t, keys);
      LinkLeaves(p, v, t, extra);
    }

    twostate lemma LinkShape(new p: Key, new node: Node<V>, new v: Byte, new t: Node<V>)
      requires old(TreeShape())
      requires p in old(tree) && node == old(tree[p]) && v !in old(node.nextNodes) && |p| < length
      requires t !in old(treeNodes) && t.nextNodes == map[] && t.keyV == v && t.treePrev == node && t.path == p + [v]
      requires p + [v] !in old(tree)
      requires treeRoot == old(treeRoot) && tree == old(tree)[p + [v] := t] && treeNodes == old(treeNodes) + {t}
      requires node.nextNodes == old(node.nextNodes)[v := t]
      requires forall n | n in old(treeNodes) ::
        n.path == old(n.path) && n.treePrev == old(n.treePrev) && n.keyV == old(n.keyV)
      requires forall n | n in old(treeNodes) && n != node :: n.nextNodes == old(n.nextNodes)
      ensures TreeShape()
    {
      LinkUp(p, node, v, t);
      LinkDown(p, node, v, t);
    }

    /** The parents of all nodes, and of the new one. */
    twostate lemma LinkUp(new p: Key, new node: Node<V>, new v: Byte, new t: Node<V>)
      requires old(TreeShape())
      requires p in old(tree) && node == old(tree[p])
      requires t !in old(treeNodes) && t.keyV == v && t.treePrev == node && t.path == p + [v]
      requires treeRoot == old(treeRoot) && treeNodes == old(treeNodes) + {t}
      requires node.nextNodes == old(node.nextNodes)[v := t] && v !in old(node.nextNodes)
      requires forall n | n in old(treeNodes) ::
        n.path == old(n.path) && n.treePrev == old(n.treePrev) && n.keyV == old(n.keyV)
      requires forall n | n in old(treeNodes) && n != node :: n.nextNodes == old(n.nextNodes)
      ensures forall n | n in treeNodes && n != treeRoot :: UpLink(n)
    {
      assert Up(p + [v]) == p && Last(p + [v]) == v;
      forall n | n in treeNodes && n != treeRoot
        ensures UpLink(n)
      {
        assert n != t ==> old(UpLink(n));
      }
    }

    /** The children of all nodes. */
    twostate lemma LinkDown(new p: Key, new node: Node<V>, new v: Byte, new t: Node<V>)
      requires old(TreeShape())
      requires p in old(tree) && node == old(tree[p])
      requires t !in old(treeNodes) && t.nextNodes == map[] && t.keyV == v && t.treePrev == node
      requires treeRoot == old(treeRoot) && treeNodes == old(treeNodes) + {t}
      requires node.nextNodes == old(node.nextNodes)[v := t]
      requires forall n | n in old(treeNodes) :: n.treePrev == old(n.treePrev) && n.keyV == old(n.keyV)
      requires forall n | n in old(treeNodes) && n != node :: n.nextNodes == old(n.nextNodes)
      ensures forall n, w | n in treeNodes && w in n.nextNodes :: DownLink(n, w)
    {
      forall n, w | n in treeNodes && w in n.nextNodes
        ensures DownLink(n, w)
      {
        assert n != t && (n != node || w != v) ==> old(DownLink(n, w));
      }
    }

    twostate lemma LinkCounted(new p: Key, new v: Byte, new t: Node<V>, new keys: set<Key>)
      requires old(Counted(keys, {}))
      requires t !in old(treeNodes) && t.refcnt == 0 && t.path == p + [v] && treeNodes == old(treeNodes) + {t}
      requires forall n | n in old(treeNodes) :: n.refcnt == old(n.refcnt) && n.path == old(n.path)
      requires forall k | k in keys :: !(p + [v] <= k)
      ensures Counted(keys, {})
    {
      ThroughNone(keys, p + [v]);
    }

    twostate lemma LinkLeaves(new p: Key, new v: Byte, new t: Node<V>, new extra: set<Key>)
      requires old(Leaves(Contents, extra)) && Contents == old(Contents)
      requires t !in old(treeNodes) && !t.isDataNode && t.path == p + [v] && treeNodes == old(treeNodes) + {t}
      requires p + [v] !in old(tree) && (|p| + 1 == length ==> p + [v] in extra)
      requires tree == old(tree)[p + [v] := t]
      requires forall n | n in old(treeNodes) ::
        n.data == old(n.data) && n.isDataNode == old(n.isDataNode) && n.path == old(n.path)
      ensures Leaves(Contents, extra)
    {
    }

    /** A node for the tree: off the pool or the allocator, labelled and on the list. */
    method Prepare(avail: nat) returns (t: Node?<V>, left: nat)
      requires ListsOk() && treeNodes <= nodes && orphans <= nodes && curAllocNum == |list| + |pool|
      requires forall n | n in list :: n in nodes
      requires forall n | n in pool :: n in nodes && n !in list && n !in treeNodes
      requires forall n | n in orphans :: n in list
      modifies this`emptyHead, this`curAllocNum, this`pool, this`nodes, this`listHead, this`list,
               pool`tmp, nodes`listNext, nodes`listPrev
      ensures t == null <==> |old(pool)| + avail == 0
      ensures t == null ==> unchanged(this) && unchanged(nodes) && left == avail
      ensures ListsOk() && curAllocNum == |list| + |pool|
      ensures t != null ==>
        && |pool| + left == |old(pool)| + avail - 1 && |pool| <= |old(pool)|
        && (forall n | n in pool :: n in old(pool) && n != t)
        && t !in treeNodes && t !in old(list) && list == old(list) + [t]
        && nodes == old(nodes) + {t} && (t in old(pool) || fresh(t))
        && t.nextNodes == map[] && t.refcnt == 0 && !t.isDataNode
    {
      hide ListShape, PoolShape, OrphansHoldNothing;
      t, left := NodeGet(avail);
      if t == null { return; }
      assert PoolShape();
      assert forall n | n in pool :: n !in list && n != t;
      assert forall i | 0 <= i < |pool| :: pool[i] in pool;
      label Pushing:
      ListPush(t);
      assert pool == old@Pushing(pool) && forall i | 0 <= i < |pool| :: unchanged@Pushing(pool[i]);
    }

    /** The branch of `map_add` that extends the tree by one node below the path p. */
    method Grow(ghost p: Key, node: Node<V>, v: Byte, avail: nat, ghost keys: set<Key>, ghost extra: set<Key>)
      returns (t: Node?<V>, left: nat)
      requires Core(keys, {}, Contents, extra) && keys <= Contents.Keys
      requires p in tree && node == tree[p] && v !in node.nextNodes && |p| < length
      requires |p| + 1 == length ==> p + [v] in extra
      modifies this`emptyHead, this`curAllocNum, this`pool, this`nodes, this`listHead, this`list, this`tree,
               this`treeNodes, pool, node`nextNodes, nodes`listNext, nodes`listPrev
      ensures t == null <==> |old(pool)| + avail == 0
      ensures t == null ==> unchanged(this) && left == avail
      ensures Core(keys, {}, Contents, extra) && fresh(nodes - old(nodes)) && old(nodes) <= nodes
      ensures t != null ==>
        && tree == old(tree)[p + [v] := t] && t in treeNodes && t.path == p + [v] && old(treeNodes) <= treeNodes
        && |pool| + left == |old(pool)| + avail - 1 && |pool| <= |old(pool)|
      ensures forall n | n in old(treeNodes) :: n.path == old(n.path) && n.tmp == old(n.tmp)
    {
      hide *;
      CoreElim(keys, {}, Contents, extra);
      t, left := Prepare(avail);
      assert TreeOk(keys, {}, Contents, extra);
      if t != null {
        Link(p, node, v, t, keys, extra);
        assert ListsOk();
        GrowPlaced(t);
      }
      CoreIntro(keys, {}, Contents, extra);
    }

    twostate lemma GrowPlaced(new t: Node<V>)
      requires old(Placed()) && treeRoot == old(treeRoot) && orphans == old(orphans)
      requires t !in old(treeNodes) && t !in old(list)
      requires treeNodes == old(treeNodes) + {t} && list == old(list) + [t] && nodes == old(nodes) + {t}
      requires forall n | n in pool :: n in old(pool) && n != t
      requires curAllocNum == |list| + |pool|
      requires treeRoot in old(treeNodes)
      ensures Placed()
    {
    }

    lemma CoreIntro(keys: set<Key>, more: set<Node<V>>, stored: map<Key, V>, extra: set<Key>)
      requires 0 < length && treeRoot in nodes && Placed() && TreeOk(keys, more, stored, extra) && ListsOk()
      ensures Core(keys, more, stored, extra)
    {
    }

    /** What a method needs of the invariant without looking inside. */
    lemma CoreElim(keys: set<Key>, more: set<Node<V>>, stored: map<Key, V>, extra: set<Key>)
      requires Core(keys, more, stored, extra)
      ensures 0 < length && treeRoot in nodes && Placed() && TreeOk(keys, more, stored, extra) && ListsOk()
      ensures treeRoot in treeNodes && treeNodes <= nodes && orphans <= nodes
      ensures curAllocNum == |list| + |pool|
      ensures forall p | p in tree :: tree[p] in treeNodes
      ensures forall k | k in stored :: k in tree
      ensures forall n | n in list :: n in nodes
      ensures forall n | n in pool :: n in nodes && n !in list && n !in treeNodes
      ensures forall n | n in orphans :: n in list
    {
    }

    // ---------- map_add ----------

    /** `way` is the run of nodes from the root, exclusive, along the key. */
    ghost predicate OnWay(key: Key, way: seq<Node<V>>)
      reads this`treeNodes, way`path
    {
      |way| <= |key| && forall i | 0 <= i < |way| :: way[i] in treeNodes && way[i].path == key[..i + 1]
    }

    /** The nodes of `way` are chained through `tmp`, deepest first. */
    ghost predicate Chained(way: seq<Node<V>>)
      reads way`tmp
    {
      forall i {:trigger way[i].tmp} | 0 <= i < |way| :: way[i].tmp == At(way, i - 1)
    }

    ghost function Run(way: seq<Node<V>>): set<Node<V>>
      reads this`treeRoot
    {
      {treeRoot} + set n | n in way
    }

    /** State of the descent after |way| levels, started on the tree `before`. */
    ghost predicate Reached(key: Key, way: seq<Node<V>>, node: Node<V>, head: Node?<V>, before: map<Key, Node<V>>)
      reads this`tree, this`treeNodes, way`path, way`tmp, this`treeRoot
    {
      && OnWay(key, way) && Chained(way)
      && key[..|way|] in tree && node == tree[key[..|way|]]
      && (way == [] ==> head == null) && (way != [] ==> head == node == way[|way| - 1])
      && (forall p | p in tree :: p in before || (|p| <= |way| && p <= key))
      && (forall p | p in before :: p in tree)
    }

    /** One level of the descent: find or create the child, and chain it before `head`. */
    method Step(key: Key, n: nat, node: Node<V>, head: Node?<V>, avail: nat) returns (t: Node?<V>, left: nat)
      requires Core(Contents.Keys, {}, Contents, {key}) && |key| == length && n < length
      requires key[..n] in tree && node == tree[key[..n]]
      modifies this`emptyHead, this`curAllocNum, this`pool, this`nodes, this`listHead, this`list, this`tree,
               this`treeNodes, nodes
      ensures Core(Contents.Keys, {}, Contents, {key}) && fresh(nodes - old(nodes)) && old(nodes) <= nodes
      ensures t == null <==> key[..n + 1] !in old(tree) && |old(pool)| + avail == 0
      ensures t == null ==> tree == old(tree)
      ensures t != null ==>
        && old(treeNodes) <= treeNodes && tree == old(tree)[key[..n + 1] := t]
        && t in treeNodes && t.path == key[..n + 1] && t.tmp == head
        && |pool| + left + (if key[..n + 1] in old(tree) then 0 else 1) == |old(pool)| + avail
      ensures |pool| <= |old(pool)|
      ensures forall m | m in old(treeNodes) :: m.path == old(m.path) && (m != t ==> m.tmp == old(m.tmp))
    {
      hide *;
      CoreElim(Contents.Keys, {}, Contents, {key});
      StepFacts(key, n);
      var v := key[n];
      left := avail;
      if v in node.nextNodes {
        t := node.nextNodes[v];
      } else {
        t, left := Grow(key[..n], node, v, left, Contents.Keys, {key});
        if t == null { return; }
        CoreElim(Contents.Keys, {}, Contents, {key});
      }
      assert forall i | 0 <= i < |pool| :: pool[i] != t;
      t.tmp := head;
      assert TreeOk(Contents.Keys, {}, Contents, {key}) && Placed();
      assert ListsOk();
      CoreIntro(Contents.Keys, {}, Contents, {key});
    }

    lemma StepFacts(key: Key, n: nat)
      requires Core(Contents.Keys, {}, Contents, {key}) && |key| == length && n < length
      requires key[..n] in tree
      ensures key[..n] + [key[n]] == key[..n + 1] && (n + 1 == length ==> key[..n + 1] == key)
      ensures key[n] in tree[key[..n]].nextNodes <==> key[..n + 1] in tree
      ensures key[..n + 1] in tree ==>
        && tree[key[..n]].nextNodes[key[n]] == tree[key[..n + 1]]
        && tree[key[..n + 1]].path == key[..n + 1]
    {
      hide Counted, Leaves, Placed, ListsOk;
      ChildOfPath(key, n);
    }

    /** The descent of `map_add`: create what is missing and chain the nodes passed. */
    method Descend(key: Key, avail: nat) returns (rs: int, node: Node<V>, head: Node?<V>, ghost way: seq<Node<V>>)
      requires Core(Contents.Keys, {}, Contents, {key}) && |key| == length && key !in Contents
      modifies this`emptyHead, this`curAllocNum, this`pool, this`nodes, this`listHead, this`list, this`tree,
               this`treeNodes, nodes
      ensures Core(Contents.Keys, {}, Contents, {key}) && fresh(nodes - old(nodes))
      ensures rs == 0 || rs == -1
      ensures rs == 0 <==> Missing(old(tree), key, 0) <= |old(pool)| + avail
      ensures rs == 0 ==> OnWay(key, way) && Chained(way) && |way| == length && head == node == way[length - 1]
      ensures rs != 0 ==> key !in tree
      ensures |pool| <= |old(pool)|
      ensures forall p | p in old(tree) :: p in tree
      ensures forall p | p in tree :: p in old(tree) || p <= key
      ensures rs != 0 ==>
        forall n: nat | n <= length && Missing(old(tree), key, 0) <= |old(pool)| + avail + Missing(old(tree), key, n) ::
        key[..n] in tree
    {
      hide *;
      CoreElim(Contents.Keys, {}, Contents, {key});
      Start(key);
      rs := 0;
      node, head, way := treeRoot, null, [];
      var left := avail;
      var n := 0;
      while n < length
        invariant 0 <= n <= length && |way| == n
        invariant Core(Contents.Keys, {}, Contents, {key})
        invariant fresh(nodes - old(nodes)) && old(nodes) <= nodes && |pool| <= |old(pool)|
        invariant Reached(key, way, node, head, old(tree))
        invariant |pool| + left + Missing(old(tree), key, 0) == |old(pool)| + avail + Missing(old(tree), key, n)
      {
        LevelFacts(key, way, node, head, old(tree));
        label Here:
        var t;
        t, left := Step(key, n, node, head, left);
        if t == null {
          ShortOfKey(key, n);
          HowFar(old(tree), key, n);
          return -1, node, head, way;
        }
        Lengthen@Here(way, key, node, head, t, old(tree));
        head := t;
        way := way + [t];
        node := t;
        n := n + 1;
      }
      LevelFacts(key, way, node, head, old(tree));
    }

    lemma LevelFacts(key: Key, way: seq<Node<V>>, node: Node<V>, head: Node?<V>, before: map<Key, Node<V>>)
      requires Reached(key, way, node, head, before)
      ensures var n := |way|;
        && key[..n] in tree && node == tree[key[..n]] && OnWay(key, way) && Chained(way)
        && (n < |key| ==>
              Missing(before, key, n) == (if key[..n + 1] in tree then 0 else 1) + Missing(before, key, n + 1))
        && (n == |key| ==> Missing(before, key, n) == 0)
        && (n > 0 ==> head == node == way[n - 1])
        && (forall p | p in before :: p in tree)
        && (forall p | p in tree :: p in before || p <= key)
    {
    }

    /** A descent stopped at depth n has made every prefix that needs no more nodes than n did. */
    lemma HowFar(before: map<Key, Node<V>>, key: Key, n: nat)
      requires Core(Contents.Keys, {}, Contents, {key}) && n < |key| && key[..n] in tree && key[..n + 1] !in before
      ensures forall m: nat | m <= |key| && Missing(before, key, n) <= Missing(before, key, m) :: key[..m] in tree
    {
      forall m: nat | m <= |key| && Missing(before, key, n) <= Missing(before, key, m)
        ensures key[..m] in tree
      {
        if m > n {
          MissingFalls(before, key, n + 1, m);
        }
        assert key[..n][..m] == key[..m];
        PathInTree(key[..n], m);
      }
    }

    lemma {:induction false} MissingFalls(before: map<Key, Node<V>>, key: Key, n: nat, m: nat)
      requires n <= m <= |key|
      ensures Missing(before, key, m) <= Missing(before, key, n)
      decreases m - n
    {
      if n < m {
        MissingFalls(before, key, n + 1, m);
      }
    }

    twostate lemma Lengthen(way: seq<Node<V>>, new key: Key, new node: Node<V>, new head: Node?<V>, new t: Node<V>,
                            new before: map<Key, Node<V>>)
      requires old(allocated(node)) && old(allocated(head)) && old(allocated(before))
      requires |way| < |key| && old(Reached(key, way, node, head, before))
      requires old(treeNodes) <= treeNodes && t in treeNodes && t.path == key[..|way| + 1] && t.tmp == head
      requires tree == old(tree)[key[..|way| + 1] := t]
      requires forall m | m in old(treeNodes) :: m.path == old(m.path) && (m != t ==> m.tmp == old(m.tmp))
      ensures Reached(key, way + [t], t, t, before)
    {
      hide OnWay, Chained;
      LengthenWay(way, key, t);
      LengthenChain(way, t);
    }

    twostate lemma LengthenWay(way: seq<Node<V>>, new key: Key, new t: Node<V>)
      requires |way| < |key| && old(OnWay(key, way)) && old(treeNodes) <= treeNodes
      requires t in treeNodes && t.path == key[..|way| + 1]
      requires forall m | m in old(treeNodes) :: m.path == old(m.path)
      ensures OnWay(key, way + [t]) && t !in way && forall m | m in way :: m in old(treeNodes)
    {
      forall i | 0 <= i < |way|
        ensures way[i] != t
      {
        assert |way[i].path| == i + 1;
      }
    }

    twostate lemma LengthenChain(way: seq<Node<V>>, new t: Node<V>)
      requires old(Chained(way)) && t !in way && t.tmp == At(way, |way| - 1)
      requires forall m | m in way :: m.tmp == old(m.tmp)
      ensures Chained(way + [t])
    {
      var more := way + [t];
      forall i {:trigger more[i].tmp} | 0 <= i < |more|
        ensures more[i].tmp == At(more, i - 1)
      {
        assert i < |way| ==> way[i] in way && way[i].tmp == old(way[i].tmp);
      }
    }

    lemma Start(key: Key)
      requires Core(Contents.Keys, {}, Contents, {key})
      ensures Reached(key, [], treeRoot, null, tree)
    {
      hide Placed, ListsOk, Counted, Leaves;
      assert key[..0] == [];
    }

    lemma ShortOfKey(key: Key, n: nat)
      requires Core(Contents.Keys, {}, Contents, {key}) && n < |key| && key[..n + 1] !in tree
      ensures key !in tree
    {
      if key in tree {
        PathInTree(key, n + 1);
      }
    }

    /** `map_add` walks the chain: every node passed counts one key more. */
    method CountUp(head: Node?<V>, ghost way: seq<Node<V>>)
      requires Chained(way) && head == if way == [] then null else way[|way| - 1]
      requires Distinct(way)
      modifies way`refcnt
      ensures forall i | 0 <= i < |way| :: way[i].refcnt == old(way[i].refcnt) + 1
    {
      hide Distinct;
      var t := head;
      ghost var j := |way|;
      while t != null
        invariant 0 <= j <= |way| && t == At(way, j - 1)
        invariant forall i | 0 <= i < j :: way[i].refcnt == old(way[i].refcnt)
        invariant forall i | j <= i < |way| :: way[i].refcnt == old(way[i].refcnt) + 1
        decreases j
      {
        OnlyAt(way, j - 1);
        t.refcnt := t.refcnt + 1;
        t := t.tmp;
        j := j - 1;
      }
    }

    /** `map_add` walks the chain again and takes it apart. */
    method ClearTmp(head: Node?<V>, ghost way: seq<Node<V>>)
      requires Chained(way) && head == if way == [] then null else way[|way| - 1]
      requires Distinct(way)
      modifies way`tmp
      ensures forall i | 0 <= i < |way| :: way[i].tmp == null
    {
      hide Distinct;
      var t := head;
      ghost var j := |way|;
      while t != null
        invariant 0 <= j <= |way| && t == At(way, j - 1)
        invariant forall i {:trigger way[i].tmp} | 0 <= i < j :: way[i].tmp == At(way, i - 1)
        invariant forall i | j <= i < |way| :: way[i].tmp == null
        decreases j
      {
        OnlyAt(way, j - 1);
        var tt := t.tmp;
        t.tmp := null;
        t := tt;
        j := j - 1;
      }
    }

    /** The field updates of `map_add` after the descent. */
    method Mark(data: V, node: Node<V>, head: Node?<V>, ghost way: seq<Node<V>>)
      requires Chained(way) && way != [] && head == node == way[|way| - 1]
      requires Distinct(way)
      requires forall i | 0 <= i < |way| :: way[i] in treeNodes && way[i] != treeRoot
      requires treeRoot in treeNodes
      modifies treeNodes`refcnt, treeNodes`tmp, treeNodes`data, treeNodes`isDataNode
      ensures forall n | n in treeNodes :: n.refcnt == old(n.refcnt) + if n in Run(way) then 1 else 0
      ensures node.isDataNode && node.data == Some(data)
      ensures forall n | n in treeNodes && n != node :: n.isDataNode == old(n.isDataNode) && n.data == old(n.data)
    {
      CountUp(head, way);
      ClearTmp(head, way);
      treeRoot.refcnt := treeRoot.refcnt + 1;
      treeRoot.tmp := null;
      node.isDataNode := true;
      node.data := Some(data);
    }

    /** The part of `map_add` after the descent, as seen by the tree. */
    method CommitTree(key: Key, data: V, node: Node<V>, head: Node?<V>, ghost way: seq<Node<V>>)
      requires TreeOk(Contents.Keys, {}, Contents, {key}) && |key| == length > 0 && key !in Contents
      requires OnWay(key, way) && Chained(way) && |way| == length && head == node == way[length - 1]
      modifies this`keyTotNum, this`Contents, treeNodes`refcnt, treeNodes`tmp, treeNodes`data, treeNodes`isDataNode
      ensures TreeOk(Contents.Keys, {}, Contents, {})
      ensures Contents == old(Contents)[key := data] && keyTotNum == old(keyTotNum) + 1
    {
      hide *;
      TreeElim(Contents.Keys, {}, Contents, {key});
      WayFacts(key, way);
      Mark(data, node, head, way);
      keyTotNum := keyTotNum + 1;
      Contents := Contents[key := data];
      assert TreeShape();
      CommitCounted(way, key);
      CommitLeaves(way, key, data);
      TreeIntro(Contents.Keys, {}, Contents, {});
    }

    method Commit(key: Key, data: V, node: Node<V>, head: Node?<V>, ghost way: seq<Node<V>>)
      requires Core(Contents.Keys, {}, Contents, {key}) && |key| == length > 0 && key !in Contents
      requires OnWay(key, way) && Chained(way) && |way| == length && head == node == way[length - 1]
      requires keyTotNum == |Contents|
      modifies this`keyTotNum, this`Contents, treeNodes`refcnt, treeNodes`tmp, treeNodes`data, treeNodes`isDataNode
      ensures Valid() && Contents == old(Contents)[key := data]
    {
      hide *;
      CoreElim(Contents.Keys, {}, Contents, {key});
      assert forall i | 0 <= i < |pool| :: pool[i] !in treeNodes;
      CommitTree(key, data, node, head, way);
      CoreIntro(Contents.Keys, {}, Contents, {});
      ValidIntro();
    }

    /** `map_add`: fails on a stored key and when the allocator runs dry; the nodes made by then stay. */
    method Add(key: Key, data: V, avail: nat) returns (rs: int)
      requires Valid() && |key| == length
      modifies this, nodes
      ensures Valid() && fresh(nodes - old(nodes))
      ensures rs == 0 || rs == -1
      ensures rs == 0 <==> key !in old(Contents) && Missing(old(tree), key, 0) <= |old(pool)| + avail
      ensures Contents == if rs == 0 then old(Contents)[key := data] else old(Contents)
      ensures orphans == old(orphans) && |pool| <= |old(pool)|
        && ((rs == 0 || key in old(Contents)) && old(NoStubs()) ==> NoStubs())
      ensures forall p | p in old(tree) :: p in tree
      ensures forall p | p in tree :: p in old(tree) || p <= key
      ensures rs != 0 && key !in old(Contents) ==>
        forall n: nat | n <= length && Missing(old(tree), key, 0) <= |old(pool)| + avail + Missing(old(tree), key, n) ::
          key[..n] in tree
    {
      hide *;
      var _, isFound := Find(key);
      if isFound { return -1; }
      Loosen(key);
      var node, head;
      ghost var way;
      rs, node, head, way := Descend(key, avail);
      if rs != 0 {
        Tighten(key);
      } else {
        CoreElim(Contents.Keys, {}, Contents, {key});
        Commit(key, data, node, head, way);
        if old(NoStubs()) {
          AddLeavesNoStubs(key);
        }
      }
    }

    lemma ValidIntro()
      requires Core(Contents.Keys, {}, Contents, {}) && keyTotNum == |Contents|
      ensures Valid()
    {
    }

    lemma Loosen(key: Key)
      requires Valid() && |key| == length
      ensures Core(Contents.Keys, {}, Contents, {key}) && keyTotNum == |Contents| && length > 0
      ensures treeNodes <= nodes
    {
    }

    lemma Tighten(key: Key)
      requires Core(Contents.Keys, {}, Contents, {key}) && key !in tree && keyTotNum == |Contents|
      ensures Valid()
    {
    }

    /** The nodes of a way are different, below the root, and all of the key's prefixes. */
    lemma WayFacts(key: Key, way: seq<Node<V>>)
      requires TreeShape() && OnWay(key, way) && |way| == |key| == length > 0
      ensures Distinct(way)
      ensures forall i | 0 <= i < |way| :: way[i] in treeNodes && way[i] != treeRoot
      ensures way[|way| - 1].path == key
      ensures forall n | n in treeNodes :: n.path <= key <==> n in Run(way)
      ensures treeRoot in treeNodes
    {
      forall i, j | 0 <= i < j < |way|
        ensures way[i] != way[j]
      {
        assert |way[i].path| == i + 1;
      }
      assert key[..|key|] == key;
      forall n | n in treeNodes && n.path <= key
        ensures n in Run(way)
      {
        var d := |n.path|;
        if d > 0 {
          assert way[d - 1].path == key[..d] == n.path;
        } else {
          assert n.path == [];
        }
      }
    }

    twostate lemma CommitCounted(way: seq<Node<V>>, new key: Key)
      requires old(Counted(Contents.Keys, {})) && key !in old(Contents) && Contents.Keys == old(Contents.Keys) + {key}
      requires forall n | n in treeNodes :: n.path <= key <==> n in Run(way)
      requires treeNodes == old(treeNodes)
      requires forall n | n in treeNodes :: n.path == old(n.path)
      requires forall n | n in treeNodes :: n.refcnt == old(n.refcnt) + if n in Run(way) then 1 else 0
      ensures Counted(Contents.Keys, {})
    {
      forall n | n in treeNodes
        ensures n.refcnt == Through(Contents.Keys, n.path)
      {
        ThroughAdd(old(Contents.Keys), key, n.path);
      }
    }

    twostate lemma CommitLeaves(way: seq<Node<V>>, new key: Key, new data: V)
      requires old(Leaves(Contents, {key})) && TreeShape() && way != [] && |key| == length
      requires Contents == old(Contents)[key := data] && tree == old(tree) && treeNodes == old(treeNodes)
      requires forall n | n in treeNodes :: n.path == old(n.path)
      requires way[|way| - 1] in treeNodes && way[|way| - 1].path == key
      requires way[|way| - 1].isDataNode && way[|way| - 1].data == Some(data)
      requires forall n | n in treeNodes && n != way[|way| - 1] ::
        n.isDataNode == old(n.isDataNode) && n.data == old(n.data)
      ensures Leaves(Contents, {})
    {
    }

    lemma TreeIntro(keys: set<Key>, more: set<Node<V>>, stored: map<Key, V>, extra: set<Key>)
      requires TreeShape() && Counted(keys, more) && Leaves(stored, extra)
      ensures TreeOk(keys, more, stored, extra)
    {
    }

    lemma TreeElim(keys: set<Key>, more: set<Node<V>>, stored: map<Key, V>, extra: set<Key>)
      requires TreeOk(keys, more, stored, extra)
      ensures TreeShape() && Counted(keys, more) && Leaves(stored, extra)
    {
    }

    // ---------- map_del ----------

    /** `__map_node_put`: back to the allocator while the map holds too many nodes, else to the pool. */
    method NodePut(node: Node<V>)
      requires PoolShape() && node !in pool && curAllocNum > 0
      modifies this`emptyHead, this`curAllocNum, this`pool, this`nodes, node
      ensures PoolShape()
      ensures if old(curAllocNum) > preAllocNum
        then nodes == old(nodes) - {node} && curAllocNum == old(curAllocNum) - 1 && pool == old(pool)
        else nodes == old(nodes) && curAllocNum == old(curAllocNum) && pool == old(pool) + [node]
    {
      if curAllocNum > preAllocNum {
        nodes := nodes - {node};
        curAllocNum := curAllocNum - 1;
        return;
      }
      node.Clear();
      node.tmp := emptyHead;
      emptyHead := node;
      pool := pool + [node];
    }

    /** Take the i-th node out of the doubly linked list. */
    method ListRemove(node: Node<V>, ghost i: nat)
      requires ListShape() && i < |list| && list[i] == node
      modifies this`listHead, this`list, list`listNext, list`listPrev
      ensures ListShape() && list == old(list)[..i] + old(list)[i + 1..]
    {
      if node.listNext != null {
        assert node.listNext == list[i - 1];
        node.listNext.listPrev := node.listPrev;
      }
      if node.listPrev != null {
        assert node.listPrev == list[i + 1];
        node.listPrev.listNext := node.listNext;
      } else {
        listHead := node.listNext;
      }
      list := list[..i] + list[i + 1..];
    }

    /** Cut the subtree of a node no stored key runs through. */
    method Unlink(node: Node<V>, ghost keys: set<Key>, ghost more: set<Node<V>>, ghost extra: set<Key>)
      requires TreeOk(keys, more, Contents, extra) && keys == Contents.Keys
      requires node in treeNodes && node != treeRoot && node.treePrev != null && node.treePrev in treeNodes
      requires forall k | k in keys :: !(node.path <= k)
      modifies this`tree, this`treeNodes, node.treePrev`nextNodes
      ensures TreeOk(keys, more, Contents, extra)
      ensures tree == map p | p in old(tree) && !(node.path <= p) :: old(tree)[p]
      ensures treeNodes == set n | n in old(treeNodes) && !(node.path <= n.path)
    {
      hide TreeShape, Counted, Leaves;
      node.treePrev.nextNodes := node.treePrev.nextNodes - {node.keyV};
      tree := map p | p in tree && !(node.path <= p) :: tree[p];
      treeNodes := set n | n in treeNodes && !(node.path <= n.path);
      UnlinkShape(node);
      UnlinkCounted(node, keys, more);
      UnlinkLeaves(node, extra);
    }

    twostate lemma UnlinkShape(node: Node<V>)
      requires old(TreeShape()) && treeRoot == old(treeRoot)
      requires node in old(treeNodes) && node != treeRoot && node.treePrev != null && node.treePrev in old(treeNodes)
      requires tree == map p | p in old(tree) && !(node.path <= p) :: old(tree)[p]
      requires treeNodes == set n | n in old(treeNodes) && !(node.path <= n.path)
      requires forall n | n in old(treeNodes) ::
        n.path == old(n.path) && n.treePrev == old(n.treePrev) && n.keyV == old(n.keyV)
      requires node.treePrev.nextNodes == old(node.treePrev.nextNodes) - {node.keyV}
      requires forall n | n in old(treeNodes) && n != node.treePrev :: n.nextNodes == old(n.nextNodes)
      ensures TreeShape()
    {
      assert old(UpLink(node));
      forall n | n in treeNodes && n != treeRoot
        ensures UpLink(n)
      {
        assert old(UpLink(n));
        assert n.treePrev.path <= n.path;
      }
      forall n, v | n in treeNodes && v in n.nextNodes
        ensures DownLink(n, v)
      {
        assert old(DownLink(n, v));
        assert old(UpLink(n.nextNodes[v]));
        var q, r := node.path, n.nextNodes[v].path;
        assert q <= r ==> q == r;
      }
    }

    twostate lemma UnlinkCounted(node: Node<V>, new keys: set<Key>, new more: set<Node<V>>)
      requires old(allocated(more)) && old(Counted(keys, more)) && treeNodes <= old(treeNodes)
      requires forall n | n in old(treeNodes) :: n.path == old(n.path) && n.refcnt == old(n.refcnt)
      ensures Counted(keys, more)
    {
    }

    twostate lemma UnlinkLeaves(node: Node<V>, new extra: set<Key>)
      requires old(TreeShape()) && old(Leaves(Contents, extra)) && Contents == old(Contents)
      requires tree == map p | p in old(tree) && !(node.path <= p) :: old(tree)[p]
      requires treeNodes <= old(treeNodes)
      requires forall k | k in Contents :: !(node.path <= k)
      requires forall n | n in old(treeNodes) ::
        n.path == old(n.path) && n.data == old(n.data) && n.isDataNode == old(n.isDataNode)
      ensures Leaves(Contents, extra)
    {
    }

    /** Take a node no longer in the tree off the list and give it back. */
    method Discard(node: Node<V>, ghost i: nat)
      requires ListsOk() && i < |list| && list[i] == node && node !in orphans && curAllocNum > 0
      requires forall n | n in list :: n !in pool
      requires forall n | n in orphans :: n in list
      modifies this`listHead, this`list, this`emptyHead, this`curAllocNum, this`pool, this`nodes,
               list`listNext, list`listPrev, node
      ensures ListsOk() && list == old(list)[..i] + old(list)[i + 1..]
      ensures if old(curAllocNum) > old(preAllocNum)
        then nodes == old(nodes) - {node} && curAllocNum == old(curAllocNum) - 1 && pool == old(pool)
        else nodes == old(nodes) && curAllocNum == old(curAllocNum) && pool == old(pool) + [node]
    {
      hide *;
      ListsElim();
      assert forall j | 0 <= j < |pool| :: pool[j] !in list;
      ListRemove(node, i);
      ListRest(node, old(list), i);
      NodePut(node);
      ListsIntro();
    }

    lemma ListRest(node: Node<V>, before: seq<Node<V>>, i: nat)
      requires ListShape() && i < |before| && before[i] == node && list == before[..i] + before[i + 1..]
      requires forall j, k | 0 <= j < k < |before| :: before[j] != before[k]
      ensures node !in list
    {
    }

    /** Unlink the subtree and record what loses its way to the root. */
    method Cut(node: Node<V>, ghost keys: set<Key>, ghost more: set<Node<V>>, ghost extra: set<Key>)
      requires TreeOk(keys, more, Contents, extra) && keys == Contents.Keys && ListsOk()
      requires node in treeNodes && node != treeRoot && node.treePrev != null && node.treePrev in treeNodes
      requires forall k | k in keys :: !(node.path <= k)
      requires forall n | n in treeNodes && node.path < n.path :: !n.isDataNode
      requires forall n | n in treeNodes :: n !in pool
      modifies this`tree, this`treeNodes, this`orphans, node.treePrev`nextNodes
      ensures TreeOk(keys, more, Contents, extra) && ListsOk()
      ensures tree == map p | p in old(tree) && !(node.path <= p) :: old(tree)[p]
      ensures treeNodes == set n | n in old(treeNodes) && !(node.path <= n.path)
      ensures orphans == old(orphans) + set n | n in old(treeNodes) && node.path < n.path
    {
      hide *;
      Strand(node);
      assert forall j | 0 <= j < |pool| :: pool[j] != node.treePrev;
      Unlink(node, keys, more, extra);
    }

    /** The branch of `map_del` for a node whose count has dropped to zero. */
    method Prune(node: Node<V>, ghost keys: set<Key>, ghost more: set<Node<V>>, ghost extra: set<Key>)
      requires Core(keys, more, Contents, extra) && keys == Contents.Keys
      requires node in treeNodes && node != treeRoot
      requires forall k | k in keys :: !(node.path <= k)
      requires forall n | n in treeNodes && node.path < n.path :: !n.isDataNode
      modifies this`tree, this`treeNodes, this`listHead, this`list, this`emptyHead, this`curAllocNum, this`pool,
               this`nodes, this`orphans, treeNodes`nextNodes, list`listNext, list`listPrev, node
      ensures Core(keys, more, Contents, extra) && nodes <= old(nodes)
      ensures tree == map p | p in old(tree) && !(old(node.path) <= p) :: old(tree)[p]
      ensures treeNodes == set n | n in old(treeNodes) && !(old(node.path) <= old(n.path))
      ensures orphans == old(orphans) + set n | n in old(treeNodes) && old(node.path) < old(n.path)
    {
      hide *;
      CoreElim(keys, more, Contents, extra);
      NodeFacts(node, keys, more, extra);
      ghost var i: nat :| i < |list| && list[i] == node;
      Cut(node, keys, more, extra);
      assert node !in treeNodes;
      Discard(node, i);
      assert TreeOk(keys, more, Contents, extra);
      PrunePlaced(node, i);
      CoreIntro(keys, more, Contents, extra);
    }

    /** Record what loses its way to the root. */
    ghost method Strand(node: Node<V>)
      requires ListsOk() && node in treeNodes
      requires forall n | n in treeNodes && node.path < n.path :: !n.isDataNode
      modifies this`orphans
      ensures ListsOk() && orphans == old(orphans) + set n | n in treeNodes && node.path < n.path
    {
      orphans := orphans + set n | n in treeNodes && node.path < n.path;
    }

    lemma NodeFacts(node: Node<V>, keys: set<Key>, more: set<Node<V>>, extra: set<Key>)
      requires Core(keys, more, Contents, extra) && node in treeNodes && node != treeRoot
      ensures node.treePrev != null && node.treePrev in treeNodes
      ensures node in list && curAllocNum > 0 && node !in pool && node !in orphans
      ensures node.path != [] && treeRoot.path == []
      ensures forall n | n in treeNodes && n.path == node.path :: n == node
      ensures forall j, k | 0 <= j < k < |list| :: list[j] != list[k]
      ensures forall n | n in treeNodes :: n !in pool
      ensures forall n | n in list :: n !in pool
    {
      assert UpLink(node);
    }

    twostate lemma PrunePlaced(node: Node<V>, new i: nat)
      requires old(Placed()) && treeRoot == old(treeRoot) && treeRoot in old(treeNodes) && old(treeRoot.path) == []
      requires node in old(treeNodes) && node != treeRoot && old(node.path) != []
      requires i < |old(list)| && old(list)[i] == node && list == old(list)[..i] + old(list)[i + 1..]
      requires forall j, k | 0 <= j < k < |old(list)| :: old(list)[j] != old(list)[k]
      requires forall n | n in old(treeNodes) && old(n.path) == old(node.path) :: n == node
      requires treeNodes == set n | n in old(treeNodes) && !(old(node.path) <= old(n.path))
      requires orphans == old(orphans) + set n | n in old(treeNodes) && old(node.path) < old(n.path)
      requires if old(curAllocNum) > old(preAllocNum)
        then nodes == old(nodes) - {node} && curAllocNum == old(curAllocNum) - 1 && pool == old(pool)
        else nodes == old(nodes) && curAllocNum == old(curAllocNum) && pool == old(pool) + [node]
      ensures Placed()
    {
      forall n | n in old(list) && n != node
        ensures n in list
      {
        var j :| 0 <= j < |old(list)| && old(list)[j] == n;
        assert j < i ==> list[j] == n;
        assert j > i ==> list[j - 1] == n;
      }
      forall n | n in list
        ensures n in old(list) && n != node
      {
        var j :| 0 <= j < |list| && list[j] == n;
        assert n == if j < i then old(list)[j] else old(list)[j + 1];
      }
    }

    lemma ListsIntro()
      requires ListShape() && PoolShape() && OrphansHoldNothing()
      ensures ListsOk()
    {
    }

    lemma ListsElim()
      requires ListsOk()
      ensures ListShape() && PoolShape() && OrphansHoldNothing()
    {
    }

    /** `map_del` first chains the nodes of the key, deepest first. */
    method Gather(key: Key) returns (head: Node?<V>, ghost way: seq<Node<V>>)
      requires Core(Contents.Keys, {}, Contents, {key}) && |key| == length && key in tree
      modifies nodes`tmp
      ensures Core(Contents.Keys, {}, Contents, {key})
      ensures OnWay(key, way) && Chained(way) && |way| == length && head == way[length - 1]
    {
      hide *;
      CoreElim(Contents.Keys, {}, Contents, {key});
      Start(key);
      var node := treeRoot;
      head, way := null, [];
      var n := 0;
      while n < length
        invariant 0 <= n <= length && |way| == n
        invariant Core(Contents.Keys, {}, Contents, {key})
        invariant Reached(key, way, node, head, tree)
      {
        LevelFacts(key, way, node, head, tree);
        StepFacts(key, n);
        KeyBelow(key, n);
        label Here:
        var t := node.nextNodes[key[n]];
        Hook(t, head, key);
        Lengthen@Here(way, key, node, head, t, tree);
        head := t;
        way := way + [t];
        node := t;
        n := n + 1;
      }
      LevelFacts(key, way, node, head, tree);
    }

    lemma KeyBelow(key: Key, n: nat)
      requires Core(Contents.Keys, {}, Contents, {key}) && n < |key| && key in tree
      ensures key[..n + 1] in tree && tree[key[..n + 1]] in treeNodes
        && tree[key[..n + 1] := tree[key[..n + 1]]] == tree
    {
      PathInTree(key, n + 1);
    }

    method Hook(t: Node<V>, head: Node?<V>, ghost key: Key)
      requires Core(Contents.Keys, {}, Contents, {key}) && t in treeNodes
      modifies t`tmp
      ensures Core(Contents.Keys, {}, Contents, {key}) && t.tmp == head
    {
      hide *;
      CoreElim(Contents.Keys, {}, Contents, {key});
      assert forall i | 0 <= i < |pool| :: pool[i] != t;
      t.tmp := head;
      assert TreeOk(Contents.Keys, {}, Contents, {key}) && Placed();
      assert ListsOk();
      CoreIntro(Contents.Keys, {}, Contents, {key});
    }

    /** The last node of a run counts one key less. */
    method Drop(node: Node<V>, ghost way: seq<Node<V>>, ghost key: Key)
      requires way != [] && node == way[|way| - 1] && node in treeNodes && node.refcnt > 0
      requires node !in Run(way[..|way| - 1])
      requires Core(Contents.Keys, Run(way), Contents, {key})
      modifies node`refcnt
      ensures Core(Contents.Keys, Run(way[..|way| - 1]), Contents, {key})
      ensures node.refcnt == Through(Contents.Keys, node.path)
    {
      hide Placed, TreeShape, Leaves, ListsOk;
      CoreElim(Contents.Keys, Run(way), Contents, {key});
      assert forall i | 0 <= i < |pool| :: pool[i] != node;
      assert Run(way) == Run(way[..|way| - 1]) + {node} by {
        assert way == way[..|way| - 1] + [node];
      }
      node.refcnt := node.refcnt - 1;
    }

    /** One step of the release: `way` is what is left of the chain. */
    method ReleaseOne(key: Key, node: Node<V>, ghost way: seq<Node<V>>) returns (next: Node?<V>)
      requires Core(Contents.Keys, Run(way), Contents, {key}) && |key| == length && key !in Contents
      requires OnWay(key, way) && Chained(way) && way != [] && node == way[|way| - 1]
      requires |way| < length ==> key !in tree
      modifies this`tree, this`treeNodes, this`listHead, this`list, this`emptyHead, this`curAllocNum, this`pool,
               this`nodes, this`orphans, nodes
      ensures var rest := way[..|way| - 1];
        && next == (if rest == [] then null else rest[|rest| - 1])
        && Core(Contents.Keys, Run(rest), Contents, {key}) && OnWay(key, rest) && Chained(rest)
      ensures key !in tree && nodes <= old(nodes) && treeNodes <= old(treeNodes)
      ensures forall n | n in treeNodes :: n.path == old(n.path)
      ensures forall n | n in old(treeNodes) ::
        n in treeNodes <==> !(key[..|way|] <= old(n.path) && Through(Contents.Keys, key[..|way|]) == 0)
      ensures orphans == old(orphans) + set n | n in old(treeNodes) && n !in treeNodes && key[..|way|] != old(n.path)
    {
      hide Core, Placed, TreeOk, ListsOk, TreeShape, Counted, Leaves;
      CoreElim(Contents.Keys, Run(way), Contents, {key});
      LastOfWay(key, way);
      Drop(node, way, key);
      CoreElim(Contents.Keys, Run(way[..|way| - 1]), Contents, {key});
      next := node.tmp;
      DeadFacts(key, node, way);
      if node.refcnt == 0 {
        Prune(node, Contents.Keys, Run(way[..|way| - 1]), {key});
      }
    }

    lemma LastOfWay(key: Key, way: seq<Node<V>>)
      requires Core(Contents.Keys, Run(way), Contents, {key}) && |key| == length && key !in Contents
      requires OnWay(key, way) && Chained(way) && way != []
      ensures var node, rest := way[|way| - 1], way[..|way| - 1];
        && node in treeNodes && node.refcnt > 0 && node !in Run(rest) && node != treeRoot
        && node.tmp == (if rest == [] then null else rest[|rest| - 1])
        && OnWay(key, rest) && Chained(rest) && node.path == key[..|way|]
        && (forall n | n in rest :: !(node.path <= n.path) && n != node)
    {
      hide Placed, ListsOk, Leaves;
      var node := way[|way| - 1];
      assert node in Run(way);
      forall i | 0 <= i < |way| - 1
        ensures !(node.path <= way[i].path)
      {
        assert |way[i].path| == i + 1;
      }
    }

    /** A node no stored key runs through carries no data below it, and nothing does for the full key. */
    lemma DeadFacts(key: Key, node: Node<V>, way: seq<Node<V>>)
      requires way != [] && |way| <= |key| == length && key !in Contents
      requires Core(Contents.Keys, Run(way[..|way| - 1]), Contents, {key})
      requires node == way[|way| - 1] && node in treeNodes && node.path == key[..|way|]
      requires node.refcnt == Through(Contents.Keys, node.path)
      requires |way| < length ==> key !in tree
      ensures node.refcnt == 0 ==>
        && (forall k | k in Contents.Keys :: !(node.path <= k))
        && (forall n | n in treeNodes && node.path < n.path :: !n.isDataNode)
      ensures node.refcnt != 0 ==> key !in tree
    {
      hide Placed, ListsOk;
      ThroughNone(Contents.Keys, node.path);
      if |way| == length {
        assert key[..length] == key;
        assert forall k | k in Contents.Keys :: key <= k ==> |k| == |key| && k == key;
      }
    }

    ghost function Paths(): map<Node<V>, Key>
      reads this`treeNodes, treeNodes`path
    {
      map n | n in treeNodes :: n.path
    }

    /** `map_del` walks the chain: every node passed counts one key less, and at zero it goes. */
    method Release(key: Key, head: Node?<V>, ghost way: seq<Node<V>>)
      requires Core(Contents.Keys, Run(way), Contents, {key}) && |key| == length > 0 && key !in Contents
      requires OnWay(key, way) && Chained(way) && |way| == length && head == way[length - 1]
      modifies this`tree, this`treeNodes, this`listHead, this`list, this`emptyHead, this`curAllocNum, this`pool,
               this`nodes, this`orphans, nodes
      ensures Core(Contents.Keys, Run([]), Contents, {key}) && key !in tree && nodes <= old(nodes)
      ensures orphans == old(orphans) + Stranded(old(Paths()), Contents.Keys, key, 0)
      ensures forall n | n in treeNodes ::
        n in old(treeNodes) && n.path == old(n.path) && !Dead(Contents.Keys, key, 0, n.path)
    {
      hide Core, OnWay, Chained, Run, Live, Stranded, Dead, Through, At;
      var node := head;
      ghost var rest := way;
      ghost var paths := Paths();
      NothingDead(paths, Contents.Keys, key);
      while node != null
        invariant |rest| <= length
        invariant node == if rest == [] then null else rest[|rest| - 1]
        invariant Core(Contents.Keys, Run(rest), Contents, {key}) && OnWay(key, rest) && Chained(rest)
        invariant nodes <= old(nodes) && (|rest| < length ==> key !in tree)
        invariant forall n | n in treeNodes :: n in paths && n.path == paths[n]
        invariant treeNodes == Live(paths, Contents.Keys, key, |rest|)
        invariant orphans == old(orphans) + Stranded(paths, Contents.Keys, key, |rest|)
        decreases |rest|
      {
        node := ReleaseOne(key, node, rest);
        ReleaseSets(paths, Contents.Keys, key, |rest|, treeNodes);
        rest := rest[..|rest| - 1];
      }
      LiveOnes(paths, Contents.Keys, key);
    }

    lemma LiveOnes(paths: map<Node<V>, Key>, keys: set<Key>, key: Key)
      ensures forall n | n in Live(paths, keys, key, 0) :: n in paths && !Dead(keys, key, 0, paths[n])
    {
    }

    lemma NothingDead(paths: map<Node<V>, Key>, keys: set<Key>, key: Key)
      ensures Live(paths, keys, key, |key|) == paths.Keys && Stranded(paths, keys, key, |key|) == {}
    {
    }

    /** The removed key no longer counts, but the nodes along it still do. */
    ghost method Forget(key: Key, way: seq<Node<V>>)
      requires Core(Contents.Keys, {}, Contents, {key}) && |key| == length > 0 && key in Contents
      requires OnWay(key, way) && |way| == length
      modifies this`Contents
      ensures Contents == old(Contents) - {key}
      ensures Core(Contents.Keys, Run(way), Contents, {key})
    {
      hide *;
      CoreElim(Contents.Keys, {}, Contents, {key});
      TreeElim(Contents.Keys, {}, Contents, {key});
      WayFacts(key, way);
      ForgetCounted(key, way);
      ForgetLeaves(key);
      Contents := Contents - {key};
      TreeIntro(Contents.Keys, Run(way), Contents, {key});
      CoreIntro(Contents.Keys, Run(way), Contents, {key});
    }

    lemma ForgetCounted(key: Key, way: seq<Node<V>>)
      requires Counted(Contents.Keys, {}) && key in Contents
      requires forall n | n in treeNodes :: n.path <= key <==> n in Run(way)
      ensures Counted((Contents - {key}).Keys, Run(way))
    {
      forall n | n in treeNodes
        ensures n.refcnt == Through((Contents - {key}).Keys, n.path) + if n in Run(way) then 1 else 0
      {
        ThroughAdd((Contents - {key}).Keys, key, n.path);
        assert (Contents - {key}).Keys + {key} == Contents.Keys;
      }
    }

    lemma ForgetLeaves(key: Key)
      requires Leaves(Contents, {key})
      ensures Leaves(Contents - {key}, {key})
    {
    }

    method DropRoot(ghost key: Key)
      requires Core(Contents.Keys, Run([]), Contents, {key}) && key !in tree && keyTotNum == |Contents| + 1
      modifies this`keyTotNum, treeRoot`refcnt
      ensures Valid()
    {
      hide *;
      CoreElim(Contents.Keys, Run([]), Contents, {key});
      TreeElim(Contents.Keys, Run([]), Contents, {key});
      RootCounted();
      assert forall j | 0 <= j < |pool| :: pool[j] != treeRoot;
      treeRoot.refcnt := treeRoot.refcnt - 1;
      keyTotNum := keyTotNum - 1;
      assert TreeShape() && Leaves(Contents, {key});
      assert Placed() && ListsOk();
      RootUncounted(Contents.Keys);
      TreeIntro(Contents.Keys, {}, Contents, {key});
      CoreIntro(Contents.Keys, {}, Contents, {key});
      Tighten(key);
    }

    lemma RootCounted()
      requires TreeShape() && Counted(Contents.Keys, Run([]))
      ensures treeRoot.refcnt > 0 && keyTotNum >= 0
    {
      assert treeRoot in Run([]);
    }

    twostate lemma RootUncounted(keys: set<Key>)
      requires old(Counted(keys, Run([]))) && treeNodes == old(treeNodes) && treeRoot == old(treeRoot)
      requires treeRoot.refcnt == old(treeRoot.refcnt) - 1
      requires forall n | n in treeNodes :: n.path == old(n.path) && (n != treeRoot ==> n.refcnt == old(n.refcnt))
      ensures Counted(keys, {})
    {
    }

    /** `map_del`: hand the removed data to the caller's callback. Nodes off the key that hung
        below a prefix used by no other key stay on the list but leave the tree. */
    method Del(key: Key) returns (removed: Option<V>)
      requires Valid() && |key| == length
      modifies this, nodes
      ensures Valid() && nodes <= old(nodes)
      ensures removed == if key in old(Contents) then Some(old(Contents)[key]) else None
      ensures Contents == old(Contents) - {key}
      ensures orphans == old(orphans) +
        if key in old(Contents) then Stranded(old(Paths()), Contents.Keys, key, 0) else {}
      ensures old(NoStubs()) ==> NoStubs()
    {
      hide *;
      var data, isFound := Find(key);
      if !isFound { return None; }
      Remove(key);
      if old(NoStubs()) {
        DelLeavesNoStubs(key);
      }
      return data;
    }

    /** The part of `map_del` after the lookup. */
    method Remove(key: Key)
      requires Valid() && |key| == length && key in Contents
      modifies this, nodes
      ensures Valid() && nodes <= old(nodes) && Contents == old(Contents) - {key} && treeRoot == old(treeRoot)
      ensures orphans == old(orphans) + Stranded(old(Paths()), Contents.Keys, key, 0)
      ensures forall n | n in treeNodes ::
        n in old(treeNodes) && n.path == old(n.path) && !Dead(Contents.Keys, key, 0, n.path)
    {
      hide *;
      Loosen(key);
      CoreElim(Contents.Keys, {}, Contents, {key});
      var head;
      ghost var way;
      head, way := Gather(key);
      Forget(key, way);
      Release(key, head, way);
      DropRoot(key);
    }

    // ---------- map_each ----------

    lemma KeyLength(key: Key)
      requires Valid() && key in Contents
      ensures |key| == length
    {
    }

    /** `map_each`: walk the list and visit the data nodes; every stored datum comes up once. */
    method Each() returns (visited: seq<V>, ghost keys: seq<Key>)
      requires Valid()
      ensures |visited| == |keys|
      ensures forall i | 0 <= i < |keys| :: keys[i] in Contents && visited[i] == Contents[keys[i]]
      ensures forall i, j | 0 <= i < j < |keys| :: keys[i] != keys[j]
      ensures forall k | k in Contents :: k in keys
    {
      hide Placed, TreeShape, Counted, Leaves, PoolShape, OrphansHoldNothing;
      visited, keys := [], [];
      var node := listHead;
      ghost var j := |list|;
      while node != null
        invariant 0 <= j <= |list| && node == At(list, j - 1)
        invariant |visited| == |keys|
        invariant forall i | 0 <= i < |keys| :: keys[i] in Contents && visited[i] == Contents[keys[i]]
        invariant forall i, l | 0 <= i < l < |keys| :: keys[i] != keys[l]
        invariant forall k | k in keys :: exists l {:trigger list[l]} | j <= l < |list| ::
          list[l] in treeNodes && list[l].path == k
        invariant forall l | j <= l < |list| && list[l].isDataNode :: list[l].path in keys
        decreases j
      {
        DataOnList(j - 1);
        if node.isDataNode {
          assert node.path !in keys;
          visited := visited + [node.data.value];
          keys := keys + [node.path];
          assert list[j - 1] in treeNodes && list[j - 1].path == node.path;
        }
        node := node.listNext;
        j := j - 1;
      }
      forall k | k in Contents
        ensures k in keys
      {
        KeyOnList(k);
      }
    }

    lemma DataOnList(j: nat)
      requires Valid() && j < |list|
      ensures list[j] in nodes
      ensures list[j].isDataNode ==>
        && list[j] in treeNodes && list[j].path in Contents && list[j].data == Some(Contents[list[j].path])
        && forall l | j < l < |list| && list[l] in treeNodes :: list[l].path != list[j].path
    {
    }

    lemma KeyOnList(key: Key)
      requires Valid() && key in Contents
      ensures exists l | 0 <= l < |list| :: list[l].isDataNode && list[l].path == key
    {
      var n := tree[key];
      assert n in treeNodes && n != treeRoot && n in list;
    }

    // ---------- when the list and the tree agree ----------

    /** No failed insertion has left a node that no key runs through. */
    ghost predicate NoStubs()
      reads this`treeRoot, this`treeNodes, treeNodes`refcnt
    {
      forall n | n in treeNodes && n != treeRoot :: n.refcnt > 0
    }

    /** What a deletion would strand are exactly the stubs below a prefix that no other key uses;
        so without stubs a deletion strands nothing. */
    lemma StrandedAreStubs(key: Key)
      requires Valid() && key in Contents
      ensures forall n :: n in Stranded(Paths(), (Contents - {key}).Keys, key, 0) <==>
        n in treeNodes && n.refcnt == 0 && Dead((Contents - {key}).Keys, key, 0, n.path)
      ensures NoStubs() ==> Stranded(Paths(), (Contents - {key}).Keys, key, 0) == {}
    {
      hide ListShape, PoolShape, Placed, OrphansHoldNothing, Dead, Through;
      var keys := (Contents - {key}).Keys;
      assert Contents.Keys == keys + {key};
      forall n | n in treeNodes
        ensures n in Stranded(Paths(), keys, key, 0) <==> n.refcnt == 0 && Dead(keys, key, 0, n.path)
      {
        if Dead(keys, key, 0, n.path) {
          StubOrUsed(keys, key, n.path);
        }
      }
      assert NoStubs() ==> forall n | n in treeNodes && n.refcnt == 0 :: n == treeRoot && n.path <= key;
    }

    /** With no failed insertion the list is the tree: insertions and deletions leave no stubs. */
    twostate lemma AddLeavesNoStubs(key: Key)
      requires old(Valid()) && Valid() && old(NoStubs())
      requires old(Contents.Keys) <= Contents.Keys && key in Contents
      requires forall p | p in tree :: p in old(tree) || p <= key
      ensures NoStubs()
    {
      hide ListShape, PoolShape, Placed, OrphansHoldNothing;
      forall n | n in treeNodes && n != treeRoot
        ensures n.refcnt > 0
      {
        ThroughNone(Contents.Keys, n.path);
        if n.path in old(tree) {
          ThroughNone(old(Contents.Keys), n.path);
        }
      }
    }

    twostate lemma DelLeavesNoStubs(key: Key)
      requires old(Valid()) && Valid() && old(NoStubs()) && treeRoot == old(treeRoot)
      requires |key| == length && Contents.Keys == old(Contents.Keys) - {key}
      requires forall n | n in treeNodes ::
        n in old(treeNodes) && n.path == old(n.path) && !Dead(Contents.Keys, key, 0, n.path)
      ensures NoStubs()
    {
      hide Valid, Dead, Through;
      Counts();
      forall n | n in treeNodes && n != treeRoot
        ensures n.refcnt > 0
      {
        StillUsed(n.path, key, old(Contents.Keys), Contents.Keys);
      }
    }

    /** What the counts say before and after. */
    twostate lemma Counts()
      requires old(Valid()) && Valid()
      ensures forall n | n in treeNodes ::
        n.refcnt == Through(Contents.Keys, n.path) && (n != treeRoot ==> n.path != [])
      ensures forall n | n in old(treeNodes) :: old(n.refcnt) == Through(old(Contents.Keys), old(n.path))
    {
      hide ListShape, PoolShape, Placed, OrphansHoldNothing, Leaves, Through;
    }
  }

  /** A run that ends with a node on the list that is no longer in the tree: the second insertion
      is granted one node of the two it needs, and then the only stored key goes. */
  method OrphanWitness() returns (m: Map<int>)
    ensures m.Valid() && m.Contents == map[] && m.orphans != {}
  {
    hide *;
    m := new Map<int>(3);
    var k1, k2: Key := [1, 2, 3], [1, 5, 6];
    WitnessNeeds(m.tree);
    var rs := m.Add(k1, 0, 3);
    WitnessTree(m);
    rs := m.Add(k2, 0, 1);
    assert k2[..2] == [1, 5];
    WitnessStranded(m);
    var removed := m.Del(k1);
  }

  lemma WitnessNeeds(t: map<Key, Node<int>>)
    ensures Missing(t, [1, 2, 3], 0) <= 3
  {
  }

  lemma WitnessTree(m: Map<int>)
    requires m.Valid() && m.length == 3 && m.Contents == map[[1, 2, 3] := 0]
    requires forall p | p in m.tree :: p == [] || p <= [1, 2, 3]
    ensures Missing(m.tree, [1, 5, 6], 0) == 2 && Missing(m.tree, [1, 5, 6], 2) == 1
  {
    hide m.Counted, m.ListsOk, m.Placed, Missing;
    var k1, k2: Key := [1, 2, 3], [1, 5, 6];
    m.PathInTree(k1, 1);
    assert k1[..1] == k2[..1];
    assert k2[..2][1] != k1[1] && k2[1] != k1[1];
    MissingTwo(m.tree, k2);
  }

  lemma MissingTwo(t: map<Key, Node<int>>, key: Key)
    requires |key| == 3 && key[..1] in t && key[..2] !in t && key !in t
    ensures Missing(t, key, 0) == 2 && Missing(t, key, 2) == 1
  {
    assert key[..3] == key;
    assert Missing(t, key, 3) == 0 && Missing(t, key, 2) == 1 && Missing(t, key, 1) == 2;
  }

  lemma WitnessStranded(m: Map<int>)
    requires m.Valid() && m.length == 3 && m.Contents == map[[1, 2, 3] := 0] && [1, 5] in m.tree
    ensures Stranded(m.Paths(), (m.Contents - {[1, 2, 3]}).Keys, [1, 2, 3], 0) != {}
  {
    hide m.Leaves, m.Counted, m.ListsOk, m.Placed;
    var key: Key, none: set<Key> := [1, 2, 3], (m.Contents - {[1, 2, 3]}).Keys;
    assert none == {};
    ThroughNone(none, key[..1]);
    assert key[..1] <= [1, 5];
    var n := m.tree[[1, 5]];
    assert n.path == [1, 5] && n.path[1] != key[1];
    assert Dead(none, key, 0, n.path);
    assert n in Stranded(m.Paths(), none, key, 0);
  }
}
