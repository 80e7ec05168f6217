/** The list of prefix lengths in use, from `ixc_syscore/router/src/route.c`: longest first, each
    with the number of routes of that length. */
module Prefixes {
  import opened Bytes
  import opened Subnets

  class Prefix {
    var next: Prefix?
    var refcnt: nat
    const prefix: Byte
    const mask: Address

    constructor (prefix: Byte, mask: Address)
      ensures next == null && refcnt == 1 && this.prefix == prefix && this.mask == mask
    {
      next, refcnt, this.prefix, this.mask := null, 1, prefix, mask;
    }
  }

  ghost function At(s: seq<Prefix>, i: int): Prefix? {
    if 0 <= i < |s| then s[i] else null
  }

  class PrefixList {
    const width: nat
    var head: Prefix?

    ghost var list: seq<Prefix>
    ghost var nodes: set<Prefix>
    // the prefix lengths of all routes
    ghost var lens: multiset<Byte>

    ghost predicate Linked()
      reads this`head, this`list, list`next
    {
      && head == At(list, 0)
      && (forall i {:trigger list[i].next} | 0 <= i < |list| :: list[i].next == At(list, i + 1))
    }

    ghost predicate Descending()
      reads this`list
    {
      && (forall i, j | 0 <= i < j < |list| :: list[i].prefix > list[j].prefix)
      && (forall i | 0 <= i < |list| ::
            list[i].prefix <= 8 * width && |list[i].mask| == width && IsMask(list[i].mask, list[i].prefix))
    }

    ghost predicate Counted()
      reads this`list, this`lens, list`refcnt
    {
      && (forall i {:trigger list[i].refcnt} | 0 <= i < |list| ::
        list[i].refcnt == lens[list[i].prefix] && list[i].refcnt > 0)
      && (forall b | b in lens :: Listed(b))
    }

    ghost predicate Listed(prefix: Byte)
      reads this`list
    {
      exists i :: 0 <= i < |list| && list[i].prefix == prefix
    }

    ghost predicate Valid()
      reads this, nodes
    {
      (forall i | 0 <= i < |list| :: list[i] in nodes) && Linked() && Descending() && Counted()
    }

    constructor (width: nat)
      ensures Valid() && this.width == width && lens == multiset{} && list == [] && nodes == {}
    {
      this.width, head, list, nodes, lens := width, null, [], {}, multiset{};
    }

    method Search(prefix: Byte) returns (p: Prefix?, ghost n: nat)
      requires Valid()
      ensures if p == null then !Listed(prefix) && prefix !in lens
              else n < |list| && list[n] == p && p.prefix == prefix && prefix in lens
      ensures p == null && head != null ==> head.prefix != prefix && forall i | 0 <= i < |list| ::
        list[i].prefix != prefix
    {
      p, n := head, 0;
      while p != null
        invariant 0 <= n <= |list| && p == At(list, n)
        invariant forall i | 0 <= i < n :: list[i].prefix != prefix
        decreases |list| - n
      {
        if p.prefix == prefix {
          assert list[n].refcnt > 0;
          return;
        }
        p := p.next;
        n := n + 1;
      }
    }

    /** `ixc_route_prefix_add`. */
    method Add(prefix: Byte, grant: bool) returns (rs: int)
      requires Valid() && prefix <= 8 * width
      modifies this`head, this`list, this`lens, this`nodes, nodes
      ensures Valid() && fresh(nodes - old(nodes))
      ensures rs == (if prefix in old(lens) || grant then 0 else -1)
      ensures lens == if rs == 0 then old(lens) + multiset{prefix} else old(lens)
    {
      hide *;
      ValidElim();
      var p;
      ghost var n;
      p, n := Search(prefix);
      if p != null {
        Bump(p, n);
        return 0;
      }
      if !grant { return -1; }
      var t := Make(prefix);
      HeadLongest();
      if head == null || prefix > head.prefix {
        InFront(t);
        return 0;
      }
      var after;
      ghost var k;
      after, k := LastLonger(prefix);
      Behind(t, after, k);
      return 0;
    }

    method Make(prefix: Byte) returns (t: Prefix)
      requires prefix <= 8 * width
      ensures fresh(t) && Sized(t) && t.prefix == prefix && t.refcnt == 1
    {
      var msk := new Byte[width];
      var _ := MskCalc(prefix, msk);
      t := new Prefix(prefix, msk[..]);
    }

    lemma HeadLongest()
      requires Valid()
      ensures head == null <==> list == []
      ensures head != null ==> forall i | 0 <= i < |list| :: list[i].prefix <= head.prefix
      ensures Linked() && Descending()
    {
    }

    /** One more route of a length that is in use. */
    method Bump(p: Prefix, ghost n: nat)
      requires Valid() && n < |list| && list[n] == p
      modifies this`lens, p`refcnt
      ensures Valid() && lens == old(lens) + multiset{p.prefix}
    {
      p.refcnt := p.refcnt + 1;
      lens := lens + multiset{p.prefix};
    }

    /** The last entry longer than `prefix`: the code walks the whole list. */
    method LastLonger(prefix: Byte) returns (old0: Prefix, ghost k: nat)
      requires Linked() && Descending() && head != null && prefix < head.prefix
      ensures k < |list| && old0 == list[k] && prefix < old0.prefix
      ensures forall i | k < i < |list| :: list[i].prefix <= prefix
    {
      var t: Prefix? := head;
      old0, k := head, 0;
      ghost var n := 0;
      while t != null
        invariant 0 <= n <= |list| && t == At(list, n) && k < |list| && old0 == list[k] && prefix < old0.prefix
        invariant forall i | k < i < n :: list[i].prefix <= prefix
        decreases |list| - n
      {
        if prefix < t.prefix {
          old0, k := t, n;
        }
        t := t.next;
        n := n + 1;
      }
    }

    ghost predicate Sized(t: Prefix) {
      t.prefix <= 8 * width && |t.mask| == width && IsMask(t.mask, t.prefix)
    }

    method InFront(t: Prefix)
      requires Valid() && Sized(t) && t !in list && t.refcnt == 1 && t.prefix !in lens
      requires forall i | 0 <= i < |list| :: list[i].prefix < t.prefix
      modifies this`head, this`list, this`lens, this`nodes, t`next
      ensures Valid() && nodes == old(nodes) + {t} && list == [t] + old(list) && lens == old(lens) + multiset{t.prefix}
    {
      hide *;
      ValidElim();
      t.next := head;
      head := t;
      list := [t] + list;
      lens := lens + multiset{t.prefix};
      nodes := nodes + {t};
      assert list == old(list)[..0] + [t] + old(list)[0..];
      Joined(t, 0);
      ValidIntro();
    }

    method Behind(t: Prefix, after: Prefix, ghost k: nat)
      requires Valid() && Sized(t) && t !in list && t.refcnt == 1 && t.prefix !in lens
      requires k < |list| && after == list[k] && t.prefix < after.prefix
      requires forall i | k < i < |list| :: list[i].prefix < t.prefix
      modifies this`list, this`lens, this`nodes, t`next, after`next
      ensures Valid() && nodes == old(nodes) + {t} && list == old(list)[..k + 1] + [t] + old(list)[k + 1..]
        && lens == old(lens) + multiset{t.prefix}
    {
      hide *;
      ValidElim();
      NextOf(k);
      t.next := after.next;
      after.next := t;
      list := list[..k + 1] + [t] + list[k + 1..];
      lens := lens + multiset{t.prefix};
      nodes := nodes + {t};
      Joined(t, k + 1);
      ValidIntro();
    }

    lemma NextOf(k: nat)
      requires Valid() && k < |list|
      ensures list[k].next == At(list, k + 1) && forall i | 0 <= i <= k :: list[i].prefix >= list[k].prefix
      ensures forall i | 0 <= i < |list| && i != k :: list[i] != list[k]
    {
    }

    lemma ValidElim()
      requires Valid()
      ensures Linked() && Descending() && Counted() && head == At(list, 0) && forall i | 0 <= i < |list| ::
        list[i] in nodes
    {
    }

    lemma ValidIntro()
      requires (forall i | 0 <= i < |list| :: list[i] in nodes) && Linked() && Descending() && Counted()
      ensures Valid()
    {
    }

    /** An entry of a new length joins the list at position k. */
    twostate lemma Joined(new t: Prefix, new k: nat)
      requires old(allocated(t)) && k <= |old(list)| && list == old(list)[..k] + [t] + old(list)[k..]
      requires old(Linked()) && old(Descending()) && old(Counted())
      requires t !in old(list) && Sized(t) && t.prefix !in old(lens) && t.refcnt == 1
        && lens == old(lens) + multiset{t.prefix}
      requires forall i | 0 <= i < k :: old(list)[i].prefix > t.prefix
      requires forall i | k <= i < |old(list)| :: old(list)[i].prefix < t.prefix
      requires head == (if k == 0 then t else old(head)) && t.next == At(old(list), k)
      requires k > 0 ==> old(list)[k - 1].next == t
      requires forall i | 0 <= i < |old(list)| :: i != k - 1 ==> old(list)[i].next == old(list[i].next)
      requires forall i | 0 <= i < |old(list)| :: old(list)[i].refcnt == old(list[i].refcnt)
      ensures Linked() && Descending() && Counted()
    {
      hide *;
      JoinedLinks(t, k);
      JoinedOrder(t, k);
      JoinedCount(t, k);
    }

    twostate lemma JoinedLinks(new t: Prefix, new k: nat)
      requires old(allocated(t)) && k <= |old(list)| && list == old(list)[..k] + [t] + old(list)[k..]
      requires old(Linked()) && head == (if k == 0 then t else old(head)) && t.next == At(old(list), k)
      requires k > 0 ==> old(list)[k - 1].next == t
      requires forall i | 0 <= i < |old(list)| :: i != k - 1 ==> old(list)[i].next == old(list[i].next)
      ensures Linked()
    {
    }

    twostate lemma JoinedOrder(new t: Prefix, new k: nat)
      requires k <= |old(list)| && list == old(list)[..k] + [t] + old(list)[k..] && old(Descending()) && Sized(t)
      requires forall i | 0 <= i < k :: old(list)[i].prefix > t.prefix
      requires forall i | k <= i < |old(list)| :: old(list)[i].prefix < t.prefix
      ensures Descending()
    {
    }

    twostate lemma JoinedCount(new t: Prefix, new k: nat)
      requires k <= |old(list)| && list == old(list)[..k] + [t] + old(list)[k..]
        && lens == old(lens) + multiset{t.prefix}
      requires old(Counted()) && t.prefix !in old(lens) && t.refcnt == 1
      requires forall i | 0 <= i < |old(list)| :: old(list)[i].refcnt == old(list[i].refcnt)
      ensures Counted()
    {
      assert list[k] == t;
      forall b | b in lens
        ensures Listed(b)
      {
        if b != t.prefix {
          var i :| 0 <= i < |old(list)| && old(list)[i].prefix == b;
          assert list[if i < k then i else i + 1].prefix == b;
        }
      }
    }

    /** `ixc_route_prefix_del`. */
    method Del(prefix: Byte)
      requires Valid()
      modifies this`head, this`list, this`lens, nodes
      ensures Valid() && lens == old(lens) - multiset{prefix}
    {
      hide *;
      var p;
      ghost var n;
      p, n := Search(prefix);
      if p == null { return; }
      ValidElim();
      if p.refcnt != 1 {
        Drop(p, n);
        return;
      }
      Unlink(prefix, n);
      lens := lens - multiset{prefix};
      LeftCount(n);
      LeftOrder(n);
      ValidIntro();
    }

    /** Take the entry out of the chain, from the front or by a second walk. */
    method Unlink(prefix: Byte, ghost n: nat)
      requires Linked() && Descending() && n < |list| && list[n].prefix == prefix
      modifies this`head, this`list, list`next
      ensures Linked() && list == old(list)[..n] + old(list)[n + 1..]
    {
      if prefix == head.prefix {
        head := head.next;
        list := list[1..];
        return;
      }
      var t := head;
      var p := t.next;
      ghost var k := 1;
      while p != null && p.prefix != prefix
        invariant 1 <= k <= n && t == list[k - 1] && p == list[k]
        decreases |list| - k
      {
        t := p;
        p := p.next;
        k := k + 1;
      }
      t.next := p.next;
      list := list[..n] + list[n + 1..];
    }

    /** A length that is no longer in use leaves the count. */
    twostate lemma LeftCount(n: nat)
      requires n < |old(list)| && list == old(list)[..n] + old(list)[n + 1..]
      requires old(Counted()) && old(Descending()) && lens == old(lens) - multiset{old(list)[n].prefix}
      requires old(list)[n].refcnt == 1
      requires forall i | 0 <= i < |old(list)| :: old(list)[i].refcnt == old(list[i].refcnt)
      ensures Counted()
    {
      forall b | b in lens
        ensures Listed(b)
      {
        var i :| 0 <= i < |old(list)| && old(list)[i].prefix == b;
        assert old(list[n].refcnt) == 1;
        assert i != n;
        assert list[if i < n then i else i - 1].prefix == b;
      }
    }

    twostate lemma LeftOrder(n: nat)
      requires n < |old(list)| && list == old(list)[..n] + old(list)[n + 1..] && old(Descending())
      ensures Descending()
    {
    }

    method Drop(p: Prefix, ghost n: nat)
      requires Valid() && n < |list| && list[n] == p && p.refcnt > 1
      modifies this`lens, p`refcnt
      ensures Valid() && lens == old(lens) - multiset{p.prefix}
    {
      p.refcnt := p.refcnt - 1;
      lens := lens - multiset{p.prefix};
    }
  }
}
