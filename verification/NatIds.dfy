/** The NAT ID allocator of `nat.c`: a singly linked free list behind a counter of fresh IDs. */
module NatIds {
  import opened Bytes

  class NatId {
    var next: NatId?
    const id: Word
    const netId: Word := Swap(id)

    constructor (id: Word)
      ensures this.id == id && next == null
    {
      this.id, next := id, null;
    }
  }

  ghost function At(s: seq<NatId>, i: int): NatId? {
    if 0 <= i < |s| then s[i] else null
  }

  /** The highest entry below n that the port map leaves alone, or -1; the head is the last entry. */
  ghost function Usable(free: seq<NatId>, n: nat, mapped: Word -> bool): int
    requires n <= |free|
    ensures -1 <= Usable(free, n, mapped) < n
    ensures Usable(free, n, mapped) >= 0 ==> !mapped(free[Usable(free, n, mapped)].id)
    ensures forall i | Usable(free, n, mapped) < i < n :: mapped(free[i].id)
  {
    if n == 0 then -1 else if !mapped(free[n - 1].id) then n - 1 else Usable(free, n - 1, mapped)
  }

  class IdSet {
    var head: NatId?
    const idMin: Word
    const idMax: Word
    var curId: nat

    // the free list, from the oldest entry to the head, and every ID handed out so far
    ghost var free: seq<NatId>
    ghost var minted: seq<NatId>

    ghost predicate Valid()
      reads this, free
    {
      && 0 < idMin as int <= curId <= idMax + 1 && idMax < 0xffff
      && |minted| == curId - idMin && Numbered()
      && FreeList()
    }

    ghost predicate Numbered()
      reads this`minted
    {
      forall k | 0 <= k < |minted| :: minted[k].id as int == idMin as int + k
    }

    ghost predicate FreeList()
      reads this`head, this`free, this`minted, free`next
    {
      Linked() && Members()
    }

    ghost predicate Linked()
      reads this`head, this`free, free`next
    {
      && head == At(free, |free| - 1)
      && (forall i {:trigger free[i].next} | 0 <= i < |free| :: free[i].next == At(free, i - 1))
    }

    ghost predicate Members()
      reads this`free, this`minted
    {
      && (forall i | 0 <= i < |free| :: Minted(free[i]))
      && (forall i, j | 0 <= i < j < |free| :: free[i] != free[j])
    }

    ghost predicate Minted(n: NatId)
      reads this`minted
    {
      idMin <= n.id && n.id - idMin < |minted| && minted[n.id - idMin] == n
    }

    constructor (idMin: Word, idMax: Word)
      requires 0 < idMin < idMax < 0xffff
      ensures Valid() && free == [] && minted == [] && curId == idMin && this.idMin == idMin && this.idMax == idMax
    {
      head, this.idMin, this.idMax, curId := null, idMin, idMax, idMin;
      free, minted := [], [];
    }

    /** `ixc_nat_id_get`: the first free ID that no port mapping claims, else a fresh one. */
    method Get(mapped: Word -> bool, grant: bool) returns (id: NatId?)
      requires Valid()
      modifies this, free`next
      ensures Valid()
      ensures var u := Usable(old(free), |old(free)|, mapped); u >= 0 ==>
        && id == old(free)[u] && free == old(free)[..u] + old(free)[u + 1..]
        && minted == old(minted) && curId == old(curId)
      ensures Usable(old(free), |old(free)|, mapped) < 0 && (old(curId) > idMax || !grant) ==>
        id == null && unchanged(this) && unchanged(free)
      ensures Usable(old(free), |old(free)|, mapped) < 0 && old(curId) <= idMax && grant ==>
        && id != null && fresh(id) && id.id == old(curId) && curId == old(curId) + 1
        && minted == old(minted) + [id] && free == old(free)
      ensures id != null ==> Gave(id)
    {
      hide *;
      id := Take(mapped);
      if id == null && curId <= idMax && grant {
        id := Mint();
        GaveMinted(id);
      }
    }

    /** One ID left the set, from the free list or from the counter; all others are as they were. */
    twostate predicate Gave(new id: NatId)
      reads this, free
    {
      && Valid() && Minted(id) && id in minted && id !in free && (id in old(free) || !old(allocated(id)))
      && (forall n | n in minted :: n in old(minted) || n == id)
      && (forall n | n in old(minted) :: n in minted)
      && (forall n | n in free :: n in old(free))
      && (forall n | n in old(free) && n != id :: n in free)
    }

    twostate lemma GaveUsable(new id: NatId, new u: nat)
      requires old(Valid()) && Valid() && u < |old(free)| && Minted(id)
      requires id == old(free)[u] && free == old(free)[..u] + old(free)[u + 1..] && minted == old(minted)
      ensures Gave(id)
    {
      assert id in minted by {
        assert minted[id.id - idMin] == id;
      }
      assert id !in free by {
        assert old(FreeList());
      }
      forall n | n in old(free) && n != id
        ensures n in free
      {
        var i :| 0 <= i < |old(free)| && old(free)[i] == n;
        assert i < u ==> free[i] == n;
        assert i > u ==> free[i - 1] == n;
      }
    }

    twostate lemma GaveMinted(new id: NatId)
      requires old(Valid()) && Valid() && fresh(id) && Minted(id) && minted == old(minted) + [id] && free == old(free)
      ensures Gave(id)
    {
      assert minted[|old(minted)|] == id;
    }

    /** A fresh ID from the counter. */
    method Mint() returns (id: NatId)
      requires Valid() && curId <= idMax
      modifies this`minted, this`curId
      ensures Valid() && fresh(id) && Minted(id)
      ensures id.id == old(curId) && curId == old(curId) + 1 && minted == old(minted) + [id]
    {
      id := new NatId(curId);
      minted := minted + [id];
      curId := curId + 1;
    }

    /** The search of `ixc_nat_id_get`: skip what the port map claims, unlink the first other ID. */
    method Take(mapped: Word -> bool) returns (id: NatId?)
      requires Valid()
      modifies this`head, this`free, free`next
      ensures Valid()
      ensures var u := Usable(old(free), |old(free)|, mapped);
        if u >= 0 then id == old(free)[u] && Gave(id) && free == old(free)[..u] + old(free)[u + 1..]
        else id == null && unchanged(this) && unchanged(free)
    {
      id := head;
      var prev := id;
      var n := 0;
      while id != null
        invariant 0 <= n <= |free| && id == At(free, |free| - n - 1)
        invariant n > 0 ==> prev == free[|free| - n]
        invariant Usable(free, |free|, mapped) == Usable(free, |free| - n, mapped)
        invariant FreeList() && unchanged(this) && unchanged(free)
        decreases |free| - n
      {
        if mapped(id.id) {
          prev := id;
          id := id.next;
          n := n + 1;
          continue;
        }
        Unlink(id, prev, n);
        GaveUsable(id, |old(free)| - n - 1);
        return;
      }
    }

    /** Take the entry n steps from the head off the list; `prev` is the one before it. */
    method Unlink(id: NatId, prev: NatId?, n: nat)
      requires FreeList() && n < |free| && id == free[|free| - n - 1] && (n > 0 ==> prev == free[|free| - n])
      modifies this`head, this`free, free`next
      ensures FreeList() && Minted(id)
      ensures var u := |old(free)| - n - 1; free == old(free)[..u] + old(free)[u + 1..]
    {
      hide *;
      ghost var u := |free| - n - 1;
      Links(u);
      if n == 0 {
        head := id.next;
      } else {
        prev.next := id.next;
      }
      id.next := null;
      free := free[..u] + free[u + 1..];
      Unlinked(u);
    }

    lemma Links(u: nat)
      requires FreeList() && u < |free|
      ensures free[u].next == At(free, u - 1) && Minted(free[u])
      ensures forall i | 0 <= i < |free| && i != u :: free[i] != free[u]
      ensures u + 1 < |free| ==> forall i | 0 <= i < |free| && i != u + 1 :: free[i] != free[u + 1]
    {
    }

    twostate lemma Unlinked(u: nat)
      requires old(FreeList()) && u < |old(free)| && free == old(free)[..u] + old(free)[u + 1..]
        && minted == old(minted)
      requires head == if u + 1 == |old(free)| then At(old(free), u - 1) else old(head)
      requires u + 1 < |old(free)| ==> old(free)[u + 1].next == At(old(free), u - 1)
      requires forall i | 0 <= i < |old(free)| && i != u && i != u + 1 :: old(free)[i].next == old(free[i].next)
      ensures FreeList()
    {
      hide Linked, Members, Minted;
      UnlinkedMembers(u);
      UnlinkedChain(u);
    }

    twostate lemma UnlinkedMembers(u: nat)
      requires old(Members()) && u < |old(free)| && free == old(free)[..u] + old(free)[u + 1..] && minted == old(minted)
      ensures Members()
    {
    }

    twostate lemma UnlinkedChain(u: nat)
      requires old(Linked()) && u < |old(free)| && free == old(free)[..u] + old(free)[u + 1..]
      requires head == if u + 1 == |old(free)| then At(old(free), u - 1) else old(head)
      requires u + 1 < |old(free)| ==> old(free)[u + 1].next == At(old(free), u - 1)
      requires forall i | 0 <= i < |old(free)| && i != u && i != u + 1 :: old(free)[i].next == old(free[i].next)
      ensures Linked()
    {
      var was := old(free);
      forall i | 0 <= i < |free|
        ensures free[i].next == At(free, i - 1)
      {
        var j := if i < u then i else i + 1;
        assert free[i] == was[j];
        assert i > 0 ==> free[i - 1] == was[if i - 1 < u then i - 1 else i];
        assert old(was[j].next) == At(was, j - 1);
      }
    }

    /** `ixc_nat_id_put`: an ID outside the range is dropped, any other goes to the head of the list. */
    method Put(id: NatId)
      requires Valid() && Minted(id) && id !in free
      modifies this, id`next
      ensures Valid() && free == old(free) + [id] && minted == old(minted) && curId == old(curId)
    {
      if id.id < idMin || id.id > idMax { return; }
      id.next := head;
      head := id;
      free := free + [id];
    }
  }
}
