/**
 The singly-linked tail queue of queue.h: each macro is proved to be an
 operation on the sequence of elements, and to keep the tail pointer right.
 */
module Stailq {

  class Elem {
    var next: Elem?  // field.stqe_next

    constructor ()
      ensures next == null
    {
      next := null;
    }
  }

  /** A `struct type **`: the head's stqh_first, some element's stqe_next, or not yet set. */
  datatype Slot = Unset | FirstOf(q: Queue) | NextOf(e: Elem)

  ghost predicate Linked(s: seq<Elem>)
    reads s`next
  {
    forall i {:trigger s[i].next} | 0 <= i < |s| - 1 :: s[i].next == s[i + 1]
  }

  ghost predicate Distinct(s: seq<Elem>) {
    forall i, j | 0 <= i < j < |s| :: s[i] != s[j]
  }

  ghost predicate Disjoint(a: seq<Elem>, b: seq<Elem>) {
    forall i, j | 0 <= i < |a| && 0 <= j < |b| :: a[i] != b[j]
  }

  /** Linking `elm` behind element `k` is all an insertion has to do. */
  lemma LinkAfter(s: seq<Elem>, k: nat, elm: Elem, t: seq<Elem>)
    requires k < |s| && t == s[..k + 1] + [elm] + s[k + 1..] && elm !in s
    requires s[k].next == elm && elm.next == (if k + 1 < |s| then s[k + 1] else null)
    requires forall i {:trigger s[i].next} | 0 <= i < |s| - 1 && i != k :: s[i].next == s[i + 1]
    ensures Linked(t)
  {
    forall i | 0 <= i < |t| - 1
      ensures t[i].next == t[i + 1]
    {
      if i > k + 1 {
        assert t[i] == s[i - 1] && t[i + 1] == s[i];
        assert s[i - 1].next == s[i];
      } else if i < k {
        assert s[i].next == s[i + 1];
      }
    }
  }

  function Last(s: seq<Elem>): Elem
    requires s != []
  {
    s[|s| - 1]
  }

  class Queue {
    var first: Elem?  // stqh_first
    var last: Slot    // stqh_last
    ghost var elems: seq<Elem>

    ghost predicate Valid()
      reads this, elems`next
    {
      && Distinct(elems) && Linked(elems)
      && first == (if elems == [] then null else elems[0])
      && last == (if elems == [] then FirstOf(this) else NextOf(Last(elems)))
      && (elems != [] ==> Last(elems).next == null)
    }

    /** STAILQ_INIT. */
    constructor ()
      ensures Valid() && elems == []
    {
      first, last, elems := null, Unset, [];
      new;
      last := FirstOf(this);
    }

    /** `*slot = x` for this queue's own tail slot. */
    method StoreLast(x: Elem?)
      requires Valid()
      modifies if elems == [] then {this} else {Last(elems)}
      ensures elems == old(elems) && last == old(last)
      ensures if elems == [] then first == x else Last(elems).next == x && first == old(first)
    {
      if last.FirstOf? {
        last.q.first := x;
      } else {
        last.e.next := x;
      }
    }

    /** STAILQ_INSERT_HEAD. */
    method InsertHead(elm: Elem)
      requires Valid() && elm !in elems
      modifies this, elm
      ensures Valid() && elems == [elm] + old(elems)
    {
      elm.next := first;
      if elm.next == null {
        last := NextOf(elm);
      }
      first := elm;
      elems := [elm] + elems;
    }

    /** STAILQ_INSERT_TAIL. */
    method InsertTail(elm: Elem)
      requires Valid() && elm !in elems
      modifies this, elm, if elems == [] then {} else {Last(elems)}
      ensures Valid() && elems == old(elems) + [elm]
    {
      elm.next := null;
      StoreLast(elm);
      last := NextOf(elm);
      elems := elems + [elm];
    }

    /** STAILQ_INSERT_AFTER, where `tqelm` is element `k`. */
    method InsertAfter(tqelm: Elem, elm: Elem, ghost k: nat)
      requires Valid() && elm !in elems && k < |elems| && elems[k] == tqelm
      modifies this, tqelm, elm
      ensures Valid() && elems == old(elems[..k + 1]) + [elm] + old(elems[k + 1..])
    {
      ghost var s := elems;
      elm.next := tqelm.next;
      if elm.next == null {
        last := NextOf(elm);
      }
      tqelm.next := elm;
      elems := s[..k + 1] + [elm] + s[k + 1..];
      assert forall i | 0 <= i < |s| :: s[i] == elems[if i <= k then i else i + 1];
      LinkAfter(s, k, elm, elems);
    }

    /** STAILQ_REMOVE_HEAD. */
    method RemoveHead()
      requires Valid() && elems != []
      modifies this
      ensures Valid() && elems == old(elems[1..])
    {
      first := first.next;
      if first == null {
        last := FirstOf(this);
      }
      elems := elems[1..];
    }

    /** STAILQ_REMOVE_AFTER, where `elm` is element `k`. */
    method RemoveAfter(elm: Elem, ghost k: nat)
      requires Valid() && k + 1 < |elems| && elems[k] == elm
      modifies this, elm
      ensures Valid() && elems == old(elems[..k + 1]) + old(elems[k + 2..])
    {
      elm.next := elm.next.next;
      if elm.next == null {
        last := NextOf(elm);
      }
      elems := elems[..k + 1] + elems[k + 2..];
    }

    /** STAILQ_REMOVE: the search ends because the element is in the queue. */
    method Remove(elm: Elem)
      requires Valid() && elm in elems
      modifies this, elems
      ensures Valid() && exists k: nat | k < |old(elems)| ::
        old(elems)[k] == elm && elems == old(elems)[..k] + old(elems)[k + 1..]
    {
      ghost var all := elems;
      if first == elm {
        RemoveHead();
        assert elems == all[..0] + all[1..];
      } else {
        var curelm := first;
        ghost var k := 0;
        while curelm.next != elm
          invariant Valid() && elems == all && k < |all| && all[k] == curelm
          invariant elm !in all[..k + 1]
          decreases |all| - k
        {
          assert all[..k + 2] == all[..k + 1] + [all[k + 1]];
          curelm := curelm.next;
          k := k + 1;
        }
        RemoveAfter(curelm, k);
        assert elems == all[..k + 1] + all[k + 2..];
      }
    }

    /** STAILQ_CONCAT. */
    method Concat(q: Queue)
      requires Valid() && q.Valid() && q != this
      requires Disjoint(elems, q.elems)
      modifies this, q, if elems == [] then {} else {Last(elems)}
      ensures Valid() && q.Valid() && elems == old(elems + q.elems) && q.elems == []
    {
      if q.first != null {
        StoreLast(q.first);
        last := q.last;
        elems := elems + q.elems;
        q.first := null;
        q.last := FirstOf(q);
        q.elems := [];
      }
    }

    /** STAILQ_SWAP; a queue may be swapped with itself. */
    method Swap(q: Queue)
      requires Valid() && q.Valid()
      modifies this, q
      ensures Valid() && q.Valid() && elems == old(q.elems) && q.elems == old(elems)
    {
      var swapFirst, swapLast := first, last;
      ghost var swapElems := elems;
      first, elems := q.first, q.elems;
      last := q.last;
      q.first, q.elems := swapFirst, swapElems;
      q.last := swapLast;
      if first == null {
        last := FirstOf(this);
      }
      if q.first == null {
        q.last := FirstOf(q);
      }
    }

    /** STAILQ_INSERT_CHAIN_HEAD of the linked elements `chain`. */
    method InsertChainHead(chead: Elem, ctail: Elem, ghost chain: seq<Elem>)
      requires Valid() && chain != [] && chain[0] == chead && Last(chain) == ctail
      requires Linked(chain) && Distinct(chain) && Disjoint(chain, elems)
      modifies this, ctail
      ensures Valid() && elems == chain + old(elems)
    {
      ctail.next := first;
      if ctail.next == null {
        last := NextOf(ctail);
      }
      first := chead;
      elems := chain + elems;
    }

    /** Inserting after an element and removing again restores the queue and its tail pointer. */
    method InsertThenRemove(tqelm: Elem, elm: Elem, ghost k: nat)
      requires Valid() && elm !in elems && k < |elems| && elems[k] == tqelm
      modifies this, tqelm, elm
      ensures Valid() && elems == old(elems) && first == old(first) && last == old(last)
    {
      InsertAfter(tqelm, elm, k);
      RemoveAfter(tqelm, k);
      assert elems == old(elems);
    }

    /** Move the first element of the other queue to the end of this one. */
    method MoveFirst(q: Queue)
      requires Valid() && q.Valid() && q != this && Disjoint(elems, q.elems) && q.elems != []
      modifies this, q, q.elems[0], if elems == [] then {} else {Last(elems)}
      ensures Valid() && q.Valid() && Disjoint(elems, q.elems)
      ensures elems == old(elems + [q.elems[0]]) && q.elems == old(q.elems[1..])
    {
      var elm := q.first;
      q.RemoveHead();
      InsertTail(elm);
    }

    /** Taking the other queue's elements one by one gives what STAILQ_CONCAT gives, each queue changing alone. */
    method TakeAll(q: Queue)
      requires Valid() && q.Valid() && q != this && Disjoint(elems, q.elems)
      modifies this, q, elems, q.elems
      ensures Valid() && q.Valid() && elems == old(elems + q.elems) && q.elems == []
    {
      hide Linked, Distinct, Disjoint;
      ghost var all := elems + q.elems;
      while q.first != null
        invariant Valid() && q.Valid() && Disjoint(elems, q.elems)
        invariant elems + q.elems == all
        invariant forall e | e in elems + q.elems :: e in old(elems) || e in old(q.elems)
        decreases |q.elems|
      {
        ghost var mine, theirs := elems, q.elems;
        assert theirs[0] in mine + theirs && (mine != [] ==> Last(mine) in mine + theirs);
        MoveFirst(q);
        assert (mine + [theirs[0]]) + theirs[1..] == mine + theirs;
      }
    }
  }
}
