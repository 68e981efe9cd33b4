/** The singly-linked tail queue macros: nodes chained by `next`, and a head that also
    keeps the address of the last `next` slot, which is its own slot when empty. */
module TailQueue {

  class Node {
    var next: Node?    // stqe_next

    constructor ()
      ensures next == null
    {
      next := null;
    }
  }

  predicate Distinct(s: seq<Node>) {
    forall i, j | 0 <= i < j < |s| :: s[i] != s[j]
  }

  predicate Disjoint(s: seq<Node>, t: seq<Node>) {
    forall i, j | 0 <= i < |s| && 0 <= j < |t| :: s[i] != t[j]
  }

  /** The nodes are chained in this order and the last one points to `end`. */
  predicate Chained(s: seq<Node>, end: Node?)
    reads s
  {
    forall i {:trigger s[i].next} | 0 <= i < |s| :: s[i].next == if i + 1 < |s| then s[i + 1] else end
  }

  function HeadOr(s: seq<Node>, end: Node?): (n: Node?) {
    if s == [] then end else s[0]
  }

  /** A chain of two parts is two chains, the first ending where the second begins. */
  lemma ChainParts(s: seq<Node>, t: seq<Node>, end: Node?)
    ensures Chained(s + t, end) <==> Chained(s, HeadOr(t, end)) && Chained(t, end)
  {
    var u := s + t;
    if Chained(u, end) {
      forall i | 0 <= i < |s| ensures s[i].next == if i + 1 < |s| then s[i + 1] else HeadOr(t, end) {
        assert u[i].next == if i + 1 < |u| then u[i + 1] else end;
      }
      forall i | 0 <= i < |t| ensures t[i].next == if i + 1 < |t| then t[i + 1] else end {
        assert u[|s| + i].next == if |s| + i + 1 < |u| then u[|s| + i + 1] else end;
      }
      assert Chained(s, HeadOr(t, end)) && Chained(t, end);
    }
    if Chained(s, HeadOr(t, end)) && Chained(t, end) {
      forall i | 0 <= i < |u| ensures u[i].next == if i + 1 < |u| then u[i + 1] else end {
        if i < |s| {
          assert s[i].next == if i + 1 < |s| then s[i + 1] else HeadOr(t, end);
        } else {
          var k := i - |s|;
          assert t[k].next == if k + 1 < |t| then t[k + 1] else end;
        }
      }
      assert Chained(u, end);
    }
  }

  function Without(s: seq<Node>, i: nat): (r: seq<Node>)
    requires i < |s|
  {
    s[..i] + s[i + 1..]
  }

  class Queue {
    var first: Node?          // stqh_first
    var last: object          // stqh_last: the node, or the head, whose pointer slot is last
    ghost var elems: seq<Node>

    ghost predicate Valid()
      reads this, elems
    {
      && Distinct(elems) && Chained(elems, null)
      && first == (if elems == [] then null else elems[0])
      && last == (if elems == [] then this else elems[|elems| - 1])
    }

    /** STAILQ_INIT. */
    constructor ()
      ensures Valid() && elems == []
    {
      first, elems := null, [];
      last := this;
    }

    method Init()
      modifies this
      ensures Valid() && elems == []
    {
      first, elems := null, [];
      last := this;
    }

    /** STAILQ_EMPTY. */
    method IsEmpty() returns (b: bool)
      requires Valid()
      ensures b <==> elems == []
    {
      b := first == null;
    }

    /** STAILQ_LAST. */
    method Last() returns (n: Node?)
      requires Valid()
      ensures n == if elems == [] then null else elems[|elems| - 1]
    {
      if first == null {
        return null;
      }
      return last as Node;
    }

    /** STAILQ_CONCAT: the second queue's nodes move behind this one's. */
    method Concat(head2: Queue)
      requires Valid() && head2.Valid() && head2 != this && Disjoint(elems, head2.elems)
      modifies this, head2, elems
      ensures Valid() && head2.Valid()
      ensures elems == old(elems) + old(head2.elems) && head2.elems == []
    {
      if head2.first != null {
        if last is Queue {
          (last as Queue).first := head2.first;
        } else {
          (last as Node).next := head2.first;
        }
        last := head2.last;
        ChainParts(elems, head2.elems, null);
        elems := elems + head2.elems;
        head2.Init();
      }
    }

    /** STAILQ_INSERT_HEAD. */
    method InsertHead(elm: Node)
      requires Valid() && elm !in elems
      modifies this, elm
      ensures Valid() && elems == [elm] + old(elems)
    {
      elm.next := first;
      if elm.next == null {
        last := elm;
      }
      first := elm;
      ChainParts([elm], elems, null);
      elems := [elm] + elems;
    }

    /** STAILQ_INSERT_TAIL. */
    method InsertTail(elm: Node)
      requires Valid() && elm !in elems
      modifies this, elm, elems
      ensures Valid() && elems == old(elems) + [elm]
    {
      elm.next := null;
      if last is Queue {
        (last as Queue).first := elm;
      } else {
        (last as Node).next := elm;
      }
      last := elm;
      ChainParts(elems, [elm], null);
      elems := elems + [elm];
    }

    /** STAILQ_INSERT_AFTER. */
    method InsertAfter(tqelm: Node, elm: Node, ghost i: nat)
      requires Valid() && i < |elems| && elems[i] == tqelm && elm !in elems
      modifies this, elm, tqelm
      ensures Valid() && elems == old(elems)[..i + 1] + [elm] + old(elems)[i + 1..]
    {
      ghost var before, after := elems[..i + 1], elems[i + 1..];
      assert elems == before + after;
      ChainParts(before, after, null);
      elm.next := tqelm.next;
      if elm.next == null {
        last := elm;
      }
      tqelm.next := elm;
      ChainParts([elm], after, null);
      ChainParts(before, [elm] + after, null);
      assert before + ([elm] + after) == before + [elm] + after;
      elems := before + [elm] + after;
    }

    /** STAILQ_REMOVE_HEAD. */
    method RemoveHead()
      requires Valid() && elems != []
      modifies this
      ensures Valid() && elems == old(elems)[1..]
    {
      assert elems == [first] + elems[1..];
      ChainParts([first], elems[1..], null);
      first := first.next;
      if first == null {
        last := this;
      }
      elems := elems[1..];
    }

    /** STAILQ_REMOVE_AFTER. */
    method RemoveAfter(elm: Node, ghost i: nat)
      requires Valid() && i + 1 < |elems| && elems[i] == elm
      modifies this, elm
      ensures Valid() && elems == Without(old(elems), i + 1)
    {
      ghost var before, after := elems[..i + 1], elems[i + 2..];
      assert elems == before + ([elems[i + 1]] + after);
      ChainParts(before, [elems[i + 1]] + after, null);
      ChainParts([elems[i + 1]], after, null);
      elm.next := elm.next.next;
      if elm.next == null {
        last := elm;
      }
      ChainParts(before, after, null);
      elems := before + after;
    }

    /** STAILQ_REMOVE: the walk to the node before `elm` ends because `elm` is there. */
    method Remove(elm: Node, ghost i: nat)
      requires Valid() && i < |elems| && elems[i] == elm
      modifies this, elems
      ensures Valid() && elems == Without(old(elems), i)
    {
      if first == elm {
        RemoveHead();
      } else {
        var curelm := first;
        ghost var k := 0;
        while curelm.next != elm
          invariant 0 <= k < i && curelm == elems[k]
          decreases i - k
        {
          curelm := curelm.next;
          k := k + 1;
        }
        assert elems[k + 1] == elems[i];
        RemoveAfter(curelm, k);
      }
    }

    /** STAILQ_SWAP, of two queues or of a queue with itself. */
    method Swap(head2: Queue)
      requires Valid() && head2.Valid() && (this != head2 ==> Disjoint(elems, head2.elems))
      modifies this, head2
      ensures Valid() && head2.Valid()
      ensures elems == old(head2.elems) && head2.elems == old(elems)
    {
      var swapFirst, swapLast := first, last;
      ghost var swapElems := elems;
      first := head2.first;
      last := head2.last;
      elems := head2.elems;
      head2.first := swapFirst;
      head2.last := swapLast;
      head2.elems := swapElems;
      if first == null {
        last := this;
      }
      if head2.first == null {
        head2.last := head2;
      }
    }

    /** STAILQ_INSERT_CHAIN_HEAD: a chain of nodes, from `chead` to `ctail`. */
    method InsertChainHead(chead: Node, ctail: Node, ghost chain: seq<Node>)
      requires Valid() && chain != [] && chain[0] == chead && chain[|chain| - 1] == ctail
      requires Distinct(chain) && Chained(chain, ctail.next) && Disjoint(chain, elems)
      modifies this, ctail
      ensures Valid() && elems == chain + old(elems)
    {
      ctail.next := first;
      if ctail.next == null {
        last := ctail;
      }
      first := chead;
      ChainParts(chain, elems, null);
      elems := chain + elems;
    }
  }
}
