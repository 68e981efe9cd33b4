/** The TCP control-block lists: TCP_REG and TCP_RMV rewrite head and next pointers,
    and keep every block in at most one list. A block (struct tcp_pcb) is a Node: only
    its link matters here. */
module TcpPcbLists {
  import opened TailQueue

  /** The place of the first occurrence. */
  function Place(s: seq<Node>, p: Node): (i: int)
    requires p in s
    ensures 0 <= i < |s| && s[i] == p && forall j | 0 <= j < i :: s[j] != p
  {
    if s[0] == p then 0 else 1 + Place(s[1..], p)
  }

  /** The list without the block; the order of the rest is kept. */
  function Removed(s: seq<Node>, p: Node): (r: seq<Node>) {
    if p in s then Without(s, Place(s, p)) else s
  }

  /** The list up to the block: what is left of it once the block's link is cleared. */
  function CutAfter(s: seq<Node>, p: Node): (r: seq<Node>) {
    if p in s then s[..Place(s, p) + 1] else s
  }

  /** No block is listed twice, in one list or in two. */
  ghost predicate Apart(ls: seq<seq<Node>>) {
    && (forall l | 0 <= l < |ls| :: Distinct(ls[l]))
    && (forall l, m | 0 <= l < |ls| && 0 <= m < |ls| && l != m :: Disjoint(ls[l], ls[m]))
  }

  ghost predicate Unlisted(ls: seq<seq<Node>>, p: Node) {
    forall l | 0 <= l < |ls| :: p !in ls[l]
  }

  function Registered(ls: seq<seq<Node>>, l: nat, p: Node): (r: seq<seq<Node>>)
    requires l < |ls|
  {
    ls[l := [p] + ls[l]]
  }

  function CutAll(ls: seq<seq<Node>>, p: Node): (r: seq<seq<Node>>)
    ensures |r| == |ls| && forall m | 0 <= m < |ls| :: r[m] == CutAfter(ls[m], p)
  {
    seq(|ls|, m requires 0 <= m < |ls| => CutAfter(ls[m], p))
  }

  /** What TCP_RMV does to all lists: it takes the block out of the named list, and it
      clears the block's link in whatever list still holds it. */
  function AfterRmv(ls: seq<seq<Node>>, l: nat, p: Node): (r: seq<seq<Node>>)
    requires l < |ls|
  {
    CutAll(ls[l := Removed(ls[l], p)], p)
  }

  class PcbLists {
    const heads: array<Node?>         // tcp_bound_pcbs, tcp_listen_pcbs, ...
    ghost var lists: seq<seq<Node>>

    /** Every block of every list. */
    ghost function Blocks(): (s: set<Node>)
      reads this
    {
      set l, i | 0 <= l < |lists| && 0 <= i < |lists[l]| :: lists[l][i]
    }

    ghost predicate Valid()
      reads this, heads, Blocks()
    {
      && |lists| == heads.Length && Apart(lists)
      && (forall l | 0 <= l < |lists| :: heads[l] == HeadOr(lists[l], null))
      && (forall l | 0 <= l < |lists| :: Chained(lists[l], null))
    }

    /** TCP_REG of a block that is in no list. */
    method Reg(l: nat, npcb: Node)
      requires Valid() && l < heads.Length && Unlisted(lists, npcb)
      modifies this`lists, heads, npcb
      ensures Valid() && lists == Registered(old(lists), l, npcb)
    {
      assert forall m | 0 <= m < |lists| :: npcb !in lists[m];
      npcb.next := heads[l];
      heads[l] := npcb;
      ChainParts([npcb], lists[l], null);
      lists := Registered(lists, l, npcb);
    }

    /** The search of TCP_RMV along one list: the block is taken out, if it is there. */
    static method Unlink(first: Node?, npcb: Node, ghost s: seq<Node>) returns (first': Node?)
      requires Distinct(s) && Chained(s, null) && first == HeadOr(s, null)
      modifies s
      ensures Chained(Removed(s, npcb), null) && first' == HeadOr(Removed(s, npcb), null)
    {
      first' := first;
      if first == npcb {
        SplitAt(s, 0);
        first' := first.next;
        assert Removed(s, npcb) == s[1..];
      } else {
        var tmp := first;
        ghost var k := 0;
        while tmp != null
          invariant 0 <= k <= |s| && tmp == (if k < |s| then s[k] else null)
          invariant npcb !in s[..k] && (k < |s| ==> npcb != s[k])
          invariant Chained(s, null)
          decreases |s| - k
        {
          assert s[k].next == if k + 1 < |s| then s[k + 1] else null;
          if tmp.next == npcb {
            CutOut(s, k);
            tmp.next := npcb.next;
            assert Place(s, npcb) == k + 1;
            ChainParts(s[..k + 1], s[k + 2..], null);
            return;
          }
          tmp := tmp.next;
          k := k + 1;
        }
        assert s[..k] == s;
      }
    }

    /** The last step of TCP_RMV: whatever list still holds the block ends there. */
    method ClearLink(npcb: Node)
      requires Valid()
      modifies this`lists, npcb
      ensures Valid() && lists == CutAll(old(lists), npcb)
    {
      npcb.next := null;
      forall l | 0 <= l < |lists| ensures Chained(CutAfter(lists[l], npcb), null) {
        if npcb !in lists[l] {
          assert old(Chained(lists[l], null));
        }
      }
      lists := CutAll(lists, npcb);
    }

    /** TCP_RMV of any block: the search ends, and the lists change as AfterRmv says. */
    method Rmv(l: nat, npcb: Node)
      requires Valid() && l < heads.Length
      modifies this`lists, heads, Blocks(), npcb
      ensures Valid() && lists == AfterRmv(old(lists), l, npcb)
    {
      heads[l] := Unlink(heads[l], npcb, lists[l]);
      lists := lists[l := Removed(lists[l], npcb)];
      ClearLink(npcb);
    }
  }

  /** A chain cut into what is before a node, the node, and what is behind it. */
  lemma SplitAt(s: seq<Node>, k: nat)
    requires k < |s| && Chained(s, null)
    ensures Chained(s[..k], s[k]) && Chained(s[k + 1..], null) && s[k].next == HeadOr(s[k + 1..], null)
  {
    var before, after := s[..k], s[k + 1..];
    assert s == before + ([s[k]] + after);
    ChainParts(before, [s[k]] + after, null);
    ChainParts([s[k]], after, null);
    assert [s[k]][0].next == HeadOr(after, null);
  }

  /** The chain around the node behind `s[k]`. */
  lemma CutOut(s: seq<Node>, k: nat)
    requires k + 1 < |s| && Chained(s, null)
    ensures Chained(s[..k + 1], s[k + 1]) && Chained(s[k + 2..], null)
    ensures s[k + 1].next == HeadOr(s[k + 2..], null)
    ensures Without(s, k + 1) == s[..k + 1] + s[k + 2..]
  {
    SplitAt(s, k + 1);
  }

  // ----- any sequence of operations -----

  /** Removing a block of the named list touches no other list. */
  lemma RmvOfListed(ls: seq<seq<Node>>, l: nat, p: Node)
    requires l < |ls| && Apart(ls) && (p in ls[l] || Unlisted(ls, p))
    ensures AfterRmv(ls, l, p) == ls[l := Removed(ls[l], p)]
    ensures Apart(AfterRmv(ls, l, p)) && Unlisted(AfterRmv(ls, l, p), p)
  {
    var r := AfterRmv(ls, l, p);
    if p in ls[l] { RemovedKeepsRest(ls[l], p); }
    forall m | 0 <= m < |ls| ensures r[m] == ls[l := Removed(ls[l], p)][m] && p !in r[m] {
    }
    assert r == ls[l := Removed(ls[l], p)];
  }

  lemma RemovedKeepsRest(s: seq<Node>, p: Node)
    requires Distinct(s)
    ensures Distinct(Removed(s, p)) && p !in Removed(s, p)
    ensures forall x | x in s && x != p :: x in Removed(s, p)
    ensures forall x | x in Removed(s, p) :: x in s
  {
    if p in s {
      var i := Place(s, p);
      forall x | x in s && x != p ensures x in Removed(s, p) {
        var j :| 0 <= j < |s| && s[j] == x;
        if j < i { assert Removed(s, p)[j] == x; } else { assert Removed(s, p)[j - 1] == x; }
      }
    }
  }

  /** Exactly when TCP_RMV leaves the lists it was not told about alone: no other list
      holds the block, except as its last one. */
  lemma RmvHarmlessExactly(ls: seq<seq<Node>>, l: nat, p: Node)
    requires l < |ls| && Apart(ls)
    ensures (forall m | 0 <= m < |ls| && m != l :: AfterRmv(ls, l, p)[m] == ls[m])
       <==> (forall m | 0 <= m < |ls| && m != l && p in ls[m] :: ls[m][|ls[m]| - 1] == p)
  {
    forall m | 0 <= m < |ls| && m != l
      ensures AfterRmv(ls, l, p)[m] == ls[m] <==> (p in ls[m] ==> ls[m][|ls[m]| - 1] == p)
    {
      assert AfterRmv(ls, l, p)[m] == CutAfter(ls[m], p);
      if p in ls[m] { assert |CutAfter(ls[m], p)| == Place(ls[m], p) + 1; }
    }
  }

  /** Registering and then removing a block leaves the lists as they were. */
  lemma RegThenRmv(ls: seq<seq<Node>>, l: nat, p: Node)
    requires l < |ls| && Apart(ls) && Unlisted(ls, p)
    ensures AfterRmv(Registered(ls, l, p), l, p) == ls
  {
    var reg := Registered(ls, l, p);
    assert Place(reg[l], p) == 0 && Removed(reg[l], p) == ls[l];
    forall m | 0 <= m < |ls| ensures AfterRmv(reg, l, p)[m] == ls[m] {
      assert p !in ls[m];
    }
  }

  datatype Op = RegOp(l: nat, p: Node) | RmvOp(l: nat, p: Node)

  /** The duty of a caller: to register only what is in no list. */
  ghost predicate Fresh(ls: seq<seq<Node>>, op: Op) {
    op.l < |ls| && (op.RegOp? ==> Unlisted(ls, op.p))
  }

  /** And, to keep track of a block, to remove it only from the list that holds it. */
  ghost predicate Proper(ls: seq<seq<Node>>, op: Op) {
    Fresh(ls, op) && (op.RmvOp? ==> op.p in ls[op.l] || Unlisted(ls, op.p))
  }

  function Do(ls: seq<seq<Node>>, op: Op): (r: seq<seq<Node>>)
    requires op.l < |ls|
    ensures |r| == |ls|
  {
    match op
    case RegOp(l, p) => Registered(ls, l, p)
    case RmvOp(l, p) => AfterRmv(ls, l, p)
  }

  ghost predicate AllFresh(ls: seq<seq<Node>>, ops: seq<Op>)
    decreases |ops|
  {
    ops == [] || (Fresh(ls, ops[0]) && AllFresh(Do(ls, ops[0]), ops[1..]))
  }

  ghost predicate AllProper(ls: seq<seq<Node>>, ops: seq<Op>)
    decreases |ops|
  {
    ops == [] || (Proper(ls, ops[0]) && AllProper(Do(ls, ops[0]), ops[1..]))
  }

  /** The lists after the operations. */
  ghost function DoAll(ls: seq<seq<Node>>, ops: seq<Op>): (r: seq<seq<Node>>)
    requires AllFresh(ls, ops)
    decreases |ops|
  {
    if ops == [] then ls else DoAll(Do(ls, ops[0]), ops[1..])
  }

  /** Which list the operations leave a block in, if any: the last one that names it decides. */
  function ListOf(p: Node, ops: seq<Op>, start: int): (l: int)
    decreases |ops|
  {
    if ops == [] then start
    else ListOf(p, ops[1..], if ops[0].p != p then start else if ops[0].RegOp? then ops[0].l else -1)
  }

  /** A block is in list `l` and no other, or, for -1, in none. */
  ghost predicate In(ls: seq<seq<Node>>, p: Node, l: int) {
    forall m | 0 <= m < |ls| :: p in ls[m] <==> m == l
  }

  /** Over any sequence of operations that registers only unlisted blocks, with removals
      of any block from any list, the lists stay free of repetitions and pairwise
      disjoint. */
  lemma {:induction false} EveryRunStaysApart(ls: seq<seq<Node>>, ops: seq<Op>)
    requires Apart(ls) && AllFresh(ls, ops)
    ensures Apart(DoAll(ls, ops))
    decreases |ops|
  {
    if ops != [] {
      StepStaysApart(ls, ops[0]);
      EveryRunStaysApart(Do(ls, ops[0]), ops[1..]);
    }
  }

  lemma StepStaysApart(ls: seq<seq<Node>>, op: Op)
    requires Apart(ls) && Fresh(ls, op)
    ensures Apart(Do(ls, op))
  {
    if op.RegOp? {
      RegStaysApart(ls, op.l, op.p);
    } else {
      RmvStaysApart(ls, op.l, op.p);
    }
  }

  /** Removal only ever takes blocks out, and keeps the order of the rest. */
  lemma RmvShrinks(s: seq<Node>, p: Node)
    requires Distinct(s)
    ensures Distinct(Removed(s, p)) && Distinct(CutAfter(s, p))
    ensures forall x | x in Removed(s, p) :: x in s
    ensures forall x | x in CutAfter(s, p) :: x in s
  {
    RemovedKeepsRest(s, p);
  }

  lemma ShrunkStaysApart(ls: seq<seq<Node>>, rs: seq<seq<Node>>)
    requires Apart(ls) && |rs| == |ls| && forall m | 0 <= m < |ls| :: Distinct(rs[m])
    requires forall m, x | 0 <= m < |ls| && x in rs[m] :: x in ls[m]
    ensures Apart(rs)
  {
    forall l, m | 0 <= l < |rs| && 0 <= m < |rs| && l != m ensures Disjoint(rs[l], rs[m]) {
      forall i, j | 0 <= i < |rs[l]| && 0 <= j < |rs[m]| ensures rs[l][i] != rs[m][j] {
        assert rs[l][i] in ls[l] && rs[m][j] in ls[m] && Disjoint(ls[l], ls[m]);
      }
    }
  }

  lemma RmvStaysApart(ls: seq<seq<Node>>, l: nat, p: Node)
    requires l < |ls| && Apart(ls)
    ensures Apart(AfterRmv(ls, l, p))
  {
    var mid := ls[l := Removed(ls[l], p)];
    forall m | 0 <= m < |ls| ensures Distinct(mid[m]) && forall x | x in mid[m] :: x in ls[m] {
      RmvShrinks(ls[m], p);
    }
    ShrunkStaysApart(ls, mid);
    forall m | 0 <= m < |ls| ensures Distinct(CutAfter(mid[m], p)) && forall x | x in CutAfter(mid[m], p) :: x in mid[m] {
      RmvShrinks(mid[m], p);
    }
    ShrunkStaysApart(mid, CutAll(mid, p));
  }

  lemma RegStaysApart(ls: seq<seq<Node>>, l: nat, p: Node)
    requires l < |ls| && Apart(ls) && Unlisted(ls, p)
    ensures Apart(Registered(ls, l, p))
  {
    var r := Registered(ls, l, p);
    assert p !in ls[l];
    forall m | 0 <= m < |ls| && m != l ensures Disjoint(r[m], r[l]) && Disjoint(r[l], r[m]) {
      assert p !in ls[m];
    }
  }

  /** When removals, too, name the right list, every block is where the last operation on
      it put it. */
  lemma {:induction false} EveryRunLocates(ls: seq<seq<Node>>, ops: seq<Op>, p: Node, l: int)
    requires Apart(ls) && AllProper(ls, ops) && In(ls, p, l)
    ensures AllFresh(ls, ops) && In(DoAll(ls, ops), p, ListOf(p, ops, l))
    decreases |ops|
  {
    if ops != [] {
      var op := ops[0];
      StepStaysApart(ls, op);
      StepLocates(ls, op, p, l);
      EveryRunLocates(Do(ls, op), ops[1..], p, if op.p != p then l else if op.RegOp? then op.l else -1);
    }
  }

  lemma StepLocates(ls: seq<seq<Node>>, op: Op, p: Node, l: int)
    requires Apart(ls) && Proper(ls, op) && In(ls, p, l)
    ensures In(Do(ls, op), p, if op.p != p then l else if op.RegOp? then op.l else -1)
  {
    match op
    case RegOp(k, q) =>
      assert forall m | 0 <= m < |ls| :: q !in ls[m];
    case RmvOp(k, q) =>
      RmvOfListed(ls, k, q);
      RemovedKeepsRest(ls[k], q);
      assert forall m | 0 <= m < |ls| :: q !in AfterRmv(ls, k, q)[m];
  }
}
