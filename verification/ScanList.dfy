/** The scan callback: the old result list is freed, and the driver's list is copied
    node by node into a new one, as far as memory goes. */
module ScanList {

  /** The fields of struct bss_info that are copied, and one standing for those that
      are not: they keep the zero of os_zalloc. */
  datatype Fields = Fields(bssid: seq<int>, ssid: seq<int>, authmode: int, rssi: int, channel: int, others: int)

  const ZERO: Fields := Fields([], [], 0, 0, 0, 0)

  class BssInfo {
    var next: BssInfo?
    var fields: Fields

    /** os_zalloc. */
    constructor ()
      ensures next == null && fields == ZERO
    {
      next, fields := null, ZERO;
    }

    /** The copies and assignments behind a successful allocation. */
    method CopyInfo(bss: BssInfo)
      requires bss != this && fields == ZERO
      modifies this`fields
      ensures fields == bss.fields.(others := 0)
    {
      fields := fields.(bssid := bss.fields.bssid);
      fields := fields.(ssid := bss.fields.ssid);
      fields := fields.(authmode := bss.fields.authmode);
      fields := fields.(rssi := bss.fields.rssi);
      fields := fields.(channel := bss.fields.channel);
    }
  }

  predicate Distinct(s: seq<BssInfo>) {
    forall i, j | 0 <= i < j < |s| :: s[i] != s[j]
  }

  function HeadOrNull(s: seq<BssInfo>): (n: BssInfo?) {
    if s == [] then null else s[0]
  }

  /** The nodes are chained in this order and the last one ends the list. */
  predicate Linked(s: seq<BssInfo>)
    reads s
  {
    forall i {:trigger s[i].next} | 0 <= i < |s| :: s[i].next == if i + 1 < |s| then s[i + 1] else null
  }

  /** How many of the first `n` allocations succeed before one fails. */
  function Granted(alloc: nat -> bool, n: nat): (k: nat)
    ensures k <= n
    ensures forall i | 0 <= i < k :: alloc(i)
    ensures k < n ==> !alloc(k)
  {
    if n == 0 then 0
    else
      var k := Granted(alloc, n - 1);
      if k == n - 1 && alloc(n - 1) then n else k
  }

  class ScanResult {
    var bssHead: BssInfo?
    ghost var list: seq<BssInfo>     // the result list
    ghost var freed: seq<BssInfo>    // every os_free so far

    ghost predicate Valid()
      reads this, list
    {
      && Distinct(list) && Linked(list) && bssHead == HeadOrNull(list)
      && forall n | n in list :: n !in freed
    }

    constructor ()
      ensures Valid() && list == [] && freed == []
    {
      bssHead, list, freed := null, [], [];
    }

    /** The first loop of json_scan_cb: every node is freed once, its link read before. */
    method FreeAll()
      requires Valid()
      modifies this
      ensures bssHead == null && list == [] && freed == old(freed) + old(list)
    {
      var bssTemp := bssHead;
      ghost var k := 0;
      while bssTemp != null
        invariant 0 <= k <= |list| == |old(list)| && list == old(list)
        invariant bssTemp == (if k < |list| then list[k] else null)
        invariant freed == old(freed) + list[..k]
        decreases |list| - k
      {
        assert bssTemp !in freed;
        assert list[k].next == if k + 1 < |list| then list[k + 1] else null;
        bssHead := bssTemp.next;
        freed := freed + [bssTemp];
        assert list[..k + 1] == list[..k] + [list[k]];
        bssTemp := bssHead;
        k := k + 1;
      }
      assert list[..k] == list;
      bssHead := null;
      list := [];
    }

    /** A zeroed node behind the last one, or as the first. */
    method Extend(bssTemp: BssInfo?) returns (node: BssInfo)
      requires Distinct(list) && Linked(list) && bssHead == HeadOrNull(list)
      requires bssTemp == (if list == [] then null else list[|list| - 1])
      modifies this`bssHead, this`list, bssTemp
      ensures fresh(node) && list == old(list) + [node] && node.fields == ZERO
      ensures bssTemp != null ==> bssTemp.fields == old(bssTemp.fields)
      ensures Distinct(list) && Linked(list) && bssHead == HeadOrNull(list)
    {
      node := new BssInfo();
      if bssTemp == null {
        bssHead := node;
      } else {
        bssTemp.next := node;
      }
      list := list + [node];
    }

    /** The second loop of json_scan_cb: a fresh list that copies the driver's, element
        by element and in order, up to the first allocation that fails. */
    method CopyFrom(first: BssInfo?, ghost src: seq<BssInfo>, alloc: nat -> bool)
      requires list == [] && bssHead == null
      requires Linked(src) && first == HeadOrNull(src)
      modifies this`bssHead, this`list
      ensures fresh(list) && Distinct(list) && Linked(list) && bssHead == HeadOrNull(list)
      ensures |list| == Granted(alloc, |src|)
      ensures forall i | 0 <= i < |list| :: list[i].fields == src[i].fields.(others := 0)
    {
      var bss, bssTemp: BssInfo? := first, null;
      var asked := 0;
      while bss != null
        invariant 0 <= asked <= |src| && bss == (if asked < |src| then src[asked] else null)
        invariant |list| == asked == Granted(alloc, asked)
        invariant fresh(list) && Distinct(list) && Linked(list) && bssHead == HeadOrNull(list)
        invariant bssTemp == (if list == [] then null else list[|list| - 1])
        invariant forall i | 0 <= i < |list| :: list[i].fields == src[i].fields.(others := 0)
        decreases |src| - asked
      {
        assert src[asked].next == if asked + 1 < |src| then src[asked + 1] else null;
        if !alloc(asked) {
          GrantedStops(alloc, asked, |src|);
          break;
        }
        bssTemp := Extend(bssTemp);
        bssTemp.CopyInfo(bss);
        asked := asked + 1;
        bss := bss.next;
      }
    }

    /** json_scan_cb, as far as the two lists go. */
    method ScanCallback(first: BssInfo?, ghost src: seq<BssInfo>, alloc: nat -> bool)
      requires Valid() && Linked(src) && first == HeadOrNull(src)
      modifies this
      ensures Valid() && fresh(list) && freed == old(freed) + old(list)
      ensures |list| == Granted(alloc, |src|)
      ensures forall i | 0 <= i < |list| :: list[i].fields.bssid == src[i].fields.bssid
      ensures forall i | 0 <= i < |list| :: list[i].fields.ssid == src[i].fields.ssid
      ensures forall i | 0 <= i < |list| :: list[i].fields.authmode == src[i].fields.authmode
      ensures forall i | 0 <= i < |list| :: list[i].fields.rssi == src[i].fields.rssi
      ensures forall i | 0 <= i < |list| :: list[i].fields.channel == src[i].fields.channel
      ensures forall i | 0 <= i < |list| :: list[i].fields.others == 0
      ensures Linked(src) && forall n | n in src :: n.fields == old(n.fields)
    {
      FreeAll();
      CopyFrom(first, src, alloc);
    }
  }

  lemma {:induction false} GrantedStops(alloc: nat -> bool, k: nat, n: nat)
    requires Granted(alloc, k) == k && !alloc(k) && k <= n
    ensures Granted(alloc, n) == k
  {
    if k < n { GrantedStops(alloc, k, n - 1); }
  }

  /** With memory for every element the copy is complete, and only then. */
  lemma GrantedAll(alloc: nat -> bool, n: nat)
    ensures Granted(alloc, n) == n <==> forall i: nat | i < n :: alloc(i)
  {
  }
}
