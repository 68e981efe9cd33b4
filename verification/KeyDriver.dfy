/** The key driver over its key records and the GPIO interrupt registers, updated in
    place and proved to take the steps of KeyProtocol. */
module KeyDriver {
  import opened KeyProtocol

  /** struct single_key_param; a timer is known by whether it is armed, an installed
      callback by how often it was called. */
  class SingleKey {
    const gpioId: nat
    const hasShort: bool
    const hasLong: bool
    var keyLevel: int
    var key5s: bool
    var key50ms: bool
    var shortCalls: nat
    var longCalls: nat
    ghost var log: seq<KeyEvent>

    /** key_init_single. */
    constructor (gpioId: nat, hasShort: bool, hasLong: bool)
      ensures this.gpioId == gpioId && this.hasShort == hasShort && this.hasLong == hasLong
      ensures keyLevel == 0 && !key5s && !key50ms && log == [] && shortCalls == longCalls == 0
    {
      this.gpioId, this.hasShort, this.hasLong := gpioId, hasShort, hasLong;
      keyLevel, key5s, key50ms, log, shortCalls, longCalls := 0, false, false, [], 0, 0;
    }

    /** Each callback, if installed, was called once per release and per long press. */
    ghost predicate Called()
      reads this
    {
      && shortCalls == (if hasShort then Count(log, Released) else 0)
      && longCalls == (if hasLong then Count(log, LongHeld) else 0)
    }
  }

  lemma CountSnoc(log: seq<KeyEvent>, a: KeyEvent, e: KeyEvent)
    ensures Count(log + [a], e) == Count(log, e) + (if a == e then 1 else 0)
  {
    assert (log + [a])[..|log|] == log;
  }

  class KeyPad {
    const keys: seq<SingleKey>
    const edges: array<Edge>      // the interrupt type of each pin
    var status: set<nat>          // GPIO_STATUS: pins with a pending interrupt

    ghost predicate Wired()
      reads this
    {
      && edges.Length == 16
      && (forall i | 0 <= i < |keys| :: keys[i].gpioId < 16)
      && (forall i, j | 0 <= i < j < |keys| :: keys[i] != keys[j] && keys[i].gpioId != keys[j].gpioId)
    }

    ghost function View(i: nat): (k: Key)
      requires Wired() && i < |keys|
      reads this, keys, edges
    {
      Key(keys[i].keyLevel, edges[keys[i].gpioId], keys[i].key50ms, keys[i].key5s, keys[i].log)
    }

    ghost predicate Valid()
      reads this, keys, edges
    {
      Wired() && forall i | 0 <= i < |keys| :: KeyInv(View(i)) && keys[i].Called()
    }

    /** key_init: the records come from key_init_single, the pins have no interrupt. */
    constructor (keys: seq<SingleKey>)
      requires forall i | 0 <= i < |keys| :: keys[i].gpioId < 16
      requires forall i, j | 0 <= i < j < |keys| :: keys[i] != keys[j] && keys[i].gpioId != keys[j].gpioId
      requires forall i | 0 <= i < |keys| :: !keys[i].key5s && !keys[i].key50ms && keys[i].log == [] && keys[i].Called()
      modifies keys
      ensures Valid() && this.keys == keys && fresh(edges)
      ensures forall i | 0 <= i < |keys| :: View(i) == UP && keys[i].gpioId !in status
    {
      this.keys := keys;
      edges := new Edge[16](_ => Disabled);
      status := {};
      new;
      for i := 0 to |keys|
        invariant Wired() && fresh(edges) && this.keys == keys && status == {}
        invariant forall k | 0 <= k < i :: View(k) == UP && keys[k].Called()
        invariant forall k | i <= k < |keys| :: !keys[k].key5s && !keys[k].key50ms && keys[k].log == [] && keys[k].Called()
      {
        InitKey(i);
      }
      assert Scan(UP.log) == Up;
    }

    /** The body of key_init's loop. */
    method InitKey(i: nat)
      requires Wired() && i < |keys|
      modifies keys[i], edges, this`status
      ensures View(i) == old(View(i)).(level := 1, edge := NegEdge) && keys[i].log == old(keys[i].log)
      ensures keys[i].Called() == old(keys[i].Called())
      ensures forall k | 0 <= k < |keys| && k != i :: View(k) == old(View(k))
      ensures status == old(status) - {keys[i].gpioId}
    {
      var key := keys[i];
      assert forall k | 0 <= k < |keys| && k != i :: keys[k] != key && keys[k].gpioId != key.gpioId;
      key.keyLevel := 1;
      edges[key.gpioId] := Disabled;
      status := status - {key.gpioId};
      edges[key.gpioId] := NegEdge;
    }

    /** The body of key_intr_handler's loop for a key whose bit is set. */
    method HandleKey(i: nat)
      requires Wired() && i < |keys|
      modifies keys[i], edges, this`status
      ensures View(i) == Interrupt(old(View(i)))
      ensures forall k | 0 <= k < |keys| && k != i :: View(k) == old(View(k))
      ensures status == old(status) - {keys[i].gpioId}
      ensures old(keys[i].Called()) ==> keys[i].Called()
    {
      var key := keys[i];
      CountSnoc(key.log, Pressed, Released);
      CountSnoc(key.log, Pressed, LongHeld);
      edges[key.gpioId] := Disabled;
      status := status - {key.gpioId};
      assert forall k | 0 <= k < |keys| && k != i :: keys[k] != key && keys[k].gpioId != key.gpioId;
      if key.keyLevel == 1 {
        key.key5s := true;
        key.keyLevel := 0;
        key.log := key.log + [Pressed];
        edges[key.gpioId] := PosEdge;
        assert key.Called() == old(key.Called());
      } else {
        key.key50ms := true;
      }
    }

    /** key_intr_handler: every key whose bit was set at entry takes its step, no other
        key changes, and exactly these bits are cleared. */
    method IntrHandler()
      requires Valid()
      modifies this`status, keys, edges
      ensures Valid()
      ensures forall i | 0 <= i < |keys| ::
        View(i) == if keys[i].gpioId in old(status) then Step(old(View(i)), Intr) else old(View(i))
      ensures status == old(status) - (set i | 0 <= i < |keys| :: keys[i].gpioId)
    {
      var gpioStatus := status;
      for i := 0 to |keys|
        invariant Wired()
        invariant forall k | 0 <= k < |keys| :: keys[k].Called()
        invariant forall k | 0 <= k < i ::
          View(k) == if keys[k].gpioId in gpioStatus then Step(old(View(k)), Intr) else old(View(k))
        invariant forall k | i <= k < |keys| :: View(k) == old(View(k))
        invariant status == gpioStatus - (set k | 0 <= k < i :: keys[k].gpioId)
      {
        if keys[i].gpioId in gpioStatus {
          HandleKey(i);
        }
      }
      forall i | 0 <= i < |keys| ensures KeyInv(View(i)) {
        StepKeepsInv(old(View(i)), Intr);
      }
    }

    /** key_50ms_cb: the debounce timer of one key expires. */
    method Key50msCb(i: nat, high: bool)
      requires Valid() && i < |keys| && keys[i].key50ms
      modifies keys[i], edges
      ensures Valid() && View(i) == Step(old(View(i)), Expire50ms(high))
      ensures forall k | 0 <= k < |keys| && k != i :: View(k) == old(View(k))
    {
      var key := keys[i];
      StepKeepsInv(View(i), Expire50ms(high));
      CountSnoc(key.log, Released, Released);
      CountSnoc(key.log, Released, LongHeld);
      key.key50ms := false;
      if high {
        key.key5s := false;
        key.keyLevel := 1;
        edges[key.gpioId] := NegEdge;
        key.log := key.log + [Released];
        if key.hasShort {
          key.shortCalls := key.shortCalls + 1;
        }
      } else {
        edges[key.gpioId] := PosEdge;
      }
      assert forall k | 0 <= k < |keys| && k != i :: View(k) == old(View(k)) && keys[k].Called() == old(keys[k].Called());
    }

    /** key_5s_cb: the long-press timer of one key expires. */
    method Key5sCb(i: nat, high: bool)
      requires Valid() && i < |keys| && keys[i].key5s
      modifies keys[i]
      ensures Valid() && View(i) == Step(old(View(i)), Expire5s(high))
      ensures forall k | 0 <= k < |keys| && k != i :: View(k) == old(View(k))
    {
      var key := keys[i];
      StepKeepsInv(View(i), Expire5s(high));
      CountSnoc(key.log, LongHeld, Released);
      CountSnoc(key.log, LongHeld, LongHeld);
      key.key5s := false;
      if !high {
        key.log := key.log + [LongHeld];
        if key.hasLong {
          key.longCalls := key.longCalls + 1;
        }
      }
      assert forall k | 0 <= k < |keys| && k != i :: View(k) == old(View(k)) && keys[k].Called() == old(keys[k].Called());
    }
  }
}
