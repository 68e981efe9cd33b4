/** Machine integers, remainders by repeated subtraction, and regrouping: what several
    modules share. */
module Arithmetic {

  function ToInt32(x: int): (r: int) {
    (x + 0x8000_0000) % 0x1_0000_0000 - 0x8000_0000
  }

  function ToUint32(x: int): (r: int) {
    x % 0x1_0000_0000
  }

  function ToUint16(x: int): (r: int) {
    x % 0x1_0000
  }

  function ToUint8(x: int): (r: int) {
    x % 0x100
  }

  function Min(a: int, b: int): (m: int) {
    if a > b then b else a
  }

  /** `x % n` for a dividend that is not negative. */
  function PosMod(x: int, n: int): (r: int)
    requires x >= 0 && n > 0
    ensures 0 <= r < n
    decreases x
  {
    if x < n then x else PosMod(x - n, n)
  }

  /** C's `%` for a positive divisor and any dividend: the remainder has the sign of the
      dividend. */
  function CMod(a: int, b: int): (r: int)
    requires b > 0
    decreases a < 0, if a < 0 then -a else a
  {
    if a < 0 then -CMod(-a, b)
    else if a < b then a
    else CMod(a - b, b)
  }

  lemma {:induction false} CModIsPosMod(a: int, b: int)
    requires a >= 0 && b > 0
    ensures CMod(a, b) == PosMod(a, b)
    decreases a
  {
    if a >= b { CModIsPosMod(a - b, b); }
  }

  lemma {:induction false} PosModIsRemainder(x: int, n: int)
    requires x >= 0 && n > 0
    ensures PosMod(x, n) == x % n
    decreases x
  {
    if x < n {
      RemainderIs(x, n, 0, x);
    } else {
      PosModIsRemainder(x - n, n);
      var q := (x - n) / n;
      assert x == (q + 1) * n + (x - n) % n;
      RemainderIs(x, n, q + 1, (x - n) % n);
    }
  }

  lemma RemainderIs(x: int, n: int, q: int, r: int)
    requires n > 0 && x == q * n + r && 0 <= r < n
    ensures x % n == r
  {
    var d := x / n - q;
    assert d * n == r - x % n;
    if d >= 1 { AtLeastOnce(d, n); }
    if d <= -1 { AtLeastOnce(-d, n); }
  }

  lemma AtLeastOnce(d: int, n: int)
    requires d >= 1 && n > 0
    ensures d * n >= n
  {
  }

  lemma Regroup<T>(a: seq<T>, b: seq<T>, c: seq<T>)
    ensures a + (b + c) == a + b + c
  {
  }
}
