/** The text of the timer list: cutting it into pieces, reading numbers, and
    turning one entry into a timer. */
module TimerText {

  // ----- searching -----

  predicate OccursAt(s: string, pat: string, i: nat) {
    i + |pat| <= |s| && s[i..i + |pat|] == pat
  }

  /** The offset of the first occurrence of `p2` in `p1` at or after `start`, or -1. */
  function IndexOf(p1: string, p2: string, start: nat): (r: int)
    requires start <= |p1|
    ensures r == -1 || start <= r <= |p1|
    ensures r != -1 ==> OccursAt(p1, p2, r)
    ensures forall i: nat | start <= i < (if r == -1 then |p1| + 1 else r) :: !OccursAt(p1, p2, i)
    decreases |p1| - start
  {
    if OccursAt(p1, p2, start) then start
    else if start == |p1| then -1
    else IndexOf(p1, p2, start + 1)
  }

  // ----- cutting and joining -----

  function Count(s: string, c: char): (n: nat) {
    if s == "" then 0 else (if s[0] == c then 1 else 0) + Count(s[1..], c)
  }

  /** The pieces of `s` between separators, empty ones included. */
  function Pieces(s: string, c: char): (ps: seq<string>)
    ensures |ps| > 0
  {
    if s == "" then [""]
    else
      var rest := Pieces(s[1..], c);
      if s[0] == c then [""] + rest
      else [[s[0]] + rest[0]] + rest[1..]
  }

  function Join(ps: seq<string>, c: char): (s: string)
    requires |ps| > 0
  {
    if |ps| == 1 then ps[0] else ps[0] + [c] + Join(ps[1..], c)
  }

  /** Joining the pieces gives the text back; no piece holds a separator; there
      is one piece more than there are separators. */
  lemma {:induction false} JoinOfPieces(s: string, c: char)
    ensures Join(Pieces(s, c), c) == s
    ensures forall p | p in Pieces(s, c) :: c !in p
    ensures |Pieces(s, c)| == Count(s, c) + 1
  {
    if s != "" {
      var rest := Pieces(s[1..], c);
      JoinOfPieces(s[1..], c);
      var ps := Pieces(s, c);
      assert s == [s[0]] + s[1..];
      if s[0] == c {
        assert ps[1..] == rest;
      } else {
        assert ps[0] == [s[0]] + rest[0] && ps[1..] == rest[1..];
        if |rest| > 1 {
          assert Join(ps, c) == ps[0] + [c] + Join(rest[1..], c);
          assert Join(rest, c) == rest[0] + [c] + Join(rest[1..], c);
        }
        forall p | p in ps ensures c !in p {
          if p != ps[0] { assert p in rest; }
        }
      }
    }
  }

  /** Cutting undoes joining. */
  lemma {:induction false} PiecesOfJoin(ps: seq<string>, c: char)
    requires |ps| > 0
    requires forall p | p in ps :: c !in p
    ensures Pieces(Join(ps, c), c) == ps
  {
    if |ps| == 1 {
      PiecesOfPrefix(ps[0], "", c);
      assert ps[0] + "" == ps[0];
    } else {
      var tail := [c] + Join(ps[1..], c);
      assert Join(ps, c) == ps[0] + tail;
      assert tail[1..] == Join(ps[1..], c);
      PiecesOfJoin(ps[1..], c);
      assert Pieces(tail, c) == [""] + ps[1..];
      PiecesOfPrefix(ps[0], tail, c);
      assert ps[0] + "" == ps[0];
      assert ps == [ps[0]] + ps[1..];
    }
  }

  /** A separator-free prefix lengthens the first piece and changes nothing else. */
  lemma {:induction false} PiecesOfPrefix(p: string, s: string, c: char)
    requires c !in p
    ensures Pieces(p + s, c) == [p + Pieces(s, c)[0]] + Pieces(s, c)[1..]
  {
    if p == "" {
      assert p + s == s;
      assert p + Pieces(s, c)[0] == Pieces(s, c)[0];
    } else {
      assert (p + s)[1..] == p[1..] + s;
      PiecesOfPrefix(p[1..], s, c);
      var first := Pieces(s, c)[0];
      assert Pieces(p[1..] + s, c) == [p[1..] + first] + Pieces(s, c)[1..];
      assert [p[0]] + (p[1..] + first) == p + first;
      assert (p + s)[0] == p[0];
    }
  }

  /** A separator at the end makes one more piece, an empty one. */
  lemma {:induction false} PiecesOfTrailing(s: string, c: char)
    ensures Pieces(s + [c], c) == Pieces(s, c) + [""]
  {
    if s == "" {
      assert s + [c] == [c] && [c][1..] == "";
    } else {
      PiecesOfTrailing(s[1..], c);
      assert (s + [c])[1..] == s[1..] + [c] && (s + [c])[0] == s[0];
    }
  }

  /** split(): the text `p1` cut at the separator `p2`, written to `splits`.
      The source copies each piece into a buffer of 100 bytes and counts in a uint16. */
  method Split(p1: string, p2: string, splits: array<string>) returns (j: nat)
    requires |p2| == 1
    requires |Pieces(p1, p2[0])| <= splits.Length && |Pieces(p1, p2[0])| < 0x10000
    requires forall k | 0 <= k < |Pieces(p1, p2[0])| :: |Pieces(p1, p2[0])[k]| < 100
    modifies splits
    ensures j <= splits.Length && splits[..j] == Pieces(p1, p2[0])
    ensures splits[j..] == old(splits[j..])
  {
    var i := 0;
    j := 0;
    ghost var taken: seq<string>, all := [], Pieces(p1, p2[0]);
    assert p1[0..] == p1 && all == [] + all;
    while true
      invariant 0 <= i <= |p1| && j == |taken| < |all|
      invariant all == taken + Pieces(p1[i..], p2[0])
      invariant splits[..j] == taken && splits[j..] == old(splits[j..])
      decreases |p1| - i
    {
      var start := i;
      var end := IndexOf(p1, p2, start);
      TakePiece(p1, p2, start, taken, all);
      if end == -1 {
        end := |p1|;
      }
      ghost var before, after := splits[..j], splits[j..];
      splits[j] := p1[start..end];
      assert splits[..j + 1] == before + [p1[start..end]] && splits[j + 1..] == after[1..];
      taken := taken + [p1[start..end]];
      j := j + 1;
      i := end + 1;
      if i > |p1| {
        break;
      }
    }
  }

  lemma TakePiece(p1: string, p2: string, start: nat, taken: seq<string>, all: seq<string>)
    requires |p2| == 1 && start <= |p1|
    requires all == taken + Pieces(p1[start..], p2[0])
    ensures var e := IndexOf(p1, p2, start);
            if e == -1 then all == taken + [p1[start..|p1|]]
            else e < |p1| && all == taken + [p1[start..e]] + Pieces(p1[e + 1..], p2[0])
  {
    FirstPiece(p1, p2, start);
  }

  /** What one round of the loop of Split takes off the rest of the text. */
  lemma FirstPiece(p1: string, p2: string, start: nat)
    requires |p2| == 1 && start <= |p1|
    ensures var e := IndexOf(p1, p2, start);
            var rest := Pieces(p1[start..], p2[0]);
            if e == -1 then rest == [p1[start..|p1|]]
            else e < |p1| && rest == [p1[start..e]] + Pieces(p1[e + 1..], p2[0])
  {
    var c := p2[0];
    var e := IndexOf(p1, p2, start);
    var stop := if e == -1 then |p1| else e;
    var p := p1[start..stop];
    NoSeparatorBefore(p1, p2, start, stop);
    var s := p1[stop..];
    assert p1[start..] == p + s;
    PiecesOfPrefix(p, s, c);
    if e == -1 {
      assert s == "" && p + "" == p == p1[start..|p1|];
    } else {
      assert OccursAt(p1, p2, e);
      assert p1[e] == p1[e..e + 1][0];
      assert s == [c] + p1[e + 1..];
      assert p + "" == p;
    }
  }

  lemma NoSeparatorBefore(p1: string, p2: string, start: nat, stop: nat)
    requires |p2| == 1 && start <= stop <= |p1|
    requires forall i: nat | start <= i < stop :: !OccursAt(p1, p2, i)
    ensures p2[0] !in p1[start..stop]
  {
    forall k | start <= k < stop ensures p1[k] != p2[0] {
      assert !OccursAt(p1, p2, k);
      assert p1[k..k + 1] == [p1[k]];
    }
  }

  // ----- numbers -----

  predicate IsDigit(c: char) { '0' <= c <= '9' }

  function DigitsValue(s: string, acc: nat): (r: nat) {
    if s == "" || !IsDigit(s[0]) then acc
    else DigitsValue(s[1..], acc * 10 + (s[0] as int - '0' as int))
  }

  /** C's atoi: blanks, an optional sign, then digits up to the first other character. */
  function Atoi(s: string): (r: int) {
    if s == "" then 0 as int
    else if s[0] == ' ' then Atoi(s[1..])
    else if s[0] == '-' then -(DigitsValue(s[1..], 0) as int)
    else if s[0] == '+' then DigitsValue(s[1..], 0)
    else DigitsValue(s, 0)
  }

  function Decimal(n: nat): (s: string)
    ensures |s| > 0 && forall c | c in s :: IsDigit(c)
  {
    var last := ['0' + (n % 10) as char];
    if n < 10 then last else Decimal(n / 10) + last
  }

  lemma {:induction false} DigitsValueOfDecimal(n: nat, s: string)
    requires s == "" || !IsDigit(s[0])
    ensures DigitsValue(Decimal(n) + s, 0) == n
  {
    DigitsValueSplit(n, s);
  }

  lemma {:induction false} DigitsValueSplit(n: nat, s: string)
    ensures DigitsValue(Decimal(n) + s, 0) == DigitsValue(s, n)
  {
    var last := ['0' + (n % 10) as char];
    if n < 10 {
      assert (Decimal(n) + s)[1..] == s;
    } else {
      assert Decimal(n) + s == Decimal(n / 10) + (last + s);
      DigitsValueSplit(n / 10, last + s);
      assert (last + s)[1..] == s;
    }
  }

  lemma AtoiOfDecimal(n: nat)
    ensures Atoi(Decimal(n)) == n
  {
    DigitsValueOfDecimal(n, "");
    assert Decimal(n) + "" == Decimal(n);
    assert Decimal(n)[0] in Decimal(n);
  }

  // ----- entries -----

  /** One entry of the list: a fixed instant, a period, or an offset into the week. */
  datatype Timer =
    | Fixed(at: int, action: string)
    | Loop(period: int, action: string)
    | Weekly(offset: int, action: string)
    | Unrecognised

  /** The entry has what the source's fixed buffers demand: one `=`, at most ten
      characters of number and fourteen of action. Other first letters are not read. */
  predicate WellFormedEntry(str: string) {
    IndexOf(str, "f", 0) == 0 || IndexOf(str, "l", 0) == 0 || IndexOf(str, "w", 0) == 0 ==>
      var ps := Pieces(str, '=');
      |ps| == 2 && 0 < |ps[0]| <= 11 && |ps[1]| <= 14
  }

  function ParseTimer(str: string): (t: Timer)
    requires WellFormedEntry(str)
  {
    var ps := Pieces(str, '=');
    if IndexOf(str, "f", 0) == 0 then Fixed(Atoi(ps[0][1..]), ps[1])
    else if IndexOf(str, "l", 0) == 0 then Loop(Atoi(ps[0][1..]), ps[1])
    else if IndexOf(str, "w", 0) == 0 then Weekly(Atoi(ps[0][1..]), ps[1])
    else Unrecognised
  }

  /** The first letter decides what an entry is. */
  lemma FirstLetterDecides(str: string)
    requires WellFormedEntry(str)
    ensures ParseTimer(str).Fixed? <==> str != "" && str[0] == 'f'
    ensures ParseTimer(str).Loop? <==> str != "" && str[0] == 'l'
    ensures ParseTimer(str).Weekly? <==> str != "" && str[0] == 'w'
  {
    if str != "" {
      assert str[0..1] == [str[0]];
      assert OccursAt(str, [str[0]], 0);
    }
    assert IndexOf(str, "f", 0) == 0 <==> OccursAt(str, "f", 0);
    assert IndexOf(str, "l", 0) == 0 <==> OccursAt(str, "l", 0);
    assert IndexOf(str, "w", 0) == 0 <==> OccursAt(str, "w", 0);
  }

  function ParseAll(strs: seq<string>): (ts: seq<Timer>)
    requires forall s | s in strs :: WellFormedEntry(s)
    ensures |ts| == |strs|
    ensures forall i | 0 <= i < |ts| :: ts[i] == ParseTimer(strs[i])
  {
    seq(|strs|, i requires 0 <= i < |strs| => ParseTimer(strs[i]))
  }

  function FormatTimer(t: Timer): (s: string)
    requires !t.Unrecognised?
    requires match t case Fixed(at, _) => at >= 0 case Loop(p, _) => p >= 0 case Weekly(o, _) => o >= 0 case _ => true
  {
    match t
    case Fixed(at, a) => "f" + Decimal(at) + "=" + a
    case Loop(p, a) => "l" + Decimal(p) + "=" + a
    case Weekly(o, a) => "w" + Decimal(o) + "=" + a
  }

  /** A timer a server can send: a number of at most ten digits, an action of at
      most fourteen characters and neither of the two separators in it. */
  predicate Sendable(t: Timer) {
    && !t.Unrecognised?
    && (match t case Fixed(at, _) => 0 <= at < 0x8000_0000
                case Loop(p, _) => 0 <= p < 0x8000_0000
                case Weekly(o, _) => 0 <= o < 0x8000_0000)
    && |t.action| <= 14 && '=' !in t.action && ';' !in t.action
  }

  lemma {:induction false} DecimalLength(n: nat, k: nat, bound: nat)
    requires k > 0 && n < bound && bound == Pow10(k)
    ensures |Decimal(n)| <= k
  {
    if n >= 10 {
      assert Pow10(0) == 1;
      DecimalLength(n / 10, k - 1, Pow10(k - 1));
    }
  }

  function Pow10(k: nat): (r: nat)
    ensures r > 0
  {
    if k == 0 then 1 else 10 * Pow10(k - 1)
  }

  function FormatAll(ts: seq<Timer>): (strs: seq<string>)
    requires forall t | t in ts :: Sendable(t)
  {
    seq(|ts|, i requires 0 <= i < |ts| && Sendable(ts[i]) => FormatTimer(ts[i]))
  }

  lemma ParseOfFormat(t: Timer)
    requires Sendable(t)
    ensures WellFormedEntry(FormatTimer(t)) && ParseTimer(FormatTimer(t)) == t
    ensures ';' !in FormatTimer(t) && |FormatTimer(t)| < 100
  {
    var n := match t case Fixed(at, _) => at case Loop(p, _) => p case Weekly(o, _) => o;
    var letter := match t case Fixed(_, _) => "f" case Loop(_, _) => "l" case Weekly(_, _) => "w";
    var s := FormatTimer(t);
    var head := letter + Decimal(n);
    assert s == head + "=" + t.action;
    assert Pow10(10) == 10000000000;
    DecimalLength(n, 10, 10000000000);
    AtoiOfDecimal(n);
    assert Join([head, t.action], '=') == s;
    PiecesOfJoin([head, t.action], '=');
    assert head[1..] == Decimal(n);
    assert s[0..1] == letter;
    assert OccursAt(s, letter, 0);
    assert IndexOf(s, letter, 0) == 0;
  }

  /** Formatting a list of timers, joining it with `;`, cutting it and parsing the
      pieces gives the list back. */
  lemma TimerListRoundTrip(ts: seq<Timer>)
    requires |ts| > 0 && forall t | t in ts :: Sendable(t)
    ensures var text := Join(FormatAll(ts), ';');
            var strs := Pieces(text, ';');
            && (forall s | s in strs :: WellFormedEntry(s) && |s| < 100)
            && ParseAll(strs) == ts
  {
    var strs := FormatAll(ts);
    forall i | 0 <= i < |ts|
      ensures ';' !in strs[i] && WellFormedEntry(strs[i]) && |strs[i]| < 100 && ParseTimer(strs[i]) == ts[i]
    {
      ParseOfFormat(ts[i]);
    }
    PiecesOfJoin(strs, ';');
  }
}
