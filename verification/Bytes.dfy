/** Big-endian numbers, and lists of byte blocks laid end to end. */
module Bytes {
  import opened Basics

  function Pow256(width: nat): (p: nat)
    ensures p > 0
  {
    if width == 0 then 1 else 256 * Pow256(width - 1)
  }

  /** The value of big-endian bytes. */
  function Be(s: seq<byte>): nat {
    if s == [] then 0 else Be(s[..|s| - 1]) * 256 + s[|s| - 1]
  }

  /** A character of plain text; others are not used. */
  function Code(c: char): byte {
    if c < '\U{80}' then c as int else 0
  }

  function Ascii(s: string): (b: seq<byte>)
    ensures |b| == |s| && forall i :: 0 <= i < |s| ==> b[i] == Code(s[i])
  {
    seq(|s|, i requires 0 <= i < |s| => Code(s[i]))
  }

  /** The low `width` bytes of `n`, most significant first. */
  function ToBe(n: nat, width: nat): (s: seq<byte>)
    ensures |s| == width
  {
    if width == 0 then [] else ToBe(n / 256, width - 1) + [n % 256]
  }

  lemma {:induction false} BeIsBounded(s: seq<byte>)
    ensures Be(s) < Pow256(|s|)
    decreases |s|
  {
    if s != [] {
      BeIsBounded(s[..|s| - 1]);
    }
  }

  /** Reading back a printed number gives the number modulo what its width can hold. */
  lemma {:induction false} BeOfToBe(n: nat, width: nat)
    ensures Be(ToBe(n, width)) == n % Pow256(width)
    decreases width
  {
    if width > 0 {
      BeOfToBe(n / 256, width - 1);
      var s := ToBe(n, width);
      assert s[..|s| - 1] == ToBe(n / 256, width - 1);
      assert Be(s) == ((n / 256) % Pow256(width - 1)) * 256 + n % 256;
      SplitModulus(n, Pow256(width - 1));
    }
  }

  /** The first number that a field of `width` bytes cannot hold, for the widths in use. */
  function Limit(width: nat): nat {
    if width == 0 then 1
    else if width == 1 then 0x100
    else if width == 2 then 0x1_0000
    else if width == 4 then 0x1_0000_0000
    else if width == 8 then 0x1_0000_0000_0000_0000
    else 0
  }

  /** A number that fits is read back unchanged. */
  lemma BeOfFitting(n: nat, width: nat)
    requires n < Limit(width)
    ensures Be(ToBe(n, width)) == n
  {
    Widths();
    BeOfToBe(n, width);
    assert n % Pow256(width) == n by { SmallModulus(n, Pow256(width)); }
  }

  /** `n` without its low `b` bytes. */
  function Shift(n: nat, b: nat): nat {
    if b == 0 then n else Shift(n / 256, b - 1)
  }

  /** The upper bytes of a printed number, then the lower ones. */
  lemma {:induction false} ToBeSplits(n: nat, a: nat, b: nat)
    ensures ToBe(n, a + b) == ToBe(Shift(n, b), a) + ToBe(n, b)
    decreases b
  {
    if b > 0 {
      ToBeSplits(n / 256, a, b - 1);
      var upper, lower, last := ToBe(Shift(n, b), a), ToBe(n / 256, b - 1), [n % 256];
      assert ToBe(n, a + b) == ToBe(n / 256, a + b - 1) + last;
      Associative(upper, lower, last);
    }
  }

  lemma SmallShifts(n: nat)
    ensures n < 0x1_0000 ==> Shift(n, 2) == 0
    ensures n < 0x1_0000_0000 ==> Shift(n, 4) == 0
  {
    var n1 := n / 256;
    var n2 := n1 / 256;
    var n3 := n2 / 256;
    assert Shift(n, 2) == Shift(n1, 1) == Shift(n2, 0);
    assert Shift(n, 4) == Shift(n1, 3) == Shift(n2, 2) == Shift(n3, 1) == Shift(n3 / 256, 0);
  }

  lemma SmallModulus(n: nat, m: nat)
    requires n < m
    ensures n % m == n
  {
  }

  lemma SplitModulus(n: nat, p: nat)
    requires p > 0
    ensures n % (256 * p) == ((n / 256) % p) * 256 + n % 256
  {
    var q, r := n / 256, n % 256;
    var a, b := q / p, q % p;
    assert n == q * 256 + r && q == a * p + b;
    calc {
      n;
      (a * p + b) * 256 + r;
      { MulShuffle(a, p); }
      a * (256 * p) + (b * 256 + r);
    }
    assert 0 <= b * 256 + r < 256 * p;
    ModOfSum(a, 256 * p, b * 256 + r);
  }

  lemma MulShuffle(a: nat, p: nat)
    ensures a * p * 256 == a * (256 * p)
  {
  }

  lemma ModOfSum(a: nat, m: nat, r: nat)
    requires r < m
    ensures (a * m + r) % m == r
  {
    var x := a * m + r;
    var q, s := x / m, x % m;
    assert x == q * m + s;
    if a < q {
      MulMonotone(a + 1, q, m);
    } else if q < a {
      MulMonotone(q + 1, a, m);
    }
  }

  lemma MulMonotone(x: nat, y: nat, m: nat)
    requires x <= y
    ensures x * m <= y * m
  {
  }

  lemma Widths()
    ensures Pow256(1) == 0x100 && Pow256(2) == 0x1_0000 && Pow256(4) == 0x1_0000_0000
    ensures Pow256(8) == 0x1_0000_0000_0000_0000
  {
    assert Pow256(3) == 0x100_0000;
    assert Pow256(6) == 0x1_0000_0000_0000;
  }

  // ---- blocks ----

  function Concat(blocks: seq<seq<byte>>): seq<byte> {
    if blocks == [] then [] else blocks[0] + Concat(blocks[1..])
  }

  lemma {:induction false} ConcatAppend(a: seq<seq<byte>>, b: seq<seq<byte>>)
    ensures Concat(a + b) == Concat(a) + Concat(b)
    decreases |a|
  {
    if a == [] {
      assert a + b == b;
    } else {
      ConcatAppend(a[1..], b);
      assert (a + b)[1..] == a[1..] + b;
    }
  }

  lemma ConcatCons(block: seq<byte>, rest: seq<seq<byte>>)
    ensures Concat([block] + rest) == block + Concat(rest)
  {
    assert ([block] + rest)[1..] == rest;
  }

  lemma Associative<T>(a: seq<T>, b: seq<T>, c: seq<T>)
    ensures a + b + c == a + (b + c)
  {
  }

  lemma SliceOfRest<T>(s: seq<T>, from: nat, lo: nat, hi: nat)
    requires from <= |s| && lo <= hi <= |s| - from
    ensures s[from..][lo..hi] == s[from + lo..from + hi] && s[from..][lo..] == s[from + lo..]
  {
  }
}
