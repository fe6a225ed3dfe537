/**
 ISO base media boxes (section 4.2 of ISO/IEC 14496-12): the reader of one box, and that reading
 undoes printing. A parser is a function from the bytes that are left to a value and the new rest.
 */
module Isobmff {
  import opened Basics
  import opened Bytes

  datatype Parsed<+T> = Fail | Got(value: T, rest: seq<byte>)

  function Take(b: seq<byte>, n: nat): Parsed<seq<byte>> {
    if n <= |b| then Got(b[..n], b[n..]) else Fail
  }

  /** An unsigned big-endian field of `n` bytes. */
  function Field(b: seq<byte>, n: nat): Parsed<nat> {
    if n <= |b| then Got(Be(b[..n]), b[n..]) else Fail
  }

  /** A field of 0, 4 or 8 bytes; other sizes are refused. */
  function Sized(b: seq<byte>, size: nat): Parsed<nat> {
    if size == 0 then Got(0, b) else if size == 4 || size == 8 then Field(b, size) else Fail
  }

  /** The size the header at the front states: 32-bit, 64-bit, or everything that is left. */
  function BoxTotal(b: seq<byte>): (total: Option<nat>)
    requires |b| >= 4
    ensures total.Some? ==> total.value >= 8
  {
    var s := Be(b[..4]);
    if s == 0 then (if |b| < 8 then None else Some(|b|))
    else if s == 1 then (if |b| < 16 || Be(b[8..16]) < 16 then None else Some(Be(b[8..16])))
    else if s < 8 then None
    else Some(s)
  }

  /** The whole box at the front, header included. */
  function BoxAtStart(b: seq<byte>): (r: Parsed<seq<byte>>)
    ensures r.Got? ==> 8 <= |r.value| && b == r.value + r.rest
  {
    if |b| < 4 || BoxTotal(b).None? || BoxTotal(b).value > |b| then Fail
    else Got(b[..BoxTotal(b).value], b[BoxTotal(b).value..])
  }

  function PrependTo(x: seq<byte>, rest: Option<seq<seq<byte>>>): Option<seq<seq<byte>>> {
    if rest.None? then None else Some([x] + rest.value)
  }

  /** Boxes read until fewer than eight bytes are left; one unreadable box fails the whole list. */
  function Boxes(b: seq<byte>): Option<seq<seq<byte>>>
    decreases |b|
  {
    if |b| < 8 then Some([])
    else match BoxAtStart(b)
      case Fail => None
      case Got(x, rest) => PrependTo(x, Boxes(rest))
  }

  // ---- printing ----

  datatype SizeForm = Short | Long | ToEnd

  datatype Box = Box(form: SizeForm, typ: seq<byte>, body: seq<byte>)

  predicate Printable(x: Box) {
    && |x.typ| == 4
    && (x.form.Short? ==> 8 + |x.body| < 0x1_0000_0000)
    && (x.form.Long? ==> 16 + |x.body| < 0x1_0000_0000_0000_0000)
  }

  function Print(x: Box): seq<byte> {
    match x.form
    case Short => ToBe(8 + |x.body|, 4) + x.typ + x.body
    case Long => ToBe(1, 4) + x.typ + ToBe(16 + |x.body|, 8) + x.body
    case ToEnd => ToBe(0, 4) + x.typ + x.body
  }

  function PrintAll(xs: seq<Box>): seq<seq<byte>> {
    if xs == [] then [] else [Print(xs[0])] + PrintAll(xs[1..])
  }

  /** A box sequence as a file may hold it: only the last box may run to the end. */
  predicate PrintableAll(xs: seq<Box>) {
    && (forall i :: 0 <= i < |xs| ==> Printable(xs[i]))
    && (forall i :: 0 <= i < |xs| - 1 ==> !xs[i].form.ToEnd?)
  }

  lemma FieldOfPrinted(n: nat, width: nat, rest: seq<byte>)
    requires n < Limit(width)
    ensures Field(ToBe(n, width) + rest, width) == Got(n, rest)
  {
    var b := ToBe(n, width) + rest;
    assert b[..width] == ToBe(n, width) && b[width..] == rest;
    BeOfFitting(n, width);
  }

  lemma FrontOfPrinted(x: Box, rest: seq<byte>)
    requires |x.typ| == 4
    ensures var b := Print(x) + rest;
            && |Print(x)| == (if x.form.Long? then 16 else 8) + |x.body|
            && b[4..8] == x.typ
            && b[..4] == ToBe(if x.form.Short? then 8 + |x.body| else if x.form.Long? then 1 else 0, 4)
            && (x.form.Long? ==> b[8..16] == ToBe(16 + |x.body|, 8))
  {
  }

  lemma TotalOfPrinted(x: Box, rest: seq<byte>)
    requires Printable(x) && (x.form.ToEnd? ==> rest == [])
    ensures |Print(x) + rest| >= 8 && BoxTotal(Print(x) + rest) == Some(|Print(x)|)
  {
    FrontOfPrinted(x, rest);
    match x.form
    case Short => BeOfFitting(8 + |x.body|, 4);
    case Long =>
      BeOfFitting(1, 4);
      BeOfFitting(16 + |x.body|, 8);
    case ToEnd => BeOfFitting(0, 4);
  }

  /** One printed box is read back whole, whatever follows it, or alone when it runs to the end. */
  lemma BoxOfPrinted(x: Box, rest: seq<byte>)
    requires Printable(x) && (x.form.ToEnd? ==> rest == [])
    ensures BoxAtStart(Print(x) + rest) == Got(Print(x), rest)
  {
    var b, p := Print(x) + rest, Print(x);
    TotalOfPrinted(x, rest);
    assert b[..|p|] == p && b[|p|..] == rest;
  }

  /** Reading a printed box sequence returns exactly its boxes. */
  lemma {:induction false} BoxesOfPrinted(xs: seq<Box>)
    requires PrintableAll(xs)
    ensures Boxes(Concat(PrintAll(xs))) == Some(PrintAll(xs))
    decreases |xs|
  {
    if xs != [] {
      var rest := Concat(PrintAll(xs[1..]));
      BoxesOfPrinted(xs[1..]);
      ConcatCons(Print(xs[0]), PrintAll(xs[1..]));
      assert xs[0].form.ToEnd? ==> xs[1..] == [];
      BoxOfPrinted(xs[0], rest);
      FrontOfPrinted(xs[0], rest);
    }
  }

  /** Every read consumes at least eight bytes, so the loop over a parent ends. */
  lemma {:induction false} BoxesTileThePrefix(b: seq<byte>)
    requires Boxes(b).Some?
    ensures Concat(Boxes(b).value) <= b && |b| - |Concat(Boxes(b).value)| < 8
    ensures 8 * |Boxes(b).value| <= |b|
    decreases |b|
  {
    if |b| >= 8 {
      var x, rest := BoxAtStart(b).value, BoxAtStart(b).rest;
      BoxesTileThePrefix(rest);
      ConcatCons(x, Boxes(rest).value);
    }
  }
}
