/** The cursor and the parsing loops of the HEIC reader, proved against the parsers on byte sequences. */
module HeicReader {
  import opened Basics
  import opened Bytes
  import opened Isobmff
  import opened HeicItems
  import opened HeicProperties
  import opened HeicDims

  /** A read yields what the parser yields, and leaves its rest; after a failure nothing is promised. */
  predicate Agrees<T(==)>(r: Option<T>, left: seq<byte>, p: Parsed<T>) {
    match p
    case Fail => r.None?
    case Got(v, rest) => r == Some(v) && left == rest
  }

  /** A slice that shrinks from the front. */
  class Cur {
    var b: seq<byte>

    constructor (b: seq<byte>)
      ensures this.b == b
    {
      this.b := b;
    }

    method TakeBytes(n: nat) returns (r: Option<seq<byte>>)
      modifies this
      ensures Agrees(r, b, Take(old(b), n))
    {
      if n > |b| {
        return None;
      }
      r := Some(b[..n]);
      b := b[n..];
    }

    /** A big-endian field of `n` bytes. */
    method Number(n: nat) returns (r: Option<nat>)
      modifies this
      ensures Agrees(r, b, Field(old(b), n))
    {
      var s := TakeBytes(n);
      if s.None? {
        return None;
      }
      r := Some(Be(s.value));
    }

    method SizedNumber(size: nat) returns (r: Option<nat>)
      modifies this
      ensures Agrees(r, b, Sized(old(b), size))
    {
      if size == 0 {
        return Some(0);
      } else if size == 4 || size == 8 {
        r := Number(size);
      } else {
        r := None;
      }
    }

    method NextBox() returns (r: Option<seq<byte>>)
      modifies this
      ensures Agrees(r, b, BoxAtStart(old(b)))
    {
      if |b| < 4 {
        return None;
      }
      var s := Be(b[..4]);
      var total;
      if s == 0 {
        if |b| < 8 {
          return None;
        }
        total := |b|;
      } else if s == 1 {
        if |b| < 16 || Be(b[8..16]) < 16 {
          return None;
        }
        total := Be(b[8..16]);
      } else {
        if s < 8 {
          return None;
        }
        total := s;
      }
      if total > |b| {
        return None;
      }
      r := Some(b[..total]);
      b := b[total..];
    }
  }

  // ---- iloc ----

  /** What was read before, then what the parser yields. */
  function Join<T>(xs: seq<T>, p: Parsed<seq<T>>): Parsed<seq<T>> {
    match p
    case Fail => Fail
    case Got(more, rest) => Got(xs + more, rest)
  }

  lemma JoinStep(es: seq<Extent>, b: seq<byte>, n: nat, h: IlocLayout, e: Extent, rest: seq<byte>)
    requires n > 0 && ParseExtent(b, h) == Got(e, rest)
    ensures Join(es, ParseExtents(b, n, h)) == Join(es + [e], ParseExtents(rest, n - 1, h))
  {
    if ParseExtents(rest, n - 1, h).Got? {
      Associative(es, [e], ParseExtents(rest, n - 1, h).value);
    }
  }

  method ReadExtent(cur: Cur, h: IlocLayout) returns (r: Option<Extent>)
    modifies cur
    ensures Agrees(r, cur.b, ParseExtent(old(cur.b), h))
  {
    var index := cur.SizedNumber(h.IndexSize());
    if index.None? {
      return None;
    }
    var offset := cur.SizedNumber(h.offsetSize);
    if offset.None? {
      return None;
    }
    var length := cur.SizedNumber(h.lengthSize);
    if length.None? {
      return None;
    }
    r := Some(Extent(index.value, offset.value, length.value));
  }

  /** All extents are read to stay aligned; only those of the wanted item are kept. */
  method ReadExtents(cur: Cur, n: nat, h: IlocLayout, want: bool) returns (r: Option<seq<Extent>>)
    modifies cur
    ensures match ParseExtents(old(cur.b), n, h)
            case Fail => r.None?
            case Got(es, rest) => r == Some(if want then es else []) && cur.b == rest
  {
    var extents: seq<Extent> := [];
    ghost var b0, all := cur.b, [];
    assert Join([], ParseExtents(b0, n, h)) == ParseExtents(b0, n, h) by {
      assert ParseExtents(b0, n, h).Got? ==> [] + ParseExtents(b0, n, h).value == ParseExtents(b0, n, h).value;
    }
    for k := 0 to n
      invariant Join(all, ParseExtents(cur.b, n - k, h)) == ParseExtents(b0, n, h)
      invariant extents == if want then all else []
    {
      ghost var b := cur.b;
      var e := ReadExtent(cur, h);
      if e.None? {
        return None;
      }
      JoinStep(all, b, n - k, h, e.value, cur.b);
      all := all + [e.value];
      if want {
        extents := extents + [e.value];
      }
    }
    assert all + [] == all;
    r := Some(extents);
  }

  method ReadIdAndMethod(cur: Cur, h: IlocLayout) returns (r: Option<(nat, nat)>)
    modifies cur
    ensures Agrees(r, cur.b, ParseIdAndMethod(old(cur.b), h))
  {
    var id := cur.Number(h.IdWidth());
    if id.None? {
      return None;
    }
    if !h.HasMethod() {
      return Some((id.value, 0));
    }
    var m := cur.Number(2);
    if m.None? {
      return None;
    }
    r := Some((id.value, m.value % 16));
  }

  method ReadBaseAndCount(cur: Cur, h: IlocLayout) returns (r: Option<(nat, nat)>)
    modifies cur
    ensures Agrees(r, cur.b, ParseBaseAndCount(old(cur.b), h))
  {
    var dataRef := cur.Number(2);
    if dataRef.None? {
      return None;
    }
    var base := cur.SizedNumber(h.baseSize);
    if base.None? {
      return None;
    }
    var count := cur.Number(2);
    if count.None? {
      return None;
    }
    r := Some((base.value, count.value));
  }

  /** The item loop: skip items until the wanted one. */
  method ReadItems(cur: Cur, count: nat, h: IlocLayout, wantId: nat) returns (r: Option<ItemLocation>)
    modifies cur
    ensures r == FindItem(old(cur.b), count, h, wantId)
  {
    ghost var b0 := cur.b;
    for i := 0 to count
      invariant FindItem(cur.b, count - i, h, wantId) == FindItem(b0, count, h, wantId)
    {
      ghost var b := cur.b;
      var idm := ReadIdAndMethod(cur, h);
      if idm.None? {
        return None;
      }
      var bc := ReadBaseAndCount(cur, h);
      if bc.None? {
        return None;
      }
      var want := idm.value.0 == wantId;
      var extents := ReadExtents(cur, bc.value.1, h, want);
      if extents.None? {
        return None;
      }
      if want {
        return Some(ItemLocation(idm.value.1, bc.value.0, extents.value));
      }
    }
    r := None;
  }

  method ParseIloc(boxb: seq<byte>, wantId: nat) returns (r: Option<ItemLocation>)
    ensures r == ParseIlocBox(boxb, wantId)
  {
    if |boxb| < 8 {
      return None;
    }
    var cur := new Cur(boxb[8..]);
    var full := cur.Number(4);
    if full.None? {
      return None;
    }
    var sizes := cur.Number(2);
    if sizes.None? {
      return None;
    }
    var h := Layout(full.value / 0x100_0000, sizes.value);
    var count := cur.Number(h.IdWidth());
    if count.None? {
      return None;
    }
    r := ReadItems(cur, count.value, h, wantId);
  }

  // ---- pitm, ipma, ipco ----

  method ParsePitmBox(boxb: seq<byte>) returns (r: Option<nat>)
    ensures r == ParsePitm(boxb)
  {
    if |boxb| < 8 {
      return None;
    }
    var e := new Cur(boxb[8..]);
    var full := e.Number(4);
    if full.None? {
      return None;
    }
    r := e.Number(if full.value / VERSION_UNIT == 0 then 2 else 4);
  }

  lemma JoinIndicesStep(xs: seq<nat>, b: seq<byte>, n: nat, wide: bool, v: nat, rest: seq<byte>)
    requires n > 0 && Field(b, if wide then 2 else 1) == Got(v, rest)
    ensures Join(xs, ParseAssociations(b, n, wide)) ==
            Join(xs + [v % Bit(wide)], ParseAssociations(rest, n - 1, wide))
  {
    if ParseAssociations(rest, n - 1, wide).Got? {
      Associative(xs, [v % Bit(wide)], ParseAssociations(rest, n - 1, wide).value);
    }
  }

  method ReadAssociations(cur: Cur, n: nat, wide: bool, want: bool) returns (r: Option<seq<nat>>)
    modifies cur
    ensures match ParseAssociations(old(cur.b), n, wide)
            case Fail => r.None?
            case Got(xs, rest) => r == Some(if want then xs else []) && cur.b == rest
  {
    var indices: seq<nat> := [];
    ghost var b0, all: seq<nat> := cur.b, [];
    assert Join([], ParseAssociations(b0, n, wide)) == ParseAssociations(b0, n, wide) by {
      assert ParseAssociations(b0, n, wide).Got? ==>
               [] + ParseAssociations(b0, n, wide).value == ParseAssociations(b0, n, wide).value;
    }
    for k := 0 to n
      invariant Join(all, ParseAssociations(cur.b, n - k, wide)) == ParseAssociations(b0, n, wide)
      invariant indices == if want then all else []
    {
      ghost var b := cur.b;
      var v := cur.Number(if wide then 2 else 1);
      if v.None? {
        return None;
      }
      JoinIndicesStep(all, b, n - k, wide, v.value, cur.b);
      all := all + [v.value % Bit(wide)];
      if want {
        indices := indices + [v.value % Bit(wide)];
      }
    }
    assert all + [] == all;
    r := Some(indices);
  }

  method ReadEntries(cur: Cur, count: nat, version: nat, wide: bool, wantId: nat) returns (r: Option<seq<nat>>)
    modifies cur
    ensures r == FindEntry(old(cur.b), count, version, wide, wantId)
  {
    ghost var b0 := cur.b;
    for i := 0 to count
      invariant FindEntry(cur.b, count - i, version, wide, wantId) == FindEntry(b0, count, version, wide, wantId)
    {
      var id := cur.Number(if version < 1 then 2 else 4);
      if id.None? {
        return None;
      }
      var assocCount := cur.Number(1);
      if assocCount.None? {
        return None;
      }
      var want := id.value == wantId;
      var indices := ReadAssociations(cur, assocCount.value, wide, want);
      if indices.None? {
        return None;
      }
      if want {
        return indices;
      }
    }
    r := None;
  }

  method ParseIpmaForItem(boxb: seq<byte>, wantId: nat) returns (r: Option<seq<nat>>)
    ensures r == ParseIpma(boxb, wantId)
  {
    if |boxb| < 8 {
      return None;
    }
    var cur := new Cur(boxb[8..]);
    var full := cur.Number(4);
    if full.None? {
      return None;
    }
    var count := cur.Number(4);
    if count.None? {
      return None;
    }
    r := ReadEntries(cur, count.value, full.value / VERSION_UNIT, full.value % 2 == 1, wantId);
  }

  function After(xs: seq<seq<byte>>, rest: Option<seq<seq<byte>>>): Option<seq<seq<byte>>> {
    if rest.None? then None else Some(xs + rest.value)
  }

  lemma AfterStep(xs: seq<seq<byte>>, b: seq<byte>, x: seq<byte>, rest: seq<byte>)
    requires |b| >= 8 && BoxAtStart(b) == Got(x, rest)
    ensures After(xs, Boxes(b)) == After(xs + [x], Boxes(rest))
  {
    if Boxes(rest).Some? {
      Associative(xs, [x], Boxes(rest).value);
    }
  }

  method ParseIpcoProperties(boxb: seq<byte>) returns (r: Option<seq<seq<byte>>>)
    ensures r == if |boxb| < 8 then None else Boxes(boxb[8..])
  {
    if |boxb| < 8 {
      return None;
    }
    var cur := new Cur(boxb[8..]);
    var props := [];
    assert Boxes(cur.b).Some? ==> [] + Boxes(cur.b).value == Boxes(cur.b).value;
    while |cur.b| >= 8
      invariant After(props, Boxes(cur.b)) == Boxes(boxb[8..])
      decreases |cur.b|
    {
      ghost var b := cur.b;
      var x := cur.NextBox();
      if x.None? {
        return None;
      }
      AfterStep(props, b, x.value, cur.b);
      props := props + [x.value];
    }
    assert props + [] == props;
    r := Some(props);
  }

  // ---- dimensions ----

  method FindMeta(data: seq<byte>) returns (r: Option<seq<byte>>)
    ensures r == FindMetaBody(data)
  {
    var off := 0;
    assert data[0..] == data;
    while off <= |data| && BoxHeader(data[off..]).Some?
      invariant 0 <= off <= |data|
      invariant FindMetaBody(data[off..]) == FindMetaBody(data)
      decreases |data| - off
    {
      var (size, header) := BoxHeader(data[off..]).value;
      SliceOfRest(data, off, 4, 8);
      if data[off + 4..off + 8] == META {
        if header > size || off + size > |data| {
          return None;
        }
        SliceOfRest(data, off, header, size);
        return Some(data[off + header..off + size]);
      }
      if size == 0 || off + size > |data| {
        return None;
      }
      SliceOfRest(data, off, size, size);
      off := off + size;
    }
    r := None;
  }

  /** The property loop inside one `iprp`. */
  method ScanIprpBox(child: seq<byte>, st: Found) returns (r: Option<Found>)
    requires |child| >= 8
    ensures r == ScanIprp(child, st)
  {
    var p := new Cur(child[8..]);
    var found := st;
    ghost var target := ScanIprp(child, st);
    while |p.b| >= 8
      invariant (if Boxes(p.b).None? then None else RestOfProperties(p.b, found)) == target
      decreases |p.b|
    {
      ghost var b := p.b;
      var prop := p.NextBox();
      if prop.None? {
        return None;
      }
      PropertiesStep(b, prop.value, p.b, found);
      if prop.value[4..8] == IPCO {
        found := found.(ipco := prop);
      } else if prop.value[4..8] == IPMA {
        found := found.(ipma := prop);
      }
    }
    r := Some(found);
  }

  ghost function RestOfProperties(b: seq<byte>, st: Found): Option<Found>
    requires Boxes(b).Some?
  {
    BoxesAreLong(b);
    Some(ScanProperties(Boxes(b).value, st))
  }

  lemma PropertiesStep(b: seq<byte>, x: seq<byte>, rest: seq<byte>, st: Found)
    requires |b| >= 8 && BoxAtStart(b) == Got(x, rest)
    ensures Boxes(b).Some? <==> Boxes(rest).Some?
    ensures Boxes(b).Some? ==>
              RestOfProperties(b, st) == RestOfProperties(rest,
                if TypeOf(x) == IPCO then st.(ipco := Some(x))
                else if TypeOf(x) == IPMA then st.(ipma := Some(x)) else st)
  {
    if Boxes(rest).Some? {
      BoxesAreLong(b);
      assert ([x] + Boxes(rest).value)[1..] == Boxes(rest).value;
    }
  }

  method ExtractHeicDims(data: seq<byte>) returns (r: Option<(nat, nat)>)
    ensures r == ExtractDims(data)
  {
    var body := FindMeta(data);
    if body.None? || |body.value| < 4 {
      return None;
    }
    var cur := new Cur(body.value[4..]);
    var found := NOTHING;
    ghost var target := ScanMeta(body.value[4..], NOTHING);
    while |cur.b| >= 8
      invariant ScanMeta(cur.b, found) == target
      decreases |cur.b|
    {
      var child := cur.NextBox();
      if child.None? {
        return None;
      }
      if child.value[4..8] == PITM {
        var id := ParsePitmBox(child.value);
        found := found.(primary := id);
      } else if child.value[4..8] == IPRP {
        var scanned := ScanIprpBox(child.value, found);
        if scanned.None? {
          return None;
        }
        found := scanned.value;
      }
    }
    r := LookUp(found);
  }

  /** The association loop: the first listed image size property decides. */
  method LookUp(st: Found) returns (r: Option<(nat, nat)>)
    ensures r == DimsFrom(st)
  {
    if st.primary.None? || st.ipco.None? || st.ipma.None? {
      return None;
    }
    var props := ParseIpcoProperties(st.ipco.value);
    if props.None? {
      return None;
    }
    var indices := ParseIpmaForItem(st.ipma.value, st.primary.value);
    if indices.None? {
      return None;
    }
    for k := 0 to |indices.value|
      invariant FirstSize(props.value, indices.value[k..]) == FirstSize(props.value, indices.value)
    {
      var idx := indices.value[k];
      assert indices.value[k..][1..] == indices.value[k + 1..];
      if 1 <= idx <= |props.value| {
        var prop := props.value[idx - 1];
        if |prop| >= 20 && prop[4..8] == ISPE {
          return Some((Be(prop[12..16]), Be(prop[16..20])));
        }
      }
    }
    r := None;
  }
}
