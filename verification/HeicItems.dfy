/**
 Item locations of a HEIC file: `iloc` (section 8.11.3 of ISO/IEC 14496-12), as the parser reads them and as a
 writer prints them.
 */
module HeicItems {
  import opened Basics
  import opened Bytes
  import opened Isobmff

  // ---- iloc ----

  datatype Extent = Extent(index: nat, offset: nat, length: nat)

  /** Where an item's bytes live. */
  datatype ItemLocation = ItemLocation(method_: nat, base: nat, extents: seq<Extent>)

  /** Version and field sizes of an `iloc` box. */
  datatype IlocLayout = IlocLayout(version: nat, offsetSize: nat, lengthSize: nat, baseSize: nat, indexNibble: nat) {
    predicate HasMethod() {
      version == 1 || version == 2
    }
    function IndexSize(): nat {
      if HasMethod() then indexNibble else 0
    }
    function IdWidth(): nat {
      if version < 2 then 2 else 4
    }
  }

  function ParseExtent(b: seq<byte>, h: IlocLayout): Parsed<Extent> {
    match Sized(b, h.IndexSize())
    case Fail => Fail
    case Got(index, b1) =>
      match Sized(b1, h.offsetSize)
      case Fail => Fail
      case Got(offset, b2) =>
        match Sized(b2, h.lengthSize)
        case Fail => Fail
        case Got(length, b3) => Got(Extent(index, offset, length), b3)
  }

  function ParseExtents(b: seq<byte>, n: nat, h: IlocLayout): Parsed<seq<Extent>>
    decreases n
  {
    if n == 0 then Got([], b)
    else match ParseExtent(b, h)
      case Fail => Fail
      case Got(e, b1) =>
        match ParseExtents(b1, n - 1, h)
        case Fail => Fail
        case Got(es, b2) => Got([e] + es, b2)
  }

  function ParseIdAndMethod(b: seq<byte>, h: IlocLayout): Parsed<(nat, nat)> {
    match Field(b, h.IdWidth())
    case Fail => Fail
    case Got(id, b1) =>
      if !h.HasMethod() then Got((id, 0), b1)
      else match Field(b1, 2)
        case Fail => Fail
        case Got(m, b2) => Got((id, m % 16), b2)
  }

  /** Data reference (not used), base offset and extent count. */
  function ParseBaseAndCount(b: seq<byte>, h: IlocLayout): Parsed<(nat, nat)> {
    match Field(b, 2)
    case Fail => Fail
    case Got(_, b1) =>
      match Sized(b1, h.baseSize)
      case Fail => Fail
      case Got(base, b2) =>
        match Field(b2, 2)
        case Fail => Fail
        case Got(count, b3) => Got((base, count), b3)
  }

  /** One item: its id, and its location with all extents. */
  function ParseItem(b: seq<byte>, h: IlocLayout): Parsed<(nat, ItemLocation)> {
    match ParseIdAndMethod(b, h)
    case Fail => Fail
    case Got(idm, b1) =>
      match ParseBaseAndCount(b1, h)
      case Fail => Fail
      case Got(bc, b2) =>
        match ParseExtents(b2, bc.1, h)
        case Fail => Fail
        case Got(es, b3) => Got((idm.0, ItemLocation(idm.1, bc.0, es)), b3)
  }

  /** The first of the next `n` items with the wanted id; earlier items are skipped field by field. */
  function FindItem(b: seq<byte>, n: nat, h: IlocLayout, want: nat): Option<ItemLocation>
    decreases n
  {
    if n == 0 then None
    else match ParseItem(b, h)
      case Fail => None
      case Got(item, b1) => if item.0 == want then Some(item.1) else FindItem(b1, n - 1, h, want)
  }

  function Layout(version: nat, sizes: nat): IlocLayout {
    IlocLayout(version, sizes / 4096, sizes / 256 % 16, sizes / 16 % 16, sizes % 16)
  }

  /** What follows the eight-byte box header of an `iloc`. */
  function ParseIlocBody(b: seq<byte>, want: nat): Option<ItemLocation> {
    match Field(b, 4)
    case Fail => None
    case Got(full, b1) =>
      match Field(b1, 2)
      case Fail => None
      case Got(sizes, b2) =>
        var h := Layout(full / 0x100_0000, sizes);
        match Field(b2, h.IdWidth())
        case Fail => None
        case Got(count, b3) => FindItem(b3, count, h, want)
  }

  function ParseIlocBox(boxb: seq<byte>, want: nat): Option<ItemLocation> {
    if |boxb| < 8 then None else ParseIlocBody(boxb[8..], want)
  }

  // ---- iloc printing ----

  /** An item; its construction method shares a field with twelve reserved bits. */
  datatype Item = Item(id: nat, reserved: nat, method_: nat, dataRef: nat, base: nat, extents: seq<Extent>)

  /** Ids and the number of items have 32 bits from version 2 on. */
  function IdBytes(version: nat): nat {
    if version == 0 || version == 1 then 2 else 4
  }

  /** Only versions 1 and 2 print a construction method and extent indices. */
  predicate PrintsMethod(version: nat) {
    version == 1 || version == 2
  }

  function IndexBytes(h: IlocLayout): nat {
    if PrintsMethod(h.version) then h.indexNibble else 0
  }

  predicate FieldSize(n: nat) {
    n == 0 || n == 4 || n == 8
  }

  predicate WellFormedLayout(h: IlocLayout) {
    && h.version < 256 && FieldSize(h.offsetSize) && FieldSize(h.lengthSize)
    && FieldSize(h.baseSize) && FieldSize(h.indexNibble)
  }

  predicate ExtentFits(e: Extent, h: IlocLayout) {
    e.index < Limit(IndexBytes(h)) && e.offset < Limit(h.offsetSize) && e.length < Limit(h.lengthSize)
  }

  predicate ItemFits(x: Item, h: IlocLayout) {
    && x.id < Limit(IdBytes(h.version)) && x.reserved < 0x1000 && x.method_ < 16
    && (!PrintsMethod(h.version) ==> x.method_ == 0)
    && x.dataRef < 0x1_0000 && x.base < Limit(h.baseSize) && |x.extents| < 0x1_0000
    && forall i :: 0 <= i < |x.extents| ==> ExtentFits(x.extents[i], h)
  }

  // Printers put a table entry in front of what follows it.

  function PrintExtent(e: Extent, h: IlocLayout, rest: seq<byte>): seq<byte> {
    ToBe(e.index, IndexBytes(h)) + (ToBe(e.offset, h.offsetSize) + (ToBe(e.length, h.lengthSize) + rest))
  }

  function PrintExtents(es: seq<Extent>, h: IlocLayout, rest: seq<byte>): seq<byte> {
    if es == [] then rest else PrintExtent(es[0], h, PrintExtents(es[1..], h, rest))
  }

  function PrintIdAndMethod(x: Item, h: IlocLayout, rest: seq<byte>): seq<byte> {
    ToBe(x.id, IdBytes(h.version))
    + (if PrintsMethod(h.version) then ToBe(x.reserved * 16 + x.method_, 2) + rest else rest)
  }

  function PrintBaseAndCount(x: Item, h: IlocLayout, rest: seq<byte>): seq<byte> {
    ToBe(x.dataRef, 2) + (ToBe(x.base, h.baseSize) + (ToBe(|x.extents|, 2) + rest))
  }

  function PrintItem(x: Item, h: IlocLayout, rest: seq<byte>): seq<byte> {
    PrintIdAndMethod(x, h, PrintBaseAndCount(x, h, PrintExtents(x.extents, h, rest)))
  }

  function PrintItems(xs: seq<Item>, h: IlocLayout, rest: seq<byte>): seq<byte> {
    if xs == [] then rest else PrintItem(xs[0], h, PrintItems(xs[1..], h, rest))
  }

  function SizesField(h: IlocLayout): nat {
    h.offsetSize * 4096 + h.lengthSize * 256 + h.baseSize * 16 + h.indexNibble
  }

  function PrintIlocBody(flags: nat, xs: seq<Item>, h: IlocLayout, rest: seq<byte>): seq<byte> {
    ToBe(h.version * 0x100_0000 + flags, 4)
    + (ToBe(SizesField(h), 2) + (ToBe(|xs|, IdBytes(h.version)) + PrintItems(xs, h, rest)))
  }

  /** The first item with the id, as the parser reports it. */
  function LocationOf(xs: seq<Item>, want: nat): Option<ItemLocation> {
    if xs == [] then None
    else if xs[0].id == want then Some(ItemLocation(xs[0].method_, xs[0].base, xs[0].extents))
    else LocationOf(xs[1..], want)
  }

  // ---- reading undoes printing ----

  lemma SizedOfPrinted(n: nat, size: nat, rest: seq<byte>)
    requires FieldSize(size) && n < Limit(size)
    ensures Sized(ToBe(n, size) + rest, size) == Got(n, rest)
  {
    if size == 0 {
      assert ToBe(n, size) + rest == rest;
    } else {
      FieldOfPrinted(n, size, rest);
    }
  }

  lemma ExtentOfPrinted(e: Extent, h: IlocLayout, rest: seq<byte>)
    requires WellFormedLayout(h) && ExtentFits(e, h)
    ensures ParseExtent(PrintExtent(e, h, rest), h) == Got(e, rest)
  {
    var b2 := ToBe(e.length, h.lengthSize) + rest;
    var b1 := ToBe(e.offset, h.offsetSize) + b2;
    SizedOfPrinted(e.index, IndexBytes(h), b1);
    SizedOfPrinted(e.offset, h.offsetSize, b2);
    SizedOfPrinted(e.length, h.lengthSize, rest);
  }

  lemma {:induction false} ExtentsOfPrinted(es: seq<Extent>, h: IlocLayout, rest: seq<byte>)
    requires WellFormedLayout(h) && forall i :: 0 <= i < |es| ==> ExtentFits(es[i], h)
    ensures ParseExtents(PrintExtents(es, h, rest), |es|, h) == Got(es, rest)
    decreases |es|
  {
    if es != [] {
      ExtentOfPrinted(es[0], h, PrintExtents(es[1..], h, rest));
      ExtentsOfPrinted(es[1..], h, rest);
      assert es == [es[0]] + es[1..];
    }
  }

  lemma ItemOfPrinted(x: Item, h: IlocLayout, rest: seq<byte>)
    requires WellFormedLayout(h) && ItemFits(x, h)
    ensures ParseItem(PrintItem(x, h, rest), h) == Got((x.id, ItemLocation(x.method_, x.base, x.extents)), rest)
  {
    var b2 := PrintExtents(x.extents, h, rest);
    var b1 := PrintBaseAndCount(x, h, b2);
    IdAndMethodOfPrinted(x, h, b1);
    BaseAndCountOfPrinted(x, h, b2);
    ExtentsOfPrinted(x.extents, h, rest);
  }

  lemma IdAndMethodOfPrinted(x: Item, h: IlocLayout, rest: seq<byte>)
    requires WellFormedLayout(h) && ItemFits(x, h)
    ensures ParseIdAndMethod(PrintIdAndMethod(x, h, rest), h) == Got((x.id, x.method_), rest)
  {
    var field := x.reserved * 16 + x.method_;
    FieldOfPrinted(x.id, IdBytes(h.version), if PrintsMethod(h.version) then ToBe(field, 2) + rest else rest);
    FieldOfPrinted(field, 2, rest);
  }

  lemma BaseAndCountOfPrinted(x: Item, h: IlocLayout, rest: seq<byte>)
    requires WellFormedLayout(h) && ItemFits(x, h)
    ensures ParseBaseAndCount(PrintBaseAndCount(x, h, rest), h) == Got((x.base, |x.extents|), rest)
  {
    var b2 := ToBe(|x.extents|, 2) + rest;
    var b1 := ToBe(x.base, h.baseSize) + b2;
    FieldOfPrinted(x.dataRef, 2, b1);
    SizedOfPrinted(x.base, h.baseSize, b2);
    FieldOfPrinted(|x.extents|, 2, rest);
  }

  lemma FindStep(b: seq<byte>, n: nat, h: IlocLayout, want: nat, id: nat, loc: ItemLocation, rest: seq<byte>)
    requires n > 0 && ParseItem(b, h) == Got((id, loc), rest)
    ensures FindItem(b, n, h, want) == if id == want then Some(loc) else FindItem(rest, n - 1, h, want)
  {
  }

  lemma {:induction false} ItemsOfPrinted(xs: seq<Item>, h: IlocLayout, want: nat, rest: seq<byte>)
    requires WellFormedLayout(h) && forall i :: 0 <= i < |xs| ==> ItemFits(xs[i], h)
    ensures FindItem(PrintItems(xs, h, rest), |xs|, h, want) == LocationOf(xs, want)
    decreases |xs|
  {
    if xs != [] {
      var x, others := xs[0], xs[1..];
      var more := PrintItems(others, h, rest);
      assert PrintItems(xs, h, rest) == PrintItem(x, h, more);
      assert forall i :: 0 <= i < |others| ==> others[i] == xs[i + 1];
      FindPrinted(x, more, |xs|, h, want);
      if x.id != want {
        ItemsOfPrinted(others, h, want, rest);
      }
    }
  }

  lemma FindPrinted(x: Item, more: seq<byte>, n: nat, h: IlocLayout, want: nat)
    requires WellFormedLayout(h) && ItemFits(x, h) && n > 0
    ensures FindItem(PrintItem(x, h, more), n, h, want) ==
            if x.id == want then Some(ItemLocation(x.method_, x.base, x.extents)) else FindItem(more, n - 1, h, want)
  {
    ItemOfPrinted(x, h, more);
    FindStep(PrintItem(x, h, more), n, h, want, x.id, ItemLocation(x.method_, x.base, x.extents), more);
  }

  lemma Nibbles(a: nat, b: nat, c: nat, d: nat)
    requires a < 16 && b < 16 && c < 16 && d < 16
    ensures var n := a * 4096 + b * 256 + c * 16 + d;
            n < 0x1_0000 && n / 4096 == a && n / 256 % 16 == b && n / 16 % 16 == c && n % 16 == d
  {
    var n := a * 4096 + b * 256 + c * 16 + d;
    assert n / 256 == a * 16 + b && n / 16 == a * 256 + b * 16 + c;
  }

  lemma LayoutOfPrinted(h: IlocLayout, flags: nat)
    requires WellFormedLayout(h) && flags < 0x100_0000
    ensures h.version * 0x100_0000 + flags < 0x1_0000_0000 && SizesField(h) < 0x1_0000
    ensures Layout((h.version * 0x100_0000 + flags) / 0x100_0000, SizesField(h)) == h
  {
    Nibbles(h.offsetSize, h.lengthSize, h.baseSize, h.indexNibble);
  }

  lemma IlocHeaderOfPrinted(full: nat, sizes: nat, count: nat, h: IlocLayout, items: seq<byte>, want: nat)
    requires full < 0x1_0000_0000 && sizes < 0x1_0000 && Layout(full / 0x100_0000, sizes) == h
    requires count < Limit(h.IdWidth())
    ensures ParseIlocBody(ToBe(full, 4) + (ToBe(sizes, 2) + (ToBe(count, h.IdWidth()) + items)), want)
         == FindItem(items, count, h, want)
  {
    var b2 := ToBe(count, h.IdWidth()) + items;
    var b1 := ToBe(sizes, 2) + b2;
    FieldOfPrinted(full, 4, b1);
    FieldOfPrinted(sizes, 2, b2);
    FieldOfPrinted(count, h.IdWidth(), items);
  }

  /** For every well-formed table, looking up an id returns the location of the first item with it. */
  lemma IlocOfPrinted(flags: nat, xs: seq<Item>, h: IlocLayout, want: nat, rest: seq<byte>)
    requires WellFormedLayout(h) && flags < 0x100_0000 && |xs| < Limit(IdBytes(h.version))
    requires forall i :: 0 <= i < |xs| ==> ItemFits(xs[i], h)
    ensures ParseIlocBody(PrintIlocBody(flags, xs, h, rest), want) == LocationOf(xs, want)
  {
    var items := PrintItems(xs, h, rest);
    assert ParseIlocBody(PrintIlocBody(flags, xs, h, rest), want) == FindItem(items, |xs|, h, want) by {
      LayoutOfPrinted(h, flags);
      IlocHeaderOfPrinted(h.version * 0x100_0000 + flags, SizesField(h), |xs|, h, items, want);
    }
    assert FindItem(items, |xs|, h, want) == LocationOf(xs, want) by {
      ItemsOfPrinted(xs, h, want, rest);
    }
  }
}
