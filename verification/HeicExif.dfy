/**
 The EXIF item of a HEIC file: `iinf` (section 8.11.6 of ISO/IEC 14496-12) names it, `iloc` locates its bytes, and
 these begin with a four-byte offset to the TIFF block.
 */
module HeicExif {
  import opened Basics
  import opened Bytes
  import opened Isobmff
  import opened HeicItems
  import opened HeicProperties
  import opened HeicDims
  import opened HeicReader

  const IDAT: seq<byte> := [0x69, 0x64, 0x61, 0x74]
  const IINF: seq<byte> := [0x69, 0x69, 0x6e, 0x66]
  const ILOC: seq<byte> := [0x69, 0x6c, 0x6f, 0x63]
  const EXIF: seq<byte> := [0x45, 0x78, 0x69, 0x66]

  lemma TypesSpell()
    ensures IDAT == Ascii("idat") && IINF == Ascii("iinf") && ILOC == Ascii("iloc") && EXIF == Ascii("Exif")
  {
  }

  // ---- iinf ----

  /** One item information box: nothing if it is cut, and else the item id if the item is EXIF. */
  function ParseInfe(infe: seq<byte>): Option<Option<nat>>
    requires |infe| >= 8
  {
    match Field(infe[8..], 4)
    case Fail => None
    case Got(full, b1) =>
      var version := full / VERSION_UNIT;
      if version != 2 && version != 3 then Some(None)
      else match Field(b1, if version == 2 then 2 else 4)
        case Fail => None
        case Got(id, b2) =>
          match Field(b2, 2)
          case Fail => None
          case Got(_, b3) =>
            match Take(b3, 4)
            case Fail => None
            case Got(typ, _) => Some(if typ == EXIF then Some(id) else None)
  }

  /** The last EXIF item of the next `n` boxes. */
  function FindExif(b: seq<byte>, n: nat, found: Option<nat>): Option<Option<nat>>
    decreases n
  {
    if n == 0 then Some(found)
    else match BoxAtStart(b)
      case Fail => None
      case Got(infe, rest) =>
        match ParseInfe(infe)
        case None => None
        case Some(id) => FindExif(rest, n - 1, if id.Some? then id else found)
  }

  function ParseIinfBody(b: seq<byte>): Option<nat> {
    match Field(b, 4)
    case Fail => None
    case Got(full, b1) =>
      match Field(b1, if full / VERSION_UNIT == 0 then 2 else 4)
      case Fail => None
      case Got(count, b2) => if FindExif(b2, count, None).None? then None else FindExif(b2, count, None).value
  }

  function ParseIinf(boxb: seq<byte>): Option<nat> {
    if |boxb| < 8 then None else ParseIinfBody(boxb[8..])
  }

  // ---- the children of meta ----

  datatype Seen = Seen(idat: Option<seq<byte>>, exifId: Option<nat>, iloc: Option<seq<byte>>)

  function SeeChild(child: seq<byte>, st: Seen): Option<Seen>
    requires |child| >= 8
  {
    if TypeOf(child) == IDAT then (if |child| < 12 then None else Some(st.(idat := Some(child[12..]))))
    else if TypeOf(child) == IINF then Some(st.(exifId := ParseIinf(child)))
    else if TypeOf(child) == ILOC then Some(st.(iloc := Some(child)))
    else Some(st)
  }

  function SeeAll(b: seq<byte>, st: Seen): Option<Seen>
    decreases |b|
  {
    if |b| < 8 then Some(st)
    else match BoxAtStart(b)
      case Fail => None
      case Got(child, rest) => if SeeChild(child, st).None? then None else SeeAll(rest, SeeChild(child, st).value)
  }

  // ---- the bytes of the item ----

  /** What an extent names; a length of 0 means everything from there, and nothing outside the source is read. */
  function Segment(src: seq<byte>, start: nat, length: nat): seq<byte> {
    if start > |src| then []
    else if length == 0 then src[start..]
    else if start + length > |src| then []
    else src[start..start + length]
  }

  /** All extents in order; a start beyond 64 bits is an error. */
  function Gather(src: seq<byte>, base: nat, es: seq<Extent>): Option<seq<byte>> {
    if es == [] then Some([])
    else if base + es[|es| - 1].offset >= U64_RANGE then None
    else
      var init := Gather(src, base, es[..|es| - 1]);
      if init.None? then None
      else Some(init.value + Segment(src, base + es[|es| - 1].offset, es[|es| - 1].length))
  }

  function TiffOf(buf: seq<byte>): Option<seq<byte>> {
    if |buf| < 4 || |buf| < 4 + Be(buf[..4]) then None else Some(buf[4 + Be(buf[..4])..])
  }

  /** The TIFF block at a location, in the file or in the item data box. */
  function TiffAt(loc: ItemLocation, file: seq<byte>, idat: Option<seq<byte>>): Option<seq<byte>> {
    if loc.method_ > 1 || (loc.method_ == 1 && idat.None?) then None
    else
      var buf := Gather(if loc.method_ == 0 then file else idat.value, loc.base, loc.extents);
      if buf.None? then None else TiffOf(buf.value)
  }

  function TiffFrom(st: Seen, file: seq<byte>): Option<seq<byte>> {
    if st.iloc.None? || st.exifId.None? then None
    else
      var loc := ParseIlocBox(st.iloc.value, st.exifId.value);
      if loc.None? then None else TiffAt(loc.value, file, st.idat)
  }

  const NOTHING_SEEN := Seen(None, None, None)

  /** An error is a panic: the version and flags of a `meta` box are sliced off unchecked. */
  function ExtractTiff(data: seq<byte>): Result<Option<seq<byte>>> {
    var body := FindMetaBody(data);
    if body.None? then Ok(None)
    else if |body.value| < 4 then Err
    else
      var st := SeeAll(body.value[4..], NOTHING_SEEN);
      Ok(if st.None? then None else TiffFrom(st.value, data))
  }

  // ---- the parsers as they run ----

  method ReadInfe(infe: seq<byte>) returns (r: Option<Option<nat>>)
    requires |infe| >= 8
    ensures r == ParseInfe(infe)
  {
    var e := new Cur(infe[8..]);
    var full := e.Number(4);
    if full.None? {
      return None;
    }
    var version := full.value / VERSION_UNIT;
    var id: Option<nat>;
    if version == 2 {
      id := e.Number(2);
    } else if version == 3 {
      id := e.Number(4);
    } else {
      return Some(None);
    }
    if id.None? {
      return None;
    }
    var protection := e.Number(2);
    if protection.None? {
      return None;
    }
    var typ := e.TakeBytes(4);
    if typ.None? {
      return None;
    }
    r := Some(if typ.value == EXIF then id else None);
  }

  /** The item id of the last EXIF item. */
  method ReadIinf(boxb: seq<byte>) returns (r: Option<nat>)
    ensures r == ParseIinf(boxb)
  {
    if |boxb| < 8 {
      return None;
    }
    var cur := new Cur(boxb[8..]);
    var full := cur.Number(4);
    if full.None? {
      return None;
    }
    var count := cur.Number(if full.value / VERSION_UNIT == 0 then 2 else 4);
    if count.None? {
      return None;
    }
    var last := ReadInfes(cur, count.value);
    r := if last.None? then None else last.value;
  }

  /** The loop over the item information boxes. */
  method ReadInfes(cur: Cur, count: nat) returns (r: Option<Option<nat>>)
    modifies cur
    ensures r == FindExif(old(cur.b), count, None)
  {
    var last: Option<nat> := None;
    for i := 0 to count
      invariant FindExif(cur.b, count - i, last) == FindExif(old(cur.b), count, None)
    {
      var infe := cur.NextBox();
      if infe.None? {
        return None;
      }
      var id := ReadInfe(infe.value);
      if id.None? {
        return None;
      }
      if id.value.Some? {
        last := id.value;
      }
    }
    r := Some(last);
  }

  /** The loop over the extents. */
  method ReadItem(src: seq<byte>, base: nat, extents: seq<Extent>) returns (r: Option<seq<byte>>)
    ensures r == Gather(src, base, extents)
  {
    var buf := [];
    assert extents[..0] == [];
    for i := 0 to |extents|
      invariant Gather(src, base, extents[..i]) == Some(buf)
    {
      var start := base + extents[i].offset;
      assert extents[..i + 1][..i] == extents[..i];
      if start >= U64_RANGE {
        GatherFails(src, base, extents, i + 1);
        return None;
      }
      buf := buf + Segment(src, start, extents[i].length);
    }
    assert extents[..|extents|] == extents;
    r := Some(buf);
  }

  lemma {:induction false} GatherFails(src: seq<byte>, base: nat, es: seq<Extent>, i: nat)
    requires i <= |es| && Gather(src, base, es[..i]).None?
    ensures Gather(src, base, es).None?
    decreases |es| - i
  {
    if i == |es| {
      assert es[..i] == es;
    } else {
      assert es[..i + 1][..i] == es[..i];
      GatherFails(src, base, es, i + 1);
    }
  }

  method ReadTiff(st: Seen, file: seq<byte>) returns (r: Option<seq<byte>>)
    ensures r == TiffFrom(st, file)
  {
    if st.iloc.None? || st.exifId.None? {
      return None;
    }
    var loc := ParseIloc(st.iloc.value, st.exifId.value);
    if loc.None? || loc.value.method_ > 1 || (loc.value.method_ == 1 && st.idat.None?) {
      return None;
    }
    var src := if loc.value.method_ == 0 then file else st.idat.value;
    var buf := ReadItem(src, loc.value.base, loc.value.extents);
    if buf.None? || |buf.value| < 4 {
      return None;
    }
    var offset := Be(buf.value[..4]);
    if |buf.value| < 4 + offset {
      return None;
    }
    r := Some(buf.value[4 + offset..]);
  }

  method ExtractHeicExifTiff(data: seq<byte>) returns (r: Result<Option<seq<byte>>>)
    ensures r == ExtractTiff(data)
  {
    var body := FindMeta(data);
    if body.None? {
      return Ok(None);
    }
    if |body.value| < 4 {
      return Err;
    }
    var cur := new Cur(body.value[4..]);
    var st := NOTHING_SEEN;
    ghost var target := SeeAll(cur.b, st);
    while |cur.b| >= 8
      invariant SeeAll(cur.b, st) == target
      decreases |cur.b|
    {
      var child := cur.NextBox();
      if child.None? {
        return Ok(None);
      }
      if child.value[4..8] == IDAT {
        if |child.value| < 12 {
          return Ok(None);
        }
        st := st.(idat := Some(child.value[12..]));
      } else if child.value[4..8] == IINF {
        var id := ReadIinf(child.value);
        st := st.(exifId := id);
      } else if child.value[4..8] == ILOC {
        st := st.(iloc := child);
      }
    }
    var tiff := ReadTiff(st, data);
    r := Ok(tiff);
  }

  // ---- what a file says ----

  /** An item information box; versions other than 2 and 3 are passed over. */
  datatype Infe = Infe(
    form: SizeForm, boxType: seq<byte>, version: nat, flags: nat,
    id: nat, protection: nat, itemType: seq<byte>, rest: seq<byte>)

  predicate Supported(e: Infe) {
    e.version == 2 || e.version == 3
  }

  function IdWidthOf(e: Infe): nat {
    if e.version == 2 then 2 else 4
  }

  function InfeBox(e: Infe): Box {
    var full := ToBe(e.version * VERSION_UNIT + e.flags, 4);
    var item := ToBe(e.id, IdWidthOf(e)) + (ToBe(e.protection, 2) + (e.itemType + e.rest));
    Box(e.form, e.boxType, full + if Supported(e) then item else e.rest)
  }

  predicate InfeFits(e: Infe) {
    && Printable(InfeBox(e)) && Fits(InfeBox(e)) && e.version < 256 && e.flags < VERSION_UNIT
    && (Supported(e) ==> e.id < Limit(IdWidthOf(e)) && e.protection < 0x1_0000 && |e.itemType| == 4)
  }

  function InfeBoxes(es: seq<Infe>): seq<Box> {
    if es == [] then [] else [InfeBox(es[0])] + InfeBoxes(es[1..])
  }

  function PrintIinf(version: nat, flags: nat, es: seq<Infe>): seq<byte> {
    ToBe(version * VERSION_UNIT + flags, 4)
    + (ToBe(|es|, if version == 0 then 2 else 4) + Concat(PrintAll(InfeBoxes(es))))
  }

  /** What one box says to the reader: behind a 64-bit size it looks like an unsupported version. */
  function SaysExif(e: Infe): Option<nat> {
    if Supported(e) && !e.form.Long? && e.itemType == EXIF then Some(e.id) else None
  }

  /** The last item of type EXIF. */
  function ExifItem(es: seq<Infe>): Option<nat> {
    if es == [] then None
    else if ExifItem(es[1..]).Some? then ExifItem(es[1..])
    else SaysExif(es[0])
  }

  predicate WellFormedIinf(version: nat, flags: nat, es: seq<Infe>) {
    && version < 256 && flags < VERSION_UNIT && |es| < Limit(if version == 0 then 2 else 4)
    && (forall i :: 0 <= i < |es| ==> InfeFits(es[i]))
    && (forall i :: 0 <= i < |es| - 1 ==> !es[i].form.ToEnd?)
  }

  // ---- reading what was printed ----

  lemma InfeOfPrinted(e: Infe)
    requires InfeFits(e)
    ensures |Print(InfeBox(e))| >= 8 && ParseInfe(Print(InfeBox(e))) == Some(SaysExif(e))
  {
    var x := InfeBox(e);
    if e.form.Long? {
      LongBoxIsMisread(x);
      FieldOfPrinted(0, 4, ToBe(16 + |x.body|, 4) + x.body);
    } else {
      HeaderIsEight(x);
      InfeBodyOfPrinted(e);
    }
  }

  lemma InfeBodyOfPrinted(e: Infe)
    requires InfeFits(e) && !e.form.Long? && |Print(InfeBox(e))| >= 8 && Print(InfeBox(e))[8..] == InfeBox(e).body
    ensures ParseInfe(Print(InfeBox(e))) == Some(SaysExif(e))
  {
    var full := e.version * VERSION_UNIT + e.flags;
    VersionAndFlags(e.version, e.flags);
    if Supported(e) {
      var b3 := e.itemType + e.rest;
      var b2 := ToBe(e.protection, 2) + b3;
      FieldOfPrinted(full, 4, ToBe(e.id, IdWidthOf(e)) + b2);
      FieldOfPrinted(e.id, IdWidthOf(e), b2);
      FieldOfPrinted(e.protection, 2, b3);
      assert b3[..4] == e.itemType;
    } else {
      FieldOfPrinted(full, 4, e.rest);
    }
  }

  lemma {:induction false} InfesOfPrinted(es: seq<Infe>, found: Option<nat>)
    requires forall i :: 0 <= i < |es| ==> InfeFits(es[i])
    requires forall i :: 0 <= i < |es| - 1 ==> !es[i].form.ToEnd?
    ensures FindExif(Concat(PrintAll(InfeBoxes(es))), |es|, found)
         == Some(if ExifItem(es).Some? then ExifItem(es) else found)
    decreases |es|
  {
    if es != [] {
      PrintedInfes(es);
      assert es[0].form.ToEnd? ==> es[1..] == [];
      FindPrintedInfe(es[0], Concat(PrintAll(InfeBoxes(es[1..]))), |es|, found);
      InfesOfPrinted(es[1..], if SaysExif(es[0]).Some? then SaysExif(es[0]) else found);
    }
  }

  lemma FindPrintedInfe(e: Infe, rest: seq<byte>, n: nat, found: Option<nat>)
    requires InfeFits(e) && n > 0 && (e.form.ToEnd? ==> rest == [])
    ensures FindExif(Print(InfeBox(e)) + rest, n, found)
         == FindExif(rest, n - 1, if SaysExif(e).Some? then SaysExif(e) else found)
  {
    BoxOfPrinted(InfeBox(e), rest);
    InfeOfPrinted(e);
    FindExifStep(Print(InfeBox(e)) + rest, n, found, Print(InfeBox(e)), rest, SaysExif(e));
  }

  lemma PrintedInfes(es: seq<Infe>)
    requires es != []
    ensures Concat(PrintAll(InfeBoxes(es))) == Print(InfeBox(es[0])) + Concat(PrintAll(InfeBoxes(es[1..])))
  {
    assert InfeBoxes(es)[1..] == InfeBoxes(es[1..]);
    ConcatCons(Print(InfeBox(es[0])), PrintAll(InfeBoxes(es[1..])));
  }

  lemma FindExifStep(b: seq<byte>, n: nat, found: Option<nat>, infe: seq<byte>, rest: seq<byte>, id: Option<nat>)
    requires n > 0 && BoxAtStart(b) == Got(infe, rest) && ParseInfe(infe) == Some(id)
    ensures FindExif(b, n, found) == FindExif(rest, n - 1, if id.Some? then id else found)
  {
  }

  /** What the front half of a 64-bit size leaves for a 16-bit count, and the rest for the boxes behind it. */
  function LongIinfRead(body: seq<byte>): Option<nat> {
    var size := 16 + |body|;
    var found := FindExif(ToBe(size % 0x1_0000, 2) + body, size / 0x1_0000, None);
    if found.None? then None else found.value
  }

  /** The item id that is read of an `iinf` box. */
  function IinfRead(form: SizeForm, version: nat, flags: nat, es: seq<Infe>): Option<nat> {
    if form.Long? then LongIinfRead(PrintIinf(version, flags, es)) else ExifItem(es)
  }

  /**
   The id of the last EXIF item is found, whatever items surround it, unless the size has 64 bits: then the size is
   taken for the count, and in a box of less than 64 KiB no item is found.
   */
  lemma IinfOfPrinted(form: SizeForm, version: nat, flags: nat, es: seq<Infe>)
    requires WellFormedIinf(version, flags, es) && Fits(Box(form, IINF, PrintIinf(version, flags, es)))
    ensures ParseIinf(Print(Box(form, IINF, PrintIinf(version, flags, es)))) == IinfRead(form, version, flags, es)
    ensures form.Long? && 16 + |PrintIinf(version, flags, es)| < 0x1_0000 ==> IinfRead(form, version, flags, es) == None
  {
    if form.Long? {
      LongIinfOfPrinted(Box(form, IINF, PrintIinf(version, flags, es)));
    } else {
      ShortIinfOfPrinted(form, version, flags, es);
    }
  }

  lemma LongIinfOfPrinted(x: Box)
    requires |x.typ| == 4 && x.form.Long? && 16 + |x.body| < 0x1_0000_0000
    ensures ParseIinf(Print(x)) == LongIinfRead(x.body)
  {
    var size := 16 + |x.body|;
    LongBoxIsMisread(x);
    Halves(size);
    Associative(ToBe(size / 0x1_0000, 2), ToBe(size % 0x1_0000, 2), x.body);
    FieldOfPrinted(0, 4, ToBe(size, 4) + x.body);
    FieldOfPrinted(size / 0x1_0000, 2, ToBe(size % 0x1_0000, 2) + x.body);
  }

  lemma Halves(n: nat)
    requires n < 0x1_0000_0000
    ensures ToBe(n, 4) == ToBe(n / 0x1_0000, 2) + ToBe(n % 0x1_0000, 2)
  {
    ToBeSplits(n, 2, 2);
    assert Shift(n, 2) == Shift(n / 256, 1) == n / 256 / 256;
    LowBytes(n);
    LowBytes(n % 0x1_0000);
  }

  lemma LowBytes(n: nat)
    ensures ToBe(n, 2) == [n / 256 % 256, n % 256]
  {
    assert ToBe(n / 256, 1) == [n / 256 % 256];
  }

  lemma ShortIinfOfPrinted(form: SizeForm, version: nat, flags: nat, es: seq<Infe>)
    requires !form.Long? && WellFormedIinf(version, flags, es)
    ensures ParseIinf(Print(Box(form, IINF, PrintIinf(version, flags, es)))) == ExifItem(es)
  {
    HeaderIsEight(Box(form, IINF, PrintIinf(version, flags, es)));
    var boxes := Concat(PrintAll(InfeBoxes(es)));
    VersionAndFlags(version, flags);
    assert FindExif(boxes, |es|, None) == Some(ExifItem(es)) by {
      InfesOfPrinted(es, None);
    }
    IinfHeaderOfPrinted(version * VERSION_UNIT + flags, |es|, boxes, ExifItem(es));
  }

  lemma IinfHeaderOfPrinted(full: nat, count: nat, rest: seq<byte>, found: Option<nat>)
    requires full < 0x1_0000_0000 && count < Limit(if full / VERSION_UNIT == 0 then 2 else 4)
    requires FindExif(rest, count, None) == Some(found)
    ensures ParseIinfBody(ToBe(full, 4) + (ToBe(count, if full / VERSION_UNIT == 0 then 2 else 4) + rest)) == found
  {
    var width := if full / VERSION_UNIT == 0 then 2 else 4;
    FieldOfPrinted(full, 4, ToBe(count, width) + rest);
    FieldOfPrinted(count, width, rest);
  }

  /** The location that is read of an `iloc` box. */
  function IlocRead(form: SizeForm, flags: nat, xs: seq<Item>, h: IlocLayout, rest: seq<byte>, want: nat):
    Option<ItemLocation>
  {
    if form.Long? then
      var body := PrintIlocBody(flags, xs, h, rest);
      var size := 16 + |body|;
      FindItem(body, size % 0x1_0000, Layout(0, size / 0x1_0000), want)
    else LocationOf(xs, want)
  }

  /**
   Looking up an id in a whole box returns the location of the first item with it, unless the size has 64 bits: then
   its halves are taken for the field sizes and the number of items, and the table for the items themselves.
   */
  lemma IlocBoxOfPrinted(form: SizeForm, flags: nat, xs: seq<Item>, h: IlocLayout, want: nat, rest: seq<byte>)
    requires WellFormedLayout(h) && flags < 0x100_0000 && |xs| < Limit(IdBytes(h.version))
    requires forall i :: 0 <= i < |xs| ==> ItemFits(xs[i], h)
    requires Fits(Box(form, ILOC, PrintIlocBody(flags, xs, h, rest)))
    ensures ParseIlocBox(Print(Box(form, ILOC, PrintIlocBody(flags, xs, h, rest))), want)
         == IlocRead(form, flags, xs, h, rest, want)
  {
    var x := Box(form, ILOC, PrintIlocBody(flags, xs, h, rest));
    if form.Long? {
      LongIlocOfPrinted(x, want);
    } else {
      HeaderIsEight(x);
      IlocOfPrinted(flags, xs, h, want, rest);
    }
  }

  lemma LongIlocOfPrinted(x: Box, want: nat)
    requires |x.typ| == 4 && x.form.Long? && 16 + |x.body| < 0x1_0000_0000
    ensures var size := 16 + |x.body|;
            ParseIlocBox(Print(x), want) == FindItem(x.body, size % 0x1_0000, Layout(0, size / 0x1_0000), want)
  {
    var size := 16 + |x.body|;
    LongBoxIsMisread(x);
    Halves(size);
    Associative(ToBe(size / 0x1_0000, 2), ToBe(size % 0x1_0000, 2), x.body);
    IlocHeaderOfPrinted(0, size / 0x1_0000, size % 0x1_0000, Layout(0, size / 0x1_0000), x.body, want);
  }

  /** What is read of an item data box; a cut one stops the reader. */
  function ItemData(x: Box): seq<byte> {
    if x.form.Long? then ToBe(16 + |x.body|, 4) + x.body else if IsCut(x) then [] else x.body[4..]
  }

  predicate IsCut(x: Box) {
    !x.form.Long? && |x.body| < 4
  }

  /**
   The box has no version and flags, but the reader skips them: four bytes of the data are lost, or half of a 64-bit
   size is taken for data.
   */
  lemma ItemDataOfPrinted(x: Box)
    requires Printable(x) && Fits(x)
    ensures |Print(x)| < 12 <==> IsCut(x)
    ensures !IsCut(x) ==> Print(x)[12..] == ItemData(x)
  {
    BodyAfterHeader(x);
    if x.form.Long? {
      LongBoxIsMisread(x);
    }
    if !IsCut(x) {
      SliceOfRest(Print(x), 8, 4, 4);
    }
  }

  /** What the scan of printed children sees. */
  function Recorded(xs: seq<Box>, st: Seen): Seen {
    if xs == [] then st
    else
      var p := Print(xs[0]);
      Recorded(xs[1..],
        if xs[0].typ == IDAT then st.(idat := Some(ItemData(xs[0])))
        else if xs[0].typ == IINF then st.(exifId := ParseIinf(p))
        else if xs[0].typ == ILOC then st.(iloc := Some(p))
        else st)
  }

  /** Some item data box is cut. */
  predicate HasCut(xs: seq<Box>) {
    xs != [] && ((xs[0].typ == IDAT && IsCut(xs[0])) || HasCut(xs[1..]))
  }

  lemma TypesDiffer()
    ensures IDAT != IINF && IDAT != ILOC && IINF != ILOC
  {
    assert IDAT[1] != IINF[1] && IDAT[1] != ILOC[1] && IINF[1] != ILOC[1];
  }

  lemma {:induction false} ChildrenSeen(xs: seq<Box>, st: Seen)
    requires PrintableAll(xs) && forall i :: 0 <= i < |xs| ==> Fits(xs[i])
    ensures SeeAll(Concat(PrintAll(xs)), st) == if HasCut(xs) then None else Some(Recorded(xs, st))
    decreases |xs|
  {
    if xs != [] {
      var p, rest := Print(xs[0]), Concat(PrintAll(xs[1..]));
      ConcatCons(p, PrintAll(xs[1..]));
      assert xs[0].form.ToEnd? ==> xs[1..] == [];
      assert forall i :: 0 <= i < |xs[1..]| ==> xs[1..][i] == xs[i + 1];
      BoxOfPrinted(xs[0], rest);
      ChildSeen(xs[0], st);
      SeeStep(p + rest, st, p, rest);
      if SeeChild(p, st).Some? {
        ChildrenSeen(xs[1..], SeeChild(p, st).value);
      }
    }
  }

  lemma SeeStep(b: seq<byte>, st: Seen, child: seq<byte>, rest: seq<byte>)
    requires |b| >= 8 && BoxAtStart(b) == Got(child, rest)
    ensures SeeAll(b, st) == if SeeChild(child, st).None? then None else SeeAll(rest, SeeChild(child, st).value)
  {
  }

  lemma ChildSeen(x: Box, st: Seen)
    requires Printable(x) && Fits(x)
    ensures |Print(x)| >= 8
    ensures SeeChild(Print(x), st) == if x.typ == IDAT && IsCut(x) then None else Some(Recorded([x], st))
  {
    BodyAfterHeader(x);
    ItemDataOfPrinted(x);
    FrontOfPrinted(x, []);
    assert [x][1..] == [];
  }

  /** The scan ends with the last box of each kind. */
  lemma {:induction false} RecordsTheLastOfEach(xs: seq<Box>, st: Seen)
    ensures var idat, iinf, iloc := LastOf(xs, IDAT), LastOf(xs, IINF), LastOf(xs, ILOC);
            && (iinf.Some? ==> Recorded(xs, st).exifId == ParseIinf(Print(iinf.value)))
            && (iinf.None? ==> Recorded(xs, st).exifId == st.exifId)
            && Recorded(xs, st).iloc == (if iloc.Some? then Some(Print(iloc.value)) else st.iloc)
            && Recorded(xs, st).idat == (if idat.Some? then Some(ItemData(idat.value)) else st.idat)
    decreases |xs|
  {
    TypesDiffer();
    if xs != [] {
      var p := Print(xs[0]);
      var st' := if xs[0].typ == IDAT then st.(idat := Some(ItemData(xs[0])))
                 else if xs[0].typ == IINF then st.(exifId := ParseIinf(p))
                 else if xs[0].typ == ILOC then st.(iloc := Some(p)) else st;
      RecordsTheLastOfEach(xs[1..], st');
    }
  }

  /** What a file says about its EXIF item: the tables that decide. */
  datatype ExifTable = ExifTable(
    iinfForm: SizeForm, iinfVersion: nat, iinfFlags: nat, infes: seq<Infe>,
    ilocForm: SizeForm, ilocFlags: nat, items: seq<Item>, layout: IlocLayout, padding: seq<byte>)

  function IinfBox(t: ExifTable): Box {
    Box(t.iinfForm, IINF, PrintIinf(t.iinfVersion, t.iinfFlags, t.infes))
  }

  function IlocBox(t: ExifTable): Box {
    Box(t.ilocForm, ILOC, PrintIlocBody(t.ilocFlags, t.items, t.layout, t.padding))
  }

  predicate WellFormedExif(t: ExifTable) {
    && Fits(IinfBox(t)) && Fits(IlocBox(t))
    && WellFormedIinf(t.iinfVersion, t.iinfFlags, t.infes)
    && WellFormedLayout(t.layout) && t.ilocFlags < 0x100_0000 && |t.items| < Limit(IdBytes(t.layout.version))
    && forall i :: 0 <= i < |t.items| ==> ItemFits(t.items[i], t.layout)
  }

  predicate DecidesExif(xs: seq<Box>, t: ExifTable) {
    LastOf(xs, IINF) == Some(IinfBox(t)) && LastOf(xs, ILOC) == Some(IlocBox(t))
  }

  /** Where the EXIF item is. */
  function ExifLocation(t: ExifTable): Option<ItemLocation> {
    if ExifItem(t.infes).None? then None else LocationOf(t.items, ExifItem(t.infes).value)
  }

  /** Where it is read to be; the same place unless one of the tables has a 64-bit size. */
  function LocationRead(t: ExifTable): Option<ItemLocation> {
    if !t.iinfForm.Long? && !t.ilocForm.Long? then ExifLocation(t)
    else
      var id := IinfRead(t.iinfForm, t.iinfVersion, t.iinfFlags, t.infes);
      if id.None? then None else IlocRead(t.ilocForm, t.ilocFlags, t.items, t.layout, t.padding, id.value)
  }

  lemma TablesOfPrinted(t: ExifTable, st: Seen, file: seq<byte>)
    requires WellFormedExif(t)
    requires st.exifId == ParseIinf(Print(IinfBox(t))) && st.iloc == Some(Print(IlocBox(t)))
    ensures TiffFrom(st, file) ==
            if LocationRead(t).None? then None else TiffAt(LocationRead(t).value, file, st.idat)
  {
    IinfOfPrinted(t.iinfForm, t.iinfVersion, t.iinfFlags, t.infes);
    if st.exifId.Some? {
      IlocBoxOfPrinted(t.ilocForm, t.ilocFlags, t.items, t.layout, st.exifId.value, t.padding);
    }
  }

  ghost function ItemDataOf(xs: seq<Box>): Option<seq<byte>> {
    if LastOf(xs, IDAT).None? then None else Some(ItemData(LastOf(xs, IDAT).value))
  }

  /**
   Extracting from a printed file reads the bytes that its tables give to its EXIF item, in whatever size forms they
   are printed; a cut item data box, needed or not, stops it.
   */
  lemma ExifOfPrinted(f: Heic, t: ExifTable)
    requires WellFormedFile(f) && WellFormedExif(t) && DecidesExif(AsBoxes(f.children), t)
    requires forall i :: 0 <= i < |AsBoxes(f.children)| ==> Fits(AsBoxes(f.children)[i])
    ensures ExtractTiff(PrintFile(f)) == Ok(
              if HasCut(AsBoxes(f.children)) || LocationRead(t).None? then None
              else TiffAt(LocationRead(t).value, PrintFile(f), ItemDataOf(AsBoxes(f.children))))
  {
    var children := Concat(PrintAll(AsBoxes(f.children)));
    var body := f.versionFlags + children;
    assert FindMetaBody(PrintFile(f)) == Some(body) by {
      MetaOfPrinted(f.before, MetaBox(f), f.after);
    }
    assert body[4..] == children;
    ChildrenSeen(AsBoxes(f.children), NOTHING_SEEN);
    RecordsTheLastOfEach(AsBoxes(f.children), NOTHING_SEEN);
    TablesOfPrinted(t, Recorded(AsBoxes(f.children), NOTHING_SEEN), PrintFile(f));
  }

  /** The extents are gathered exactly if none of them starts beyond 64 bits. */
  lemma {:induction false} GatheredIff(src: seq<byte>, base: nat, es: seq<Extent>)
    ensures Gather(src, base, es).Some? <==>
            forall i :: 0 <= i < |es| ==> base + es[i].offset < 0x1_0000_0000_0000_0000
    decreases |es|
  {
    if es != [] {
      var init := es[..|es| - 1];
      GatheredIff(src, base, init);
      assert forall i :: 0 <= i < |init| ==> init[i] == es[i];
    }
  }

  /** The extraction panics exactly on a `meta` box too short for its version and flags. */
  lemma PanicsIff(before: seq<Box>, form: SizeForm, body: seq<byte>, after: seq<byte>)
    requires forall i :: 0 <= i < |before| ==>
               Printable(before[i]) && !before[i].form.ToEnd? && before[i].typ != META
    requires Printable(Box(form, META, body)) && (form.ToEnd? ==> after == [])
    ensures ExtractTiff(Concat(PrintAll(before)) + (Print(Box(form, META, body)) + after)).Err? <==> |body| < 4
  {
    MetaOfPrinted(before, Box(form, META, body), after);
  }

  /** The bytes that the extents name, one after the other; a length of 0 names everything from the offset on. */
  function Named(file: seq<byte>, base: nat, es: seq<Extent>): seq<byte>
    requires forall i :: 0 <= i < |es| ==> base + es[i].offset + es[i].length <= |file|
  {
    if es == [] then []
    else
      var e := es[|es| - 1];
      var start := base + e.offset;
      Named(file, base, es[..|es| - 1]) + file[start..if e.length == 0 then |file| else start + e.length]
  }

  lemma {:induction false} GatherIsNamed(file: seq<byte>, base: nat, es: seq<Extent>)
    requires |file| < U64_RANGE
    requires forall i :: 0 <= i < |es| ==> base + es[i].offset + es[i].length <= |file|
    ensures Gather(file, base, es) == Some(Named(file, base, es))
    decreases |es|
  {
    if es != [] {
      GatherIsNamed(file, base, es[..|es| - 1]);
      var start := base + es[|es| - 1].offset;
      assert file[start..|file|] == file[start..];
    }
  }

  /** The bytes that the offsets of a location count in: the file, or the item data as it is read. */
  ghost function Source(loc: ItemLocation, f: Heic): Option<seq<byte>> {
    if loc.method_ == 0 then Some(PrintFile(f))
    else if loc.method_ == 1 then ItemDataOf(AsBoxes(f.children))
    else None
  }

  /**
   End to end: if the extents of the file's EXIF item name an offset, that many bytes and then a TIFF block, exactly
   that block is extracted, wherever in the file or its item data its parts lie.
   */
  lemma TiffIsRecovered(f: Heic, t: ExifTable, src: seq<byte>, prefix: seq<byte>, tiff: seq<byte>)
    requires WellFormedFile(f) && WellFormedExif(t) && DecidesExif(AsBoxes(f.children), t)
    requires forall i :: 0 <= i < |AsBoxes(f.children)| ==> Fits(AsBoxes(f.children)[i])
    requires LocationRead(t).Some? && Source(LocationRead(t).value, f) == Some(src) && !HasCut(AsBoxes(f.children))
    requires var loc := LocationRead(t).value;
             && |src| < U64_RANGE
             && (forall i :: 0 <= i < |loc.extents| ==>
                   loc.base + loc.extents[i].offset + loc.extents[i].length <= |src|)
             && |prefix| < 0x1_0000_0000
             && Named(src, loc.base, loc.extents) == ToBe(|prefix|, 4) + (prefix + tiff)
    ensures ExtractTiff(PrintFile(f)) == Ok(Some(tiff))
  {
    var loc := LocationRead(t).value;
    ExifOfPrinted(f, t);
    GatherIsNamed(src, loc.base, loc.extents);
    TiffAfterPrefix(prefix, tiff);
  }

  lemma TiffAfterPrefix(prefix: seq<byte>, tiff: seq<byte>)
    requires |prefix| < 0x1_0000_0000
    ensures TiffOf(ToBe(|prefix|, 4) + (prefix + tiff)) == Some(tiff)
  {
    BeOfFitting(|prefix|, 4);
    TiffAfterHeader(ToBe(|prefix|, 4), prefix, tiff);
  }

  lemma TiffAfterHeader(header: seq<byte>, prefix: seq<byte>, tiff: seq<byte>)
    requires |header| == 4 && Be(header) == |prefix|
    ensures TiffOf(header + (prefix + tiff)) == Some(tiff)
  {
    var buf := header + (prefix + tiff);
    assert buf[..4] == header && buf[4..] == prefix + tiff;
    assert buf[4 + |prefix|..] == tiff;
  }
}
