/**
 Item properties of a HEIC file: the primary item (`pitm`, section 8.11.4 of ISO/IEC 14496-12), the
 property associations (`ipma`) and the image size property (`ispe`, section 6.5.3 of ISO/IEC 23008-12).
 */
module HeicProperties {
  import opened Basics
  import opened Bytes
  import opened Isobmff

  const VERSION_UNIT := 0x100_0000

  // ---- pitm ----

  function ParsePitm(boxb: seq<byte>): Option<nat> {
    if |boxb| < 8 then None
    else match Field(boxb[8..], 4)
      case Fail => None
      case Got(full, b1) =>
        match Field(b1, if full / VERSION_UNIT == 0 then 2 else 4)
        case Fail => None
        case Got(id, _) => Some(id)
  }

  function PrintPitm(version: nat, id: nat): seq<byte> {
    ToBe(version * VERSION_UNIT, 4) + ToBe(id, if version == 0 then 2 else 4)
  }

  lemma BodyAfterHeader(x: Box)
    requires Printable(x)
    ensures x.form.Long? ==> Print(x)[8..] == ToBe(16 + |x.body|, 8) + x.body
    ensures !x.form.Long? ==> Print(x)[8..] == x.body
    ensures Print(x)[4..8] == x.typ && |Print(x)| >= 8
  {
  }

  /** The box that a parser finds in a box with a 64-bit size when it skips eight header bytes. */
  function Misread(x: Box): Box {
    Box(ToEnd, ToBe(16 + |x.body|, 4), x.body)
  }

  /**
   The parsers of `pitm`, `iprp`, `ipco`, `ipma` and `iloc` skip eight header bytes whatever the size form. Behind
   them, a box with a 64-bit size looks like a box that runs to the end, with the low half of the size for its type.
   */
  lemma LongBoxIsMisread(x: Box)
    requires Printable(x) && x.form.Long? && 16 + |x.body| < 0x1_0000_0000
    ensures |Print(x)| >= 8 && Print(x)[8..] == Print(Misread(x))
    ensures Print(x)[8..] == ToBe(0, 4) + (ToBe(16 + |x.body|, 4) + x.body)
  {
    var size := 16 + |x.body|;
    BodyAfterHeader(x);
    ToBeSplits(size, 4, 4);
    SmallShifts(size);
    Associative(ToBe(0, 4), ToBe(size, 4), x.body);
  }

  /** The primary id is read back for every version and every id, unless the size has 64 bits: then it reads as 0. */
  lemma PitmOfPrinted(form: SizeForm, typ: seq<byte>, version: nat, id: nat)
    requires |typ| == 4 && version < 256 && id < Limit(if version == 0 then 2 else 4)
    ensures ParsePitm(Print(Box(form, typ, PrintPitm(version, id)))) == Some(if form.Long? then 0 else id)
  {
    var x := Box(form, typ, PrintPitm(version, id));
    if form.Long? {
      LongPitm(x);
    } else {
      BodyAfterHeader(x);
      var last := ToBe(id, if version == 0 then 2 else 4);
      assert last + [] == last;
      FieldOfPrinted(version * VERSION_UNIT, 4, last);
      FieldOfPrinted(id, if version == 0 then 2 else 4, []);
    }
  }

  lemma LongPitm(x: Box)
    requires |x.typ| == 4 && x.form.Long? && |x.body| < 100
    ensures ParsePitm(Print(x)) == Some(0)
  {
    var size := 16 + |x.body|;
    LongBoxIsMisread(x);
    ToBeSplits(size, 2, 2);
    SmallShifts(size);
    Associative(ToBe(0, 2), ToBe(size, 2), x.body);
    FieldOfPrinted(0, 4, ToBe(size, 4) + x.body);
    FieldOfPrinted(0, 2, ToBe(size, 2) + x.body);
  }

  /** So it is read correctly exactly if the size has 32 bits or runs to the end, or the id is 0. */
  lemma PitmIsReadIff(form: SizeForm, typ: seq<byte>, version: nat, id: nat)
    requires |typ| == 4 && version < 256 && id < Limit(if version == 0 then 2 else 4)
    ensures ParsePitm(Print(Box(form, typ, PrintPitm(version, id)))) == Some(id) <==> !form.Long? || id == 0
  {
    PitmOfPrinted(form, typ, version, id);
  }

  // ---- ipma ----

  /** The essential flag of an association; the bits below it are the property index. */
  function Bit(wide: bool): nat {
    if wide then 0x8000 else 0x80
  }

  function ParseAssociations(b: seq<byte>, n: nat, wide: bool): Parsed<seq<nat>>
    decreases n
  {
    if n == 0 then Got([], b)
    else match Field(b, if wide then 2 else 1)
      case Fail => Fail
      case Got(v, b1) =>
        match ParseAssociations(b1, n - 1, wide)
        case Fail => Fail
        case Got(vs, b2) => Got([v % Bit(wide)] + vs, b2)
  }

  /** One entry: item id and property indices. */
  function ParseEntry(b: seq<byte>, version: nat, wide: bool): Parsed<(nat, seq<nat>)> {
    match Field(b, if version < 1 then 2 else 4)
    case Fail => Fail
    case Got(id, b1) =>
      match Field(b1, 1)
      case Fail => Fail
      case Got(count, b2) =>
        match ParseAssociations(b2, count, wide)
        case Fail => Fail
        case Got(indices, b3) => Got((id, indices), b3)
  }

  function FindEntry(b: seq<byte>, n: nat, version: nat, wide: bool, want: nat): Option<seq<nat>>
    decreases n
  {
    if n == 0 then None
    else match ParseEntry(b, version, wide)
      case Fail => None
      case Got(e, b1) => if e.0 == want then Some(e.1) else FindEntry(b1, n - 1, version, wide, want)
  }

  function ParseIpmaBody(b: seq<byte>, want: nat): Option<seq<nat>> {
    match Field(b, 4)
    case Fail => None
    case Got(full, b1) =>
      match Field(b1, 4)
      case Fail => None
      case Got(count, b2) => FindEntry(b2, count, full / VERSION_UNIT, full % 2 == 1, want)
  }

  function ParseIpma(boxb: seq<byte>, want: nat): Option<seq<nat>> {
    if |boxb| < 8 then None else ParseIpmaBody(boxb[8..], want)
  }

  datatype Association = Association(essential: bool, index: nat)

  datatype Entry = Entry(id: nat, associations: seq<Association>)

  /** The first bit of one or of two bytes marks an essential property. */
  function Essential(wide: bool): nat {
    if wide then 32768 else 128
  }

  predicate EntryFits(e: Entry, version: nat, wide: bool) {
    && e.id < Limit(if version < 1 then 2 else 4) && |e.associations| < 256
    && forall i :: 0 <= i < |e.associations| ==> e.associations[i].index < Essential(wide)
  }

  function PrintAssociations(xs: seq<Association>, wide: bool, rest: seq<byte>): seq<byte> {
    if xs == [] then rest
    else ToBe(AssociationValue(xs[0], wide), if wide then 2 else 1)
         + PrintAssociations(xs[1..], wide, rest)
  }

  function PrintEntry(e: Entry, version: nat, wide: bool, rest: seq<byte>): seq<byte> {
    ToBe(e.id, if version < 1 then 2 else 4)
    + (ToBe(|e.associations|, 1) + PrintAssociations(e.associations, wide, rest))
  }

  function PrintEntries(es: seq<Entry>, version: nat, wide: bool, rest: seq<byte>): seq<byte> {
    if es == [] then rest else PrintEntry(es[0], version, wide, PrintEntries(es[1..], version, wide, rest))
  }

  function PrintIpma(version: nat, flags: nat, es: seq<Entry>): seq<byte> {
    ToBe(version * VERSION_UNIT + flags, 4) + (ToBe(|es|, 4) + PrintEntries(es, version, flags % 2 == 1, []))
  }

  function Indices(xs: seq<Association>): seq<nat> {
    if xs == [] then [] else [xs[0].index] + Indices(xs[1..])
  }

  /** The indices of the first entry for the item. */
  function IndicesOf(es: seq<Entry>, want: nat): Option<seq<nat>> {
    if es == [] then None else if es[0].id == want then Some(Indices(es[0].associations)) else IndicesOf(es[1..], want)
  }

  function AssociationValue(x: Association, wide: bool): nat {
    (if x.essential then Essential(wide) else 0) + x.index
  }

  lemma EssentialBitIsDropped(x: Association, wide: bool)
    requires x.index < Essential(wide)
    ensures AssociationValue(x, wide) % Bit(wide) == x.index
    ensures AssociationValue(x, wide) < Limit(if wide then 2 else 1)
  {
  }

  lemma AssociationStep(b: seq<byte>, n: nat, wide: bool, v: nat, b1: seq<byte>, vs: seq<nat>, rest: seq<byte>)
    requires n > 0 && Field(b, if wide then 2 else 1) == Got(v, b1)
    requires ParseAssociations(b1, n - 1, wide) == Got(vs, rest)
    ensures ParseAssociations(b, n, wide) == Got([v % Bit(wide)] + vs, rest)
  {
  }

  lemma {:induction false} AssociationsOfPrinted(xs: seq<Association>, wide: bool, rest: seq<byte>)
    requires forall i :: 0 <= i < |xs| ==> xs[i].index < Essential(wide)
    ensures ParseAssociations(PrintAssociations(xs, wide, rest), |xs|, wide) == Got(Indices(xs), rest)
    decreases |xs|
  {
    if xs != [] {
      var v, more := AssociationValue(xs[0], wide), PrintAssociations(xs[1..], wide, rest);
      var width := if wide then 2 else 1;
      EssentialBitIsDropped(xs[0], wide);
      FieldOfPrinted(v, width, more);
      AssociationsOfPrinted(xs[1..], wide, rest);
      AssociationStep(ToBe(v, width) + more, |xs|, wide, v, more, Indices(xs[1..]), rest);
    }
  }

  lemma EntryOfPrinted(e: Entry, version: nat, wide: bool, rest: seq<byte>)
    requires EntryFits(e, version, wide)
    ensures ParseEntry(PrintEntry(e, version, wide, rest), version, wide) == Got((e.id, Indices(e.associations)), rest)
  {
    var b2 := PrintAssociations(e.associations, wide, rest);
    var b1 := ToBe(|e.associations|, 1) + b2;
    FieldOfPrinted(e.id, if version < 1 then 2 else 4, b1);
    FieldOfPrinted(|e.associations|, 1, b2);
    AssociationsOfPrinted(e.associations, wide, rest);
  }

  lemma FindEntryStep(b: seq<byte>, n: nat, version: nat, wide: bool, want: nat, id: nat, idx: seq<nat>,
                      rest: seq<byte>)
    requires n > 0 && ParseEntry(b, version, wide) == Got((id, idx), rest)
    ensures FindEntry(b, n, version, wide, want)
         == if id == want then Some(idx) else FindEntry(rest, n - 1, version, wide, want)
  {
  }

  lemma {:induction false} EntriesOfPrinted(es: seq<Entry>, version: nat, wide: bool, want: nat, rest: seq<byte>)
    requires forall i :: 0 <= i < |es| ==> EntryFits(es[i], version, wide)
    ensures FindEntry(PrintEntries(es, version, wide, rest), |es|, version, wide, want) == IndicesOf(es, want)
    decreases |es|
  {
    if es != [] {
      var more := PrintEntries(es[1..], version, wide, rest);
      var b := PrintEntry(es[0], version, wide, more);
      EntryOfPrinted(es[0], version, wide, more);
      FindEntryStep(b, |es|, version, wide, want, es[0].id, Indices(es[0].associations), more);
      assert PrintEntries(es, version, wide, rest) == b;
      EntriesOfPrinted(es[1..], version, wide, want, rest);
    }
  }

  lemma IpmaHeaderOfPrinted(full: nat, count: nat, rest: seq<byte>, want: nat)
    requires full < 0x1_0000_0000 && count < 0x1_0000_0000
    ensures ParseIpmaBody(ToBe(full, 4) + (ToBe(count, 4) + rest), want)
         == FindEntry(rest, count, full / VERSION_UNIT, full % 2 == 1, want)
  {
    FieldOfPrinted(full, 4, ToBe(count, 4) + rest);
    FieldOfPrinted(count, 4, rest);
  }

  lemma VersionAndFlags(version: nat, flags: nat)
    requires version < 256 && flags < VERSION_UNIT
    ensures var full := version * VERSION_UNIT + flags;
            full / VERSION_UNIT == version && full % 2 == flags % 2 && full < 0x1_0000_0000
  {
  }

  /** For every well-formed association table the wanted item's indices are found, its predecessors skipped. */
  lemma IpmaOfPrinted(version: nat, flags: nat, es: seq<Entry>, want: nat)
    requires version < 256 && flags < VERSION_UNIT && |es| < 0x1_0000_0000
    requires forall i :: 0 <= i < |es| ==> EntryFits(es[i], version, flags % 2 == 1)
    ensures ParseIpmaBody(PrintIpma(version, flags, es), want) == IndicesOf(es, want)
  {
    var full, wide := version * VERSION_UNIT + flags, flags % 2 == 1;
    var entries := PrintEntries(es, version, wide, []);
    VersionAndFlags(version, flags);
    assert ParseIpmaBody(PrintIpma(version, flags, es), want) == FindEntry(entries, |es|, version, wide, want) by {
      IpmaHeaderOfPrinted(full, |es|, entries, want);
    }
    assert FindEntry(entries, |es|, version, wide, want) == IndicesOf(es, want) by {
      EntriesOfPrinted(es, version, wide, want, []);
    }
  }

  /** What is read of an association table: behind a 64-bit size, its own header is taken for the first entries. */
  ghost function IndicesRead(form: SizeForm, version: nat, flags: nat, es: seq<Entry>, want: nat): Option<seq<nat>> {
    var body := PrintIpma(version, flags, es);
    if form.Long? then FindEntry(body, 16 + |body|, 0, false, want) else IndicesOf(es, want)
  }

  lemma IpmaBoxOfPrinted(form: SizeForm, typ: seq<byte>, version: nat, flags: nat, es: seq<Entry>, want: nat)
    requires |typ| == 4 && version < 256 && flags < VERSION_UNIT && |es| < 0x1_0000_0000
    requires forall i :: 0 <= i < |es| ==> EntryFits(es[i], version, flags % 2 == 1)
    requires form.Long? ==> 16 + |PrintIpma(version, flags, es)| < 0x1_0000_0000
    ensures ParseIpma(Print(Box(form, typ, PrintIpma(version, flags, es))), want)
         == IndicesRead(form, version, flags, es, want)
  {
    var x := Box(form, typ, PrintIpma(version, flags, es));
    if form.Long? {
      LongBoxIsMisread(x);
      IpmaHeaderOfPrinted(0, 16 + |x.body|, x.body, want);
    } else {
      assert Print(x)[8..] == x.body;
      IpmaOfPrinted(version, flags, es, want);
    }
  }

  /**
   A family of tables that are misread: with item ids below 256 first, the number of entries is taken for an item
   without properties, whatever the table says about that item.
   */
  lemma LongIpmaIsMisread(typ: seq<byte>, es: seq<Entry>)
    requires |typ| == 4 && 0 < |es| < 0x1_0000 && es[0].id < 256
    requires forall i :: 0 <= i < |es| ==> EntryFits(es[i], 0, false)
    requires 16 + |PrintIpma(0, 0, es)| < 0x1_0000_0000
    ensures ParseIpma(Print(Box(Long, typ, PrintIpma(0, 0, es))), |es|) == Some([])
  {
    var body, entries := PrintIpma(0, 0, es), PrintEntries(es, 0, false, []);
    IpmaBoxOfPrinted(Long, typ, 0, 0, es, |es|);
    var n := 16 + |body|;
    var more := PrintEntries(es[1..], 0, false, []);
    var tail := ToBe(|es[0].associations|, 1) + PrintAssociations(es[0].associations, false, more);
    assert entries == ToBe(es[0].id, 2) + tail;
    SmallId(es[0].id);
    assert entries == ToBe(0, 1) + (ToBe(es[0].id, 1) + tail);
    HeaderAsEntries(|es|, ToBe(es[0].id, 1) + tail);
    var third := ToBe(|es|, 2) + (ToBe(0, 1) + (ToBe(es[0].id, 1) + tail));
    EmptyEntry(0, ToBe(0, 2) + (ToBe(0, 1) + third));
    EmptyEntry(0, third);
    EmptyEntry(|es|, ToBe(es[0].id, 1) + tail);
    FindEntryStep(body, n, 0, false, |es|, 0, [], ToBe(0, 2) + (ToBe(0, 1) + third));
    FindEntryStep(ToBe(0, 2) + (ToBe(0, 1) + third), n - 1, 0, false, |es|, 0, [], third);
    FindEntryStep(third, n - 2, 0, false, |es|, |es|, [], ToBe(es[0].id, 1) + tail);
  }

  lemma SmallId(id: nat)
    requires id < 256
    ensures ToBe(id, 2) == ToBe(0, 1) + ToBe(id, 1)
  {
    ToBeSplits(id, 1, 1);
  }

  /** Version, flags and count, read as two empty entries for item 0 and the start of a third. */
  lemma HeaderAsEntries(count: nat, rest: seq<byte>)
    requires count < 0x1_0000
    ensures ToBe(0, 4) + (ToBe(count, 4) + (ToBe(0, 1) + rest)) ==
            ToBe(0, 2) + (ToBe(0, 1) + (ToBe(0, 2) + (ToBe(0, 1) + (ToBe(count, 2) + (ToBe(0, 1) + rest)))))
  {
    ToBeSplits(count, 2, 2);
    SmallShifts(count);
    Zeros();
    Associative([0, 0], ToBe(count, 2), [0] + rest);
    RegroupZeros(ToBe(count, 2) + ([0] + rest));
  }

  lemma Zeros()
    ensures ToBe(0, 1) == [0] && ToBe(0, 2) == [0, 0] && ToBe(0, 4) == [0, 0, 0, 0]
  {
    assert ToBe(0, 1) == [0] by { assert ToBe(0, 0) == []; }
    assert ToBe(0, 2) == [0, 0];
    assert ToBe(0, 3) == [0, 0, 0];
  }

  lemma RegroupZeros(rest: seq<byte>)
    ensures [0, 0, 0, 0] + ([0, 0] + rest) == [0, 0] + ([0] + ([0, 0] + ([0] + rest)))
  {
  }

  lemma EmptyEntry(id: nat, rest: seq<byte>)
    requires id < 0x1_0000
    ensures ParseEntry(ToBe(id, 2) + (ToBe(0, 1) + rest), 0, false) == Got((id, []), rest)
  {
    FieldOfPrinted(id, 2, ToBe(0, 1) + rest);
    FieldOfPrinted(0, 1, rest);
  }
}
