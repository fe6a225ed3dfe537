/** The dimensions of a HEIC image, read from the container without decoding. */
module HeicDims {
  import opened Basics
  import opened Bytes
  import opened Isobmff
  import opened HeicProperties

  const META: seq<byte> := [0x6d, 0x65, 0x74, 0x61]
  const PITM: seq<byte> := [0x70, 0x69, 0x74, 0x6d]
  const IPRP: seq<byte> := [0x69, 0x70, 0x72, 0x70]
  const IPCO: seq<byte> := [0x69, 0x70, 0x63, 0x6f]
  const IPMA: seq<byte> := [0x69, 0x70, 0x6d, 0x61]
  const ISPE: seq<byte> := [0x69, 0x73, 0x70, 0x65]

  lemma BoxTypesSpell()
    ensures META == Ascii("meta") && PITM == Ascii("pitm") && IPRP == Ascii("iprp")
    ensures IPCO == Ascii("ipco") && IPMA == Ascii("ipma") && ISPE == Ascii("ispe")
  {
  }

  function TypeOf(boxb: seq<byte>): seq<byte>
    requires |boxb| >= 8
  {
    boxb[4..8]
  }

  // ---- the top level ----

  /** Stated size and header length of the box at the front; the size may exceed what is left. */
  function BoxHeader(b: seq<byte>): Option<(nat, nat)> {
    if |b| < 8 then None
    else
      var s := Be(b[..4]);
      if s == 1 then (if |b| < 16 then None else Some((Be(b[8..16]), 16)))
      else if s == 0 then Some((|b|, 8))
      else Some((s, 8))
  }

  /** The body of the first top-level `meta` box. */
  function FindMetaBody(b: seq<byte>): Option<seq<byte>>
    decreases |b|
  {
    match BoxHeader(b)
    case None => None
    case Some((size, header)) =>
      if TypeOf(b) == META then (if header <= size <= |b| then Some(b[header..size]) else None)
      else if size == 0 || size > |b| then None
      else FindMetaBody(b[size..])
  }

  // ---- inside meta ----

  datatype Found = Found(primary: Option<nat>, ipco: Option<seq<byte>>, ipma: Option<seq<byte>>)

  const NOTHING := Found(None, None, None)

  /** The properties of one `iprp`; a later `ipco` or `ipma` replaces an earlier one. */
  function ScanProperties(props: seq<seq<byte>>, st: Found): Found
    requires forall i :: 0 <= i < |props| ==> |props[i]| >= 8
  {
    if props == [] then st
    else
      var p := props[0];
      ScanProperties(props[1..],
        if TypeOf(p) == IPCO then st.(ipco := Some(p)) else if TypeOf(p) == IPMA then st.(ipma := Some(p)) else st)
  }

  lemma {:induction false} BoxesAreLong(b: seq<byte>)
    requires Boxes(b).Some?
    ensures forall i :: 0 <= i < |Boxes(b).value| ==> |Boxes(b).value[i]| >= 8
    decreases |b|
  {
    if |b| >= 8 {
      BoxesAreLong(BoxAtStart(b).rest);
    }
  }

  function ScanIprp(boxb: seq<byte>, st: Found): Option<Found>
    requires |boxb| >= 8
  {
    if Boxes(boxb[8..]).None? then None
    else
      BoxesAreLong(boxb[8..]);
      Some(ScanProperties(Boxes(boxb[8..]).value, st))
  }

  function ScanChild(child: seq<byte>, st: Found): Option<Found>
    requires |child| >= 8
  {
    if TypeOf(child) == PITM then Some(st.(primary := ParsePitm(child)))
    else if TypeOf(child) == IPRP then ScanIprp(child, st)
    else Some(st)
  }

  function ScanMeta(b: seq<byte>, st: Found): Option<Found>
    decreases |b|
  {
    if |b| < 8 then Some(st)
    else match BoxAtStart(b)
      case Fail => None
      case Got(child, rest) =>
        match ScanChild(child, st)
        case None => None
        case Some(st') => ScanMeta(rest, st')
  }

  /** Width and height of an image size property of at least twenty bytes. */
  function SizeIn(p: seq<byte>): Option<(nat, nat)> {
    if |p| >= 20 && TypeOf(p) == ISPE then Some((Be(p[12..16]), Be(p[16..20]))) else None
  }

  /** The first listed property that is one decides. */
  function FirstSize(props: seq<seq<byte>>, indices: seq<nat>): Option<(nat, nat)> {
    if indices == [] then None
    else
      var i := indices[0];
      if 1 <= i <= |props| && SizeIn(props[i - 1]).Some? then SizeIn(props[i - 1]) else FirstSize(props, indices[1..])
  }

  function DimsFrom(st: Found): Option<(nat, nat)> {
    if st.primary.None? || st.ipco.None? || st.ipma.None? then None
    else if |st.ipco.value| < 8 || Boxes(st.ipco.value[8..]).None? then None
    else match ParseIpma(st.ipma.value, st.primary.value)
      case None => None
      case Some(indices) => FirstSize(Boxes(st.ipco.value[8..]).value, indices)
  }

  function ExtractDims(data: seq<byte>): Option<(nat, nat)> {
    match FindMetaBody(data)
    case None => None
    case Some(body) =>
      if |body| < 4 then None
      else match ScanMeta(body[4..], NOTHING)
        case None => None
        case Some(st) => DimsFrom(st)
  }

  // ---- what a file says ----

  /** A child of `meta`: a plain box, or an `iprp` with its property boxes. */
  datatype Child = Plain(box: Box) | Iprp(form: SizeForm, props: seq<Box>)

  function AsBox(c: Child): Box {
    match c
    case Plain(box) => box
    case Iprp(form, props) => Box(form, IPRP, Concat(PrintAll(props)))
  }

  function AsBoxes(cs: seq<Child>): seq<Box> {
    if cs == [] then [] else [AsBox(cs[0])] + AsBoxes(cs[1..])
  }

  predicate WellFormedChild(c: Child) {
    match c
    case Plain(box) => box.typ != IPRP
    case Iprp(form, props) => PrintableAll(props) && Fits(AsBox(c))
  }

  /** A 64-bit size is used for a size that 32 bits could hold. */
  predicate Fits(x: Box) {
    x.form.Long? ==> 16 + |x.body| < 0x1_0000_0000
  }

  /** The boxes found inside a container box. */
  function Inside(container: Box, xs: seq<Box>): seq<Box> {
    if container.form.Long? then [Misread(container)] else xs
  }

  /** The properties found in all `iprp` children, in order. */
  function AllProps(cs: seq<Child>): seq<Box> {
    if cs == [] then [] else (if cs[0].Iprp? then Inside(AsBox(cs[0]), cs[0].props) else []) + AllProps(cs[1..])
  }

  lemma PrintOne(x: Box)
    ensures PrintAll([x]) == [Print(x)] && Concat(PrintAll([x])) == Print(x)
  {
    assert [x][1..] == [];
    assert PrintAll([x]) == [Print(x)] + [];
    ConcatCons(Print(x), []);
    assert Concat([]) == [];
  }

  /** What a container box yields, in every size form. */
  lemma ContainerOfPrinted(container: Box, xs: seq<Box>)
    requires Printable(container) && Fits(container)
    requires container.body == Concat(PrintAll(xs)) && PrintableAll(xs)
    ensures |Print(container)| >= 8 && Boxes(Print(container)[8..]) == Some(PrintAll(Inside(container, xs)))
    ensures PrintableAll(Inside(container, xs))
  {
    if container.form.Long? {
      var m := Misread(container);
      LongBoxIsMisread(container);
      PrintOne(m);
      BoxesOfPrinted([m]);
    } else {
      HeaderIsEight(container);
      BoxesOfPrinted(xs);
    }
  }

  /** The last box of the type. */
  function LastOf(xs: seq<Box>, typ: seq<byte>): Option<Box> {
    if xs == [] then None
    else if LastOf(xs[1..], typ).Some? then LastOf(xs[1..], typ)
    else if xs[0].typ == typ then Some(xs[0])
    else None
  }

  /** The first listed property that is an image size: width and height follow four bytes of version and flags. */
  function SizeOf(props: seq<Box>, indices: seq<nat>): Option<(nat, nat)> {
    if indices == [] then None
    else
      var i := indices[0];
      if 1 <= i <= |props| && props[i - 1].typ == ISPE && |props[i - 1].body| >= 12
      then Some((Be(props[i - 1].body[4..8]), Be(props[i - 1].body[8..12])))
      else SizeOf(props, indices[1..])
  }

  /** What is read of one: behind a 64-bit size, the width is that size and the height is version and flags. */
  function BoxSize(x: Box): Option<(nat, nat)> {
    if x.typ != ISPE || |x.body| < (if x.form.Long? then 4 else 12) then None
    else if x.form.Long? then Some(((16 + |x.body|) % 0x1_0000_0000, Be(x.body[..4])))
    else Some((Be(x.body[4..8]), Be(x.body[8..12])))
  }

  function SizeRead(props: seq<Box>, indices: seq<nat>): Option<(nat, nat)> {
    if indices == [] then None
    else
      var i := indices[0];
      if 1 <= i <= |props| && BoxSize(props[i - 1]).Some? then BoxSize(props[i - 1]) else SizeRead(props, indices[1..])
  }

  /** Without 64-bit sizes among the image size properties, the size read is the size meant. */
  lemma {:induction false} SizeReadIsSize(props: seq<Box>, indices: seq<nat>)
    requires forall i :: 0 <= i < |props| && props[i].typ == ISPE ==> !props[i].form.Long?
    ensures SizeRead(props, indices) == SizeOf(props, indices)
    decreases |indices|
  {
    if indices != [] {
      SizeReadIsSize(props, indices[1..]);
    }
  }

  /** With one, what is read is right exactly if the property says so by accident. */
  lemma LongSizeIsReadIff(ispe: Box)
    requires ispe.typ == ISPE && ispe.form.Long? && |ispe.body| >= 12 && Fits(ispe)
    ensures SizeRead([ispe], [1]) == Some((16 + |ispe.body|, Be(ispe.body[..4])))
    ensures SizeRead([ispe], [1]) == SizeOf([ispe], [1]) <==>
            Be(ispe.body[4..8]) == 16 + |ispe.body| && Be(ispe.body[8..12]) == Be(ispe.body[..4])
  {
  }

  // ---- reading what was printed ----

  lemma HeaderOfPrinted(x: Box, rest: seq<byte>)
    requires Printable(x) && (x.form.ToEnd? ==> rest == [])
    ensures BoxHeader(Print(x) + rest) == Some((|Print(x)|, if x.form.Long? then 16 else 8))
    ensures TypeOf(Print(x) + rest) == x.typ
  {
    FrontOfPrinted(x, rest);
    match x.form
    case Short => BeOfFitting(8 + |x.body|, 4);
    case Long =>
      BeOfFitting(1, 4);
      BeOfFitting(16 + |x.body|, 8);
    case ToEnd => BeOfFitting(0, 4);
  }

  lemma MetaStep(b: seq<byte>, size: nat, header: nat)
    requires BoxHeader(b) == Some((size, header)) && TypeOf(b) != META && 0 < size <= |b|
    ensures FindMetaBody(b) == FindMetaBody(b[size..])
  {
  }

  /** The first `meta` box is found behind any other boxes, in every size form. */
  lemma {:induction false} MetaOfPrinted(before: seq<Box>, meta: Box, after: seq<byte>)
    requires Printable(meta) && meta.typ == META && (meta.form.ToEnd? ==> after == [])
    requires forall i :: 0 <= i < |before| ==> Printable(before[i]) && !before[i].form.ToEnd? && before[i].typ != META
    ensures FindMetaBody(Concat(PrintAll(before)) + (Print(meta) + after)) == Some(meta.body)
    decreases |before|
  {
    var file := Print(meta) + after;
    if before == [] {
      assert Concat(PrintAll(before)) + file == file;
      MetaAtFront(meta, after);
    } else {
      var p, rest := Print(before[0]), Concat(PrintAll(before[1..])) + file;
      ConcatCons(p, PrintAll(before[1..]));
      Associative(p, Concat(PrintAll(before[1..])), file);
      HeaderOfPrinted(before[0], rest);
      FrontOfPrinted(before[0], rest);
      assert (p + rest)[|p|..] == rest;
      MetaStep(p + rest, |p|, if before[0].form.Long? then 16 else 8);
      MetaOfPrinted(before[1..], meta, after);
    }
  }

  lemma MetaAtFront(meta: Box, after: seq<byte>)
    requires Printable(meta) && meta.typ == META && (meta.form.ToEnd? ==> after == [])
    ensures FindMetaBody(Print(meta) + after) == Some(meta.body)
  {
    var b, header := Print(meta) + after, if meta.form.Long? then 16 else 8;
    HeaderOfPrinted(meta, after);
    FrontOfPrinted(meta, after);
    assert b[header..|Print(meta)|] == Print(meta)[header..] == meta.body;
  }

  /** What the scan of printed properties records. */
  function Recorded(props: seq<Box>, st: Found): Found {
    var ipco, ipma := LastOf(props, IPCO), LastOf(props, IPMA);
    Found(st.primary,
          if ipco.Some? then Some(Print(ipco.value)) else st.ipco,
          if ipma.Some? then Some(Print(ipma.value)) else st.ipma)
  }

  lemma {:induction false} PropertiesOfPrinted(props: seq<Box>, st: Found)
    requires forall i :: 0 <= i < |props| ==> Printable(props[i])
    ensures forall i :: 0 <= i < |PrintAll(props)| ==> |PrintAll(props)[i]| >= 8
    ensures ScanProperties(PrintAll(props), st) == Recorded(props, st)
    decreases |props|
  {
    if props != [] {
      var p := Print(props[0]);
      BodyAfterHeader(props[0]);
      assert TypeOf(p) == props[0].typ;
      var st' := if TypeOf(p) == IPCO then st.(ipco := Some(p))
                 else if TypeOf(p) == IPMA then st.(ipma := Some(p)) else st;
      PropertiesOfPrinted(props[1..], st');
      assert PrintAll(props)[1..] == PrintAll(props[1..]);
      assert IPCO[3] != IPMA[3];
    }
  }

  /** What the scan of one child records. */
  function RecordedChild(c: Child, st: Found): Found {
    match c
    case Plain(box) => if box.typ == PITM then st.(primary := ParsePitm(Print(box))) else st
    case Iprp(_, props) => Recorded(Inside(AsBox(c), props), st)
  }

  lemma ChildOfPrinted(c: Child, st: Found)
    requires WellFormedChild(c) && Printable(AsBox(c))
    ensures |Print(AsBox(c))| >= 8 && ScanChild(Print(AsBox(c)), st) == Some(RecordedChild(c, st))
  {
    BodyAfterHeader(AsBox(c));
    assert PITM[0] != IPRP[0];
    if c.Iprp? {
      ContainerOfPrinted(AsBox(c), c.props);
      PropertiesOfPrinted(Inside(AsBox(c), c.props), st);
    }
  }

  function RecordedAll(cs: seq<Child>, st: Found): Found {
    if cs == [] then st else RecordedAll(cs[1..], RecordedChild(cs[0], st))
  }

  lemma ScanStep(b: seq<byte>, st: Found, child: seq<byte>, rest: seq<byte>, st': Found)
    requires |b| >= 8 && BoxAtStart(b) == Got(child, rest) && ScanChild(child, st) == Some(st')
    ensures ScanMeta(b, st) == ScanMeta(rest, st')
  {
  }

  lemma {:induction false} ChildrenOfPrinted(cs: seq<Child>, st: Found)
    requires PrintableAll(AsBoxes(cs)) && forall i :: 0 <= i < |cs| ==> WellFormedChild(cs[i])
    ensures ScanMeta(Concat(PrintAll(AsBoxes(cs))), st) == Some(RecordedAll(cs, st))
    decreases |cs|
  {
    if cs != [] {
      var xs := AsBoxes(cs);
      var x, p := xs[0], Print(xs[0]);
      assert x == AsBox(cs[0]) && xs[1..] == AsBoxes(cs[1..]);
      var rest := Concat(PrintAll(xs[1..]));
      ConcatCons(p, PrintAll(xs[1..]));
      assert x.form.ToEnd? ==> xs[1..] == [];
      assert forall i :: 0 <= i < |xs[1..]| ==> xs[1..][i] == xs[i + 1];
      BoxOfPrinted(x, rest);
      ChildOfPrinted(cs[0], st);
      var st' := RecordedChild(cs[0], st);
      ScanStep(p + rest, st, p, rest, st');
      ChildrenOfPrinted(cs[1..], st');
    }
  }

  lemma {:induction false} LastOfAppend(a: seq<Box>, b: seq<Box>, typ: seq<byte>)
    ensures LastOf(a + b, typ) == if LastOf(b, typ).Some? then LastOf(b, typ) else LastOf(a, typ)
    decreases |a|
  {
    if a == [] {
      assert a + b == b;
    } else {
      LastOfAppend(a[1..], b, typ);
      assert (a + b)[1..] == a[1..] + b;
    }
  }

  /** The scan ends with the last `pitm` child and the last `ipco` and `ipma` property. */
  lemma {:induction false} RecordsTheLast(cs: seq<Child>, st: Found)
    requires forall i :: 0 <= i < |cs| ==> WellFormedChild(cs[i])
    ensures var pitm := LastOf(AsBoxes(cs), PITM);
            RecordedAll(cs, st) ==
            Recorded(AllProps(cs), if pitm.Some? then st.(primary := ParsePitm(Print(pitm.value))) else st)
    decreases |cs|
  {
    if cs != [] {
      var c, rest := cs[0], cs[1..];
      var props := if c.Iprp? then Inside(AsBox(c), c.props) else [];
      RecordsTheLast(rest, RecordedChild(c, st));
      LastOfAppend(props, AllProps(rest), IPCO);
      LastOfAppend(props, AllProps(rest), IPMA);
      assert AsBoxes(cs)[1..] == AsBoxes(rest);
      assert PITM[0] != IPRP[0];
    }
  }

  lemma {:induction false} SizeOfPrinted(props: seq<Box>, indices: seq<nat>)
    requires forall i :: 0 <= i < |props| ==> Printable(props[i])
    requires |PrintAll(props)| == |props| && forall i :: 0 <= i < |props| ==> PrintAll(props)[i] == Print(props[i])
    ensures FirstSize(PrintAll(props), indices) == SizeRead(props, indices)
    decreases |indices|
  {
    if indices != [] {
      var i := indices[0];
      if 1 <= i <= |props| {
        assert SizeIn(PrintAll(props)[i - 1]) == BoxSize(props[i - 1]) by {
          PropertySize(props[i - 1]);
        }
      }
      SizeOfPrinted(props, indices[1..]);
    }
  }

  lemma PropertySize(x: Box)
    requires Printable(x)
    ensures SizeIn(Print(x)) == BoxSize(x)
  {
    var p := Print(x);
    BodyAfterHeader(x);
    FrontOfPrinted(x, []);
    assert TypeOf(p) == x.typ;
    if |p| >= 20 {
      if x.form.Long? {
        LongPropertySize(x);
      } else {
        assert p[12..16] == p[8..][4..8] && p[16..20] == p[8..][8..12];
      }
    }
  }

  lemma LongPropertySize(x: Box)
    requires Printable(x) && x.form.Long? && |x.body| >= 4
    ensures |Print(x)| >= 20 && Print(x)[16..20] == x.body[..4]
    ensures Be(Print(x)[12..16]) == (16 + |x.body|) % 0x1_0000_0000
  {
    var p, size := Print(x), 16 + |x.body|;
    BodyAfterHeader(x);
    ToBeSplits(size, 4, 4);
    var upper, lower := ToBe(Shift(size, 4), 4), ToBe(size, 4);
    assert p[8..] == upper + lower + x.body;
    assert p[12..16] == p[8..][4..8] == lower && p[16..20] == p[8..][8..12] == x.body[..4];
    BeOfToBe(size, 4);
    Widths();
  }

  lemma {:induction false} PrintAllAt(xs: seq<Box>)
    ensures |PrintAll(xs)| == |xs| && forall i :: 0 <= i < |xs| ==> PrintAll(xs)[i] == Print(xs[i])
    decreases |xs|
  {
    if xs != [] {
      PrintAllAt(xs[1..]);
    }
  }

  /** A HEIC file: boxes, a `meta` box with its children, and whatever comes after. */
  datatype Heic = Heic(
    before: seq<Box>, form: SizeForm, versionFlags: seq<byte>, children: seq<Child>, after: seq<byte>)

  function MetaBox(f: Heic): Box {
    Box(f.form, META, f.versionFlags + Concat(PrintAll(AsBoxes(f.children))))
  }

  function PrintFile(f: Heic): seq<byte> {
    Concat(PrintAll(f.before)) + (Print(MetaBox(f)) + f.after)
  }

  predicate WellFormedFile(f: Heic) {
    && (forall i :: 0 <= i < |f.before| ==>
          Printable(f.before[i]) && !f.before[i].form.ToEnd? && f.before[i].typ != META)
    && Printable(MetaBox(f)) && (f.form.ToEnd? ==> f.after == []) && |f.versionFlags| == 4
    && PrintableAll(AsBoxes(f.children))
    && (forall i :: 0 <= i < |f.children| ==> WellFormedChild(f.children[i]))
  }

  /** Reading a printed file finds the state its children record. */
  lemma FileScan(f: Heic)
    requires WellFormedFile(f)
    ensures ExtractDims(PrintFile(f)) == DimsFrom(RecordedAll(f.children, NOTHING))
  {
    var children := Concat(PrintAll(AsBoxes(f.children)));
    var body := f.versionFlags + children;
    assert FindMetaBody(PrintFile(f)) == Some(body) by {
      MetaOfPrinted(f.before, MetaBox(f), f.after);
    }
    assert body[4..] == children;
    assert ScanMeta(body[4..], NOTHING) == Some(RecordedAll(f.children, NOTHING)) by {
      ChildrenOfPrinted(f.children, NOTHING);
    }
  }

  /** What a file says about the size of its primary image: the boxes that decide, and their size forms. */
  datatype Table = Table(
    pitmForm: SizeForm, pitmVersion: nat, primary: nat,
    ipcoForm: SizeForm, props: seq<Box>,
    ipmaForm: SizeForm, ipmaVersion: nat, flags: nat, entries: seq<Entry>)

  function PitmBox(t: Table): Box {
    Box(t.pitmForm, PITM, PrintPitm(t.pitmVersion, t.primary))
  }

  function IpcoBox(t: Table): Box {
    Box(t.ipcoForm, IPCO, Concat(PrintAll(t.props)))
  }

  function IpmaBox(t: Table): Box {
    Box(t.ipmaForm, IPMA, PrintIpma(t.ipmaVersion, t.flags, t.entries))
  }

  predicate WellFormedTable(t: Table) {
    && t.pitmVersion < 256 && t.primary < Limit(if t.pitmVersion == 0 then 2 else 4)
    && Printable(IpcoBox(t)) && Fits(IpcoBox(t)) && PrintableAll(t.props)
    && Fits(IpmaBox(t)) && t.ipmaVersion < 256 && t.flags < VERSION_UNIT && |t.entries| < 0x1_0000_0000
    && forall i :: 0 <= i < |t.entries| ==> EntryFits(t.entries[i], t.ipmaVersion, t.flags % 2 == 1)
  }

  /** The last `pitm`, `ipco` and `ipma` found in the file are those of the table. */
  predicate Decides(f: Heic, t: Table) {
    && LastOf(AsBoxes(f.children), PITM) == Some(PitmBox(t))
    && LastOf(AllProps(f.children), IPCO) == Some(IpcoBox(t))
    && LastOf(AllProps(f.children), IPMA) == Some(IpmaBox(t))
  }

  /** What is read of a table, size forms included. */
  ghost function TableRead(t: Table): Option<(nat, nat)> {
    var primary := if t.pitmForm.Long? then 0 else t.primary;
    var indices := IndicesRead(t.ipmaForm, t.ipmaVersion, t.flags, t.entries, primary);
    if indices.None? then None else SizeRead(Inside(IpcoBox(t), t.props), indices.value)
  }

  /** What it means: the first image size property associated with the primary item. */
  function TableSize(t: Table): Option<(nat, nat)> {
    var indices := IndicesOf(t.entries, t.primary);
    if indices.None? then None else SizeOf(t.props, indices.value)
  }

  /** For every file, in whatever size forms its boxes are printed, exactly this is read. */
  lemma DimsOfPrinted(f: Heic, t: Table)
    requires WellFormedFile(f) && WellFormedTable(t) && Decides(f, t)
    ensures ExtractDims(PrintFile(f)) == TableRead(t)
  {
    var primary := if t.pitmForm.Long? then 0 else t.primary;
    var st := Found(Some(primary), Some(Print(IpcoBox(t))), Some(Print(IpmaBox(t))));
    assert RecordedAll(f.children, NOTHING) == st by {
      RecordsTheLast(f.children, NOTHING);
      PitmOfPrinted(t.pitmForm, PITM, t.pitmVersion, t.primary);
    }
    assert ExtractDims(PrintFile(f)) == DimsFrom(st) by {
      FileScan(f);
    }
    DimsOfRecorded(t, primary);
  }

  lemma {:induction false} DimsOfRecorded(t: Table, primary: nat)
    requires WellFormedTable(t)
    ensures DimsFrom(Found(Some(primary), Some(Print(IpcoBox(t))), Some(Print(IpmaBox(t))))) ==
            var indices := IndicesRead(t.ipmaForm, t.ipmaVersion, t.flags, t.entries, primary);
            if indices.None? then None else SizeRead(Inside(IpcoBox(t), t.props), indices.value)
  {
    var inside := Inside(IpcoBox(t), t.props);
    ContainerOfPrinted(IpcoBox(t), t.props);
    IpmaBoxOfPrinted(t.ipmaForm, IPMA, t.ipmaVersion, t.flags, t.entries, primary);
    var indices := IndicesRead(t.ipmaForm, t.ipmaVersion, t.flags, t.entries, primary);
    if indices.Some? {
      PrintAllAt(inside);
      SizeOfPrinted(inside, indices.value);
    }
  }

  /**
   With 32-bit or to-the-end sizes in the boxes that decide, the dimensions are those of the first image size
   property associated with the primary item, whatever boxes surround them and in whatever form.
   */
  lemma DimsAreRight(f: Heic, t: Table)
    requires WellFormedFile(f) && WellFormedTable(t) && Decides(f, t)
    requires !t.pitmForm.Long? && !t.ipcoForm.Long? && !t.ipmaForm.Long?
    requires forall i :: 0 <= i < |t.props| && t.props[i].typ == ISPE ==> !t.props[i].form.Long?
    ensures ExtractDims(PrintFile(f)) == TableSize(t)
  {
    DimsOfPrinted(f, t);
    var indices := IndicesOf(t.entries, t.primary);
    if indices.Some? {
      SizeReadIsSize(t.props, indices.value);
    }
  }

  /** With a 64-bit `ipco` there is no size to be found, unless its own size spells the type of a size property. */
  lemma LongIpcoHasNoSize(t: Table)
    requires WellFormedTable(t) && t.ipcoForm.Long? && ToBe(16 + |IpcoBox(t).body|, 4) != ISPE
    ensures TableRead(t) == None
  {
    var primary := if t.pitmForm.Long? then 0 else t.primary;
    var indices := IndicesRead(t.ipmaForm, t.ipmaVersion, t.flags, t.entries, primary);
    if indices.Some? {
      NoSizeRead([Misread(IpcoBox(t))], indices.value);
    }
  }

  lemma {:induction false} NoSizeRead(props: seq<Box>, indices: seq<nat>)
    requires forall i :: 0 <= i < |props| ==> props[i].typ != ISPE
    ensures SizeRead(props, indices) == None
    decreases |indices|
  {
    if indices != [] {
      NoSizeRead(props, indices[1..]);
    }
  }

  /** And a 64-bit `iprp` hides the properties in it, unless its own size spells one of their types. */
  lemma LongIprpIsSkipped(c: Child, st: Found)
    requires c.Iprp? && WellFormedChild(c) && Printable(AsBox(c)) && c.form.Long?
    requires var size := 16 + |AsBox(c).body|; ToBe(size, 4) != IPCO && ToBe(size, 4) != IPMA
    ensures ScanIprp(Print(AsBox(c)), st) == Some(st)
  {
    var m := Misread(AsBox(c));
    assert TypeOf(Print(AsBox(c))) == IPRP && IPRP != PITM by {
      BodyAfterHeader(AsBox(c));
      assert PITM[0] != IPRP[0];
    }
    assert Recorded([m], st) == st by {
      LastOfOne(m, IPCO);
      LastOfOne(m, IPMA);
    }
    ChildOfPrinted(c, st);
  }

  lemma LastOfOne(x: Box, typ: seq<byte>)
    ensures LastOf([x], typ) == if x.typ == typ then Some(x) else None
  {
    assert [x][1..] == [];
  }

  lemma HeaderIsEight(x: Box)
    requires |x.typ| == 4 && !x.form.Long?
    ensures |Print(x)| >= 8 && Print(x)[8..] == x.body
  {
  }
}
