/** Replacing the EXIF segment of a JPEG stream without touching anything else. */
module JpegExif {
  import opened Basics
  import opened Bytes

  const SOI: seq<byte> := [0xff, 0xd8]
  const EXIF_PREFIX: seq<byte> := [0x45, 0x78, 0x69, 0x66, 0, 0]
  const U16_MAX := 0xffff

  predicate IsJpeg(data: seq<byte>) {
    SOI <= data
  }

  // ---- the marker walk, on what is left of the stream ----

  /** Start of scan, end of image, no marker, or fewer than four bytes left. */
  predicate StopsHere(s: seq<byte>) {
    |s| < 4 || s[0] != 0xff || s[1] == 0xda || s[1] == 0xd9
  }

  /** Markers without a length field. */
  predicate Standalone(marker: byte) {
    marker == 0x01 || 0xd0 <= marker <= 0xd7
  }

  function Be16(hi: byte, lo: byte): nat {
    hi * 256 + lo
  }

  /** The number of bytes of the segment at the front, marker included. */
  function FrontLength(s: seq<byte>): (r: Result<nat>)
    requires !StopsHere(s)
    ensures r.Ok? ==> 2 <= r.value <= |s|
  {
    if Standalone(s[1]) then Ok(2)
    else
      var len := Be16(s[2], s[3]);
      if len < 2 || 2 + len > |s| then Err else Ok(2 + len)
  }

  predicate HasExifPrefix(p: seq<byte>) {
    |p| >= 6 && p[0] == 0x45 && p[1] == 0x78 && p[2] == 0x69 && p[3] == 0x66 && p[4] == 0 && p[5] == 0
  }

  predicate IsExif(segment: seq<byte>) {
    |segment| >= 4 && segment[1] == 0xe1 && HasExifPrefix(segment[4..])
  }

  datatype Stream = Stream(segments: seq<seq<byte>>, tail: seq<byte>)

  function Prepend(segment: seq<byte>, rest: Result<Stream>): Result<Stream> {
    if rest.Err? then Err else Ok(Stream([segment] + rest.value.segments, rest.value.tail))
  }

  /** The segments before the stop point, and everything from the stop point on. */
  function Walk(s: seq<byte>): Result<Stream>
    decreases |s|
  {
    if StopsHere(s) then Ok(Stream([], s))
    else if FrontLength(s).Err? then Err
    else
      var n := FrontLength(s).value;
      Prepend(s[..n], Walk(s[n..]))
  }

  function WithoutExif(segments: seq<seq<byte>>): seq<seq<byte>> {
    if segments == [] then []
    else (if IsExif(segments[0]) then [] else [segments[0]]) + WithoutExif(segments[1..])
  }

  /** The bytes a rewrite keeps. */
  function KeptBytes(p: Stream): seq<byte> {
    Concat(WithoutExif(p.segments)) + p.tail
  }

  function ExifSegment(tiff: seq<byte>): seq<byte>
    requires |tiff| + 8 <= U16_MAX
  {
    [0xff, 0xe1] + [(|tiff| + 8) / 256, (|tiff| + 8) % 256] + EXIF_PREFIX + tiff
  }

  /** What the writer computes: it fails on a non-JPEG, on an oversized block, and on a truncated segment. */
  function Rewritten(data: seq<byte>, tiff: seq<byte>): Result<seq<byte>> {
    if !IsJpeg(data) || |tiff| + 8 > U16_MAX then Err
    else if Walk(data[2..]).Err? then Err
    else Ok(SOI + ExifSegment(tiff) + KeptBytes(Walk(data[2..]).value))
  }

  /** `out` followed by what the walk of the remaining bytes keeps. */
  function Continue(out: seq<byte>, rest: Result<Stream>): Result<seq<byte>> {
    if rest.Err? then Err else Ok(out + KeptBytes(rest.value))
  }

  lemma WithoutExifCons(g: seq<byte>, rest: seq<seq<byte>>)
    ensures WithoutExif([g] + rest) == (if IsExif(g) then [] else [g]) + WithoutExif(rest)
  {
    assert ([g] + rest)[1..] == rest;
  }

  lemma KeptBytesCons(g: seq<byte>, p: Stream)
    ensures KeptBytes(Stream([g] + p.segments, p.tail)) == (if IsExif(g) then [] else g) + KeptBytes(p)
  {
    WithoutExifCons(g, p.segments);
    if IsExif(g) {
      assert [] + WithoutExif(p.segments) == WithoutExif(p.segments);
      assert [] + KeptBytes(p) == KeptBytes(p);
    } else {
      ConcatCons(g, WithoutExif(p.segments));
      Associative(g, Concat(WithoutExif(p.segments)), p.tail);
    }
  }

  lemma ContinueStep(out: seq<byte>, g: seq<byte>, rest: Result<Stream>)
    ensures Continue(out, Prepend(g, rest)) == Continue(if IsExif(g) then out else out + g, rest)
  {
    if rest.Ok? {
      var kept := KeptBytes(rest.value);
      KeptBytesCons(g, rest.value);
      if IsExif(g) {
        assert [] + kept == kept;
      } else {
        Associative(out, g, kept);
      }
    }
  }

  /** The walk as the loop sees it: by position in the whole stream. */
  predicate StopsAt(data: seq<byte>, pos: nat) {
    pos + 4 > |data| || data[pos] != 0xff || data[pos + 1] == 0xda || data[pos + 1] == 0xd9
  }

  function EndOfSegment(data: seq<byte>, pos: nat): (r: Result<nat>)
    requires !StopsAt(data, pos)
    ensures r.Ok? ==> pos + 2 <= r.value <= |data|
  {
    if Standalone(data[pos + 1]) then Ok(pos + 2)
    else
      var len := Be16(data[pos + 2], data[pos + 3]);
      if len < 2 || pos + 2 + len > |data| then Err else Ok(pos + 2 + len)
  }

  function WalkFrom(data: seq<byte>, pos: nat): Result<Stream>
    requires pos <= |data|
    decreases |data| - pos
  {
    if StopsAt(data, pos) then Ok(Stream([], data[pos..]))
    else if EndOfSegment(data, pos).Err? then Err
    else
      var end := EndOfSegment(data, pos).value;
      Prepend(data[pos..end], WalkFrom(data, end))
  }

  lemma {:induction false} WalkFromIsWalk(data: seq<byte>, pos: nat)
    requires pos <= |data|
    ensures WalkFrom(data, pos) == Walk(data[pos..])
    decreases |data| - pos
  {
    var s := data[pos..];
    if !StopsHere(s) && FrontLength(s).Ok? {
      var n := FrontLength(s).value;
      WalkFromIsWalk(data, pos + n);
      assert s[..n] == data[pos..pos + n] && s[n..] == data[pos + n..];
    }
  }

  /** One turn of the copying loop. */
  lemma CopyTurn(data: seq<byte>, out: seq<byte>, pos: nat, end: nat)
    requires !StopsAt(data, pos) && EndOfSegment(data, pos) == Ok(end)
    ensures IsExif(data[pos..end]) ==>
      Continue(out, WalkFrom(data, pos)) == Continue(out, WalkFrom(data, end))
    ensures !IsExif(data[pos..end]) ==>
      Continue(out, WalkFrom(data, pos)) == Continue(out + data[pos..end], WalkFrom(data, end))
  {
    ContinueStep(out, data[pos..end], WalkFrom(data, end));
  }

  /** The loop of the writer, from the first marker on. */
  method CopyWithoutExif(data: seq<byte>, header: seq<byte>) returns (r: Result<seq<byte>>)
    requires IsJpeg(data)
    ensures r == Continue(header, WalkFrom(data, 2))
  {
    var out := header;
    var pos := 2;
    while pos + 4 <= |data| && data[pos] == 0xff
      invariant 2 <= pos <= |data|
      invariant Continue(out, WalkFrom(data, pos)) == Continue(header, WalkFrom(data, 2))
    {
      var marker := data[pos + 1];
      if marker == 0xda || marker == 0xd9 {
        break;
      }
      if marker == 0x01 || 0xd0 <= marker <= 0xd7 {
        CopyTurn(data, out, pos, pos + 2);
        out := out + data[pos..pos + 2];
        pos := pos + 2;
        continue;
      }
      var len := Be16(data[pos + 2], data[pos + 3]);
      if len < 2 || pos + 2 + len > |data| {
        return Err;
      }
      CopyTurn(data, out, pos, pos + 2 + len);
      var payload := data[pos + 4..pos + 2 + len];
      assert data[pos..pos + 2 + len][4..] == payload;
      if !(marker == 0xe1 && HasExifPrefix(payload)) {
        out := out + data[pos..pos + 2 + len];
      }
      pos := pos + 2 + len;
    }
    CopyStops(data, out, pos);
    r := Ok(out + data[pos..]);
  }

  lemma CopyStops(data: seq<byte>, out: seq<byte>, pos: nat)
    requires pos <= |data| && StopsAt(data, pos)
    ensures Continue(out, WalkFrom(data, pos)) == Ok(out + data[pos..])
  {
    assert [] + data[pos..] == data[pos..];
  }

  method WriteJpegExifSegment(data: seq<byte>, tiff: seq<byte>) returns (r: Result<seq<byte>>)
    ensures r == Rewritten(data, tiff)
  {
    if !IsJpeg(data) {
      return Err;
    }
    var segmentLen := |EXIF_PREFIX| + |tiff| + 2;
    if segmentLen > U16_MAX {
      return Err;
    }
    var exifSegment: seq<byte> := [0xff, 0xe1] + [segmentLen / 256, segmentLen % 256] + EXIF_PREFIX + tiff;
    r := CopyWithoutExif(data, data[..2] + exifSegment);
    WalkFromIsWalk(data, 2);
    assert data[..2] == SOI && exifSegment == ExifSegment(tiff);
  }

  // ---- the laws ----

  /** A segment that the walk recognises whatever follows it. */
  predicate WellFormed(segment: seq<byte>) {
    && |segment| >= 2 && segment[0] == 0xff && segment[1] != 0xda && segment[1] != 0xd9
    && if Standalone(segment[1]) then |segment| == 2
       else |segment| >= 4 && |segment| == 2 + Be16(segment[2], segment[3])
  }

  lemma {:induction false} WalkSplits(s: seq<byte>)
    requires Walk(s).Ok?
    ensures var p := Walk(s).value;
            && Concat(p.segments) + p.tail == s
            && StopsHere(p.tail)
            && forall g :: g in p.segments ==> WellFormed(g)
    decreases |s|
  {
    if !StopsHere(s) {
      var n := FrontLength(s).value;
      WalkSplits(s[n..]);
      var q := Walk(s[n..]).value;
      assert ([s[..n]] + q.segments)[1..] == q.segments;
      assert s == s[..n] + s[n..];
      assert s[..n] + Concat(q.segments) + q.tail == s[..n] + (Concat(q.segments) + q.tail);
    }
  }

  /** A two-byte last segment before a tail of fewer than two bytes is too short to be walked again. */
  predicate EndsShort(segments: seq<seq<byte>>, tail: seq<byte>) {
    segments != [] && |segments[|segments| - 1]| == 2 && |tail| < 2
  }

  lemma WalkCons(g: seq<byte>, s: seq<byte>)
    requires WellFormed(g) && |g| + |s| >= 4
    ensures Walk(g + s) == Prepend(g, Walk(s))
  {
    assert (g + s)[..|g|] == g && (g + s)[|g|..] == s;
  }

  /** Walking printed segments finds exactly those segments and that tail, the short ending apart. */
  lemma {:induction false} WalkOfPrinted(segments: seq<seq<byte>>, tail: seq<byte>)
    requires StopsHere(tail) && forall g :: g in segments ==> WellFormed(g)
    ensures Walk(Concat(segments) + tail) == Ok(
              if EndsShort(segments, tail)
              then Stream(segments[..|segments| - 1], segments[|segments| - 1] + tail)
              else Stream(segments, tail))
    decreases |segments|
  {
    if segments == [] {
      assert Concat(segments) + tail == tail;
    } else {
      var g, rest := segments[0], segments[1..];
      assert segments == [g] + rest && g in segments;
      Associative(g, Concat(rest), tail);
      if rest == [] && EndsShort(segments, tail) {
        assert Concat(segments) + tail == g + tail && segments[..0] == [];
      } else {
        WalkOfPrinted(rest, tail);
        if rest != [] {
          assert rest[0] in segments;
          assert rest[|rest| - 1] == segments[|segments| - 1];
          assert segments[..|segments| - 1] == [g] + rest[..|rest| - 1];
        }
        WalkCons(g, Concat(rest) + tail);
      }
    }
  }

  lemma {:induction false} FilterFacts(segments: seq<seq<byte>>)
    ensures forall g :: g in WithoutExif(segments) <==> g in segments && !IsExif(g)
    ensures (forall g :: g in segments ==> !IsExif(g)) ==> WithoutExif(segments) == segments
    decreases |segments|
  {
    if segments != [] {
      FilterFacts(segments[1..]);
      assert segments == [segments[0]] + segments[1..];
    }
  }

  /** Re-walking a new segment put before kept segments. */
  lemma WalkOfRewritten(e: seq<byte>, kept: seq<seq<byte>>, tail: seq<byte>)
    requires WellFormed(e) && IsExif(e) && StopsHere(tail)
    requires forall g :: g in kept ==> WellFormed(g) && !IsExif(g)
    ensures Walk(e + (Concat(kept) + tail)).Ok?
    ensures var p := Walk(e + (Concat(kept) + tail)).value;
            && p.segments != [] && p.segments[0] == e
            && (forall i :: 1 <= i < |p.segments| ==> !IsExif(p.segments[i]))
            && (p == Stream([e] + kept, tail) <==> !EndsShort(kept, tail))
  {
    var all := [e] + kept;
    ConcatCons(e, kept);
    Associative(e, Concat(kept), tail);
    WalkOfPrinted(all, tail);
    assert forall i :: 1 <= i < |all| ==> all[i] in kept;
    assert kept != [] ==> all[|all| - 1] == kept[|kept| - 1];
  }

  /**
   The rewrite law. The output is SOI, then the new EXIF segment, then the old non-EXIF segments and the
   tail, byte for byte and in order. Walking it again finds the new segment first and no other EXIF segment,
   and finds the old segmentation unless it ends short.
   */
  lemma RewriteReplacesExactlyTheExif(data: seq<byte>, tiff: seq<byte>)
    requires Rewritten(data, tiff).Ok?
    ensures var out, before := Rewritten(data, tiff).value, Walk(data[2..]).value;
            var kept := WithoutExif(before.segments);
            && IsJpeg(out)
            && data[2..] == Concat(before.segments) + before.tail
            && out[2..] == ExifSegment(tiff) + (Concat(kept) + before.tail)
            && Walk(out[2..]).Ok?
            && var after := Walk(out[2..]).value;
               && |after.segments| > 0 && after.segments[0] == ExifSegment(tiff) && IsExif(after.segments[0])
               && (forall i :: 1 <= i < |after.segments| ==> !IsExif(after.segments[i]))
               && (after == Stream([ExifSegment(tiff)] + kept, before.tail) <==> !EndsShort(kept, before.tail))
  {
    var before := Walk(data[2..]).value;
    WalkSplits(data[2..]);
    FilterFacts(before.segments);
    NewSegmentIsExif(tiff);
    BodyAfterSoi(ExifSegment(tiff), KeptBytes(before));
    WalkOfRewritten(ExifSegment(tiff), WithoutExif(before.segments), before.tail);
  }

  lemma BodyAfterSoi(e: seq<byte>, kept: seq<byte>)
    ensures IsJpeg(SOI + e + kept) && (SOI + e + kept)[2..] == e + kept
  {
    Associative(SOI, e, kept);
  }

  lemma NewSegmentIsExif(tiff: seq<byte>)
    requires |tiff| + 8 <= U16_MAX
    ensures WellFormed(ExifSegment(tiff)) && IsExif(ExifSegment(tiff)) && |ExifSegment(tiff)| >= 10
  {
    var e := ExifSegment(tiff);
    assert e[4..] == EXIF_PREFIX + tiff;
  }

  /** What is kept of a stream whose only EXIF segment is the first. */
  lemma KeptAfterFirst(s: seq<byte>, e: seq<byte>, kept: seq<byte>)
    requires Walk(s).Ok? && s == e + kept
    requires var p := Walk(s).value;
             && |p.segments| > 0 && p.segments[0] == e && IsExif(e)
             && forall i :: 1 <= i < |p.segments| ==> !IsExif(p.segments[i])
    ensures KeptBytes(Walk(s).value) == kept
  {
    var p := Walk(s).value;
    var others := p.segments[1..];
    WalkSplits(s);
    FilterFacts(others);
    assert p.segments == [e] + others;
    KeptBytesCons(e, Stream(others, p.tail));
    ConcatCons(e, others);
    Associative(e, Concat(others), p.tail);
    assert KeptBytes(p) == Concat(others) + p.tail;
    assert kept == (e + kept)[|e|..] == (e + KeptBytes(p))[|e|..] == KeptBytes(p);
  }

  /** The last write wins: an earlier rewrite leaves no trace. */
  lemma LastRewriteWins(data: seq<byte>, first: seq<byte>, second: seq<byte>)
    requires Rewritten(data, first).Ok?
    ensures Rewritten(Rewritten(data, first).value, second) == Rewritten(data, second)
  {
    var out := Rewritten(data, first).value;
    RewriteReplacesExactlyTheExif(data, first);
    KeptAfterFirst(out[2..], ExifSegment(first), KeptBytes(Walk(data[2..]).value));
  }

  // ---- the grammar of a stream ----

  /** A marker alone, or one with its length and payload. */
  datatype Part = Bare(marker: byte) | Sized(marker: byte, payload: seq<byte>)

  predicate WellFormedPart(p: Part) {
    match p
    case Bare(m) => m == 0x01 || 0xd0 <= m <= 0xd7
    case Sized(m, payload) =>
      m != 0x01 && !(0xd0 <= m <= 0xd7) && m != 0xda && m != 0xd9 && |payload| + 2 <= 0xffff
  }

  function PrintPart(p: Part): seq<byte> {
    match p
    case Bare(m) => [0xff, m]
    case Sized(m, payload) => [0xff, m] + (ToBe(|payload| + 2, 2) + payload)
  }

  function PrintParts(ps: seq<Part>): seq<byte> {
    if ps == [] then [] else PrintPart(ps[0]) + PrintParts(ps[1..])
  }

  /** An application segment 1 that begins with the six bytes `Exif`, 0, 0. */
  predicate HoldsExif(p: Part) {
    p.Sized? && p.marker == 0xe1 && [0x45, 0x78, 0x69, 0x66, 0, 0] <= p.payload
  }

  function Others(ps: seq<Part>): seq<Part> {
    if ps == [] then [] else (if HoldsExif(ps[0]) then [] else [ps[0]]) + Others(ps[1..])
  }

  /** The stream is these parts and then, from the scan or the end of the image on, anything. */
  predicate IsStream(s: seq<byte>, ps: seq<Part>, tail: seq<byte>) {
    && (forall i :: 0 <= i < |ps| ==> WellFormedPart(ps[i]))
    && (|tail| < 4 || tail[0] != 0xff || tail[1] == 0xda || tail[1] == 0xd9)
    && s == [0xff, 0xd8] + (PrintParts(ps) + tail)
  }

  lemma LengthField(n: nat)
    requires n <= 0xffff
    ensures ToBe(n, 2) == [n / 256, n % 256]
  {
    assert ToBe(n / 256, 1) == ToBe(n / 256 / 256, 0) + [n / 256 % 256];
  }

  lemma PartIsSegment(p: Part)
    requires WellFormedPart(p)
    ensures WellFormed(PrintPart(p)) && (IsExif(PrintPart(p)) <==> HoldsExif(p))
  {
    if p.Sized? {
      LengthField(|p.payload| + 2);
      assert PrintPart(p)[4..] == p.payload;
    }
  }

  /** What a well-formed segment says. */
  function PartOf(g: seq<byte>): Part
    requires WellFormed(g)
  {
    if Standalone(g[1]) then Bare(g[1]) else Sized(g[1], g[4..])
  }

  lemma SegmentIsPart(g: seq<byte>)
    requires WellFormed(g)
    ensures WellFormedPart(PartOf(g)) && PrintPart(PartOf(g)) == g
  {
    if !Standalone(g[1]) {
      LengthField(|g| - 2);
      assert g == [g[0], g[1]] + ([g[2], g[3]] + g[4..]);
    } else {
      assert g == [g[0], g[1]];
    }
  }

  function Segments(ps: seq<Part>): (gs: seq<seq<byte>>)
    ensures |gs| == |ps| && forall i :: 0 <= i < |ps| ==> gs[i] == PrintPart(ps[i])
  {
    if ps == [] then [] else [PrintPart(ps[0])] + Segments(ps[1..])
  }

  lemma {:induction false} SegmentsOfParts(ps: seq<Part>)
    requires forall i :: 0 <= i < |ps| ==> WellFormedPart(ps[i])
    ensures Concat(Segments(ps)) == PrintParts(ps)
    ensures WithoutExif(Segments(ps)) == Segments(Others(ps))
    ensures forall i :: 0 <= i < |Others(ps)| ==> WellFormedPart(Others(ps)[i])
    decreases |ps|
  {
    if ps != [] {
      SegmentsOfParts(ps[1..]);
      PartIsSegment(ps[0]);
      assert Segments(ps)[1..] == Segments(ps[1..]);
      WithoutExifCons(PrintPart(ps[0]), Segments(ps[1..]));
      if HoldsExif(ps[0]) {
        assert Others(ps) == Others(ps[1..]);
      } else {
        assert Others(ps)[1..] == Others(ps[1..]);
      }
    }
  }

  /** A walked stream is parts and a tail. */
  lemma {:induction false} PartsOfSegments(gs: seq<seq<byte>>) returns (ps: seq<Part>)
    requires forall g :: g in gs ==> WellFormed(g)
    ensures (forall i :: 0 <= i < |ps| ==> WellFormedPart(ps[i])) && PrintParts(ps) == Concat(gs)
    decreases |gs|
  {
    if gs == [] {
      ps := [];
    } else {
      assert gs[0] in gs;
      var rest := PartsOfSegments(gs[1..]);
      SegmentIsPart(gs[0]);
      ps := [PartOf(gs[0])] + rest;
      assert ps[1..] == rest;
    }
  }

  /** A stream is accepted exactly if it is parts and a tail, and the block fits one segment. */
  lemma AcceptedIff(data: seq<byte>, tiff: seq<byte>)
    ensures Rewritten(data, tiff).Ok? <==> |tiff| <= 0xfff7 && exists ps, tail :: IsStream(data, ps, tail)
  {
    if Rewritten(data, tiff).Ok? {
      WalkSplits(data[2..]);
      var before := Walk(data[2..]).value;
      var ps := PartsOfSegments(before.segments);
      assert data == SOI + data[2..];
      assert IsStream(data, ps, before.tail);
    }
    if |tiff| <= 0xfff7 && exists ps, tail :: IsStream(data, ps, tail) {
      var ps, tail :| IsStream(data, ps, tail);
      WalkOfStream(ps, tail);
      assert data[2..] == PrintParts(ps) + tail;
    }
  }

  lemma SegmentsAreWellFormed(ps: seq<Part>)
    requires forall i :: 0 <= i < |ps| ==> WellFormedPart(ps[i])
    ensures forall g :: g in Segments(ps) ==> WellFormed(g)
  {
    var gs := Segments(ps);
    forall g | g in gs
      ensures WellFormed(g)
    {
      var i :| 0 <= i < |gs| && gs[i] == g;
      PartIsSegment(ps[i]);
    }
  }

  /** The walk of segments and a tail keeps the bytes of the other segments and the tail, even if it ends short. */
  lemma KeptOfPrinted(gs: seq<seq<byte>>, tail: seq<byte>)
    requires StopsHere(tail) && forall g :: g in gs ==> WellFormed(g)
    ensures Walk(Concat(gs) + tail).Ok?
    ensures KeptBytes(Walk(Concat(gs) + tail).value) == Concat(WithoutExif(gs)) + tail
  {
    WalkOfPrinted(gs, tail);
    if EndsShort(gs, tail) {
      var init, last := gs[..|gs| - 1], gs[|gs| - 1];
      ShortEndIsKept(init, last, tail);
      assert gs == init + [last];
    }
  }

  lemma WalkOfStream(ps: seq<Part>, tail: seq<byte>)
    requires (forall i :: 0 <= i < |ps| ==> WellFormedPart(ps[i])) && StopsHere(tail)
    ensures Walk(PrintParts(ps) + tail).Ok?
    ensures KeptBytes(Walk(PrintParts(ps) + tail).value) == PrintParts(Others(ps)) + tail
  {
    SegmentsAreWellFormed(ps);
    KeptOfPrinted(Segments(ps), tail);
    SegmentsOfParts(ps);
    SegmentsOfParts(Others(ps));
  }

  lemma {:induction false} WithoutExifAppends(a: seq<seq<byte>>, b: seq<seq<byte>>)
    ensures WithoutExif(a + b) == WithoutExif(a) + WithoutExif(b)
    decreases |a|
  {
    if a == [] {
      assert a + b == b;
    } else {
      assert (a + b)[1..] == a[1..] + b;
      WithoutExifAppends(a[1..], b);
    }
  }

  lemma ShortEndIsKept(gs: seq<seq<byte>>, last: seq<byte>, tail: seq<byte>)
    requires |last| == 2
    ensures KeptBytes(Stream(gs, last + tail)) == KeptBytes(Stream(gs + [last], tail))
  {
    WithoutExifAppends(gs, [last]);
    assert WithoutExif([last]) == [last];
    ConcatAppend(WithoutExif(gs), [last]);
    assert Concat([last]) == last;
    Associative(Concat(WithoutExif(gs)), last, tail);
  }

  /**
   The rewrite law on the grammar: the block becomes the first part, behind the marker of application segment 1 and
   the six bytes `Exif`, 0, 0; the other parts that hold EXIF disappear; everything else stays, in order.
   */
  lemma RewriteOfStream(data: seq<byte>, ps: seq<Part>, tail: seq<byte>, tiff: seq<byte>)
    requires IsStream(data, ps, tail) && |tiff| <= 0xfff7
    ensures Rewritten(data, tiff).Ok?
    ensures IsStream(Rewritten(data, tiff).value,
                     [Sized(0xe1, [0x45, 0x78, 0x69, 0x66, 0, 0] + tiff)] + Others(ps), tail)
  {
    var e := Sized(0xe1, [0x45, 0x78, 0x69, 0x66, 0, 0] + tiff);
    assert data[2..] == PrintParts(ps) + tail;
    WalkOfStream(ps, tail);
    SegmentsOfParts(ps);
    NewSegmentIsPart(tiff);
    assert ([e] + Others(ps))[1..] == Others(ps);
    Associative(SOI, ExifSegment(tiff), PrintParts(Others(ps)) + tail);
    Associative(ExifSegment(tiff), PrintParts(Others(ps)), tail);
  }

  lemma NewSegmentIsPart(tiff: seq<byte>)
    requires |tiff| <= 0xfff7
    ensures var e := Sized(0xe1, [0x45, 0x78, 0x69, 0x66, 0, 0] + tiff);
            WellFormedPart(e) && PrintPart(e) == ExifSegment(tiff)
  {
    LengthField(|tiff| + 8);
  }

  /** The block in the first segment that holds one. */
  function FirstBlock(segments: seq<seq<byte>>): Option<seq<byte>> {
    if segments == [] then None
    else if IsExif(segments[0]) then Some(segments[0][10..])
    else FirstBlock(segments[1..])
  }

  /** The block of a stream. */
  function FoundIn(data: seq<byte>): Option<seq<byte>> {
    if !IsJpeg(data) || Walk(data[2..]).Err? then None else FirstBlock(Walk(data[2..]).value.segments)
  }

  /** The written block is found again, in every accepted stream. */
  lemma WrittenBlockIsFound(data: seq<byte>, tiff: seq<byte>)
    requires Rewritten(data, tiff).Ok?
    ensures FoundIn(Rewritten(data, tiff).value) == Some(tiff)
    ensures Walk(Rewritten(data, tiff).value[2..]).value.segments[0][4..] == [0x45, 0x78, 0x69, 0x66, 0, 0] + tiff
  {
    RewriteReplacesExactlyTheExif(data, tiff);
    BlockOfNewSegment(tiff);
  }

  lemma BlockOfNewSegment(tiff: seq<byte>)
    requires |tiff| <= 0xfff7
    ensures ExifSegment(tiff)[4..] == [0x45, 0x78, 0x69, 0x66, 0, 0] + tiff && ExifSegment(tiff)[10..] == tiff
  {
  }
}
