/**
 Replacing the `eXIf` chunk of a PNG (chunk layout: section 5.3 of the PNG specification).
 The CRC is an uninterpreted four-byte function of type and data.
 */
module PngExif {
  import opened Basics
  import opened Bytes

  const SIGNATURE: seq<byte> := [0x89, 0x50, 0x4e, 0x47, 0x0d, 0x0a, 0x1a, 0x0a]
  const EXIF: seq<byte> := [0x65, 0x58, 0x49, 0x66]
  const IHDR: seq<byte> := [0x49, 0x48, 0x44, 0x52]

  type Crc = (seq<byte>, seq<byte>) -> bv32

  predicate IsPng(data: seq<byte>) {
    SIGNATURE <= data
  }

  // ---- chunks ----

  /** The bytes of the chunk at the front: length, type, data and CRC. */
  function FrontLength(s: seq<byte>): nat
    requires |s| >= 12
  {
    12 + Be(s[..4])
  }

  /** The four type bytes of `chunk` are those of `typ`. */
  predicate HasType(chunk: seq<byte>, typ: seq<byte>)
    requires |chunk| >= 12 && |typ| == 4
  {
    chunk[4] == typ[0] && chunk[5] == typ[1] && chunk[6] == typ[2] && chunk[7] == typ[3]
  }

  function DataOf(chunk: seq<byte>): seq<byte>
    requires |chunk| >= 12
  {
    chunk[8..|chunk| - 4]
  }

  function Prepend(chunk: seq<byte>, rest: Result<seq<seq<byte>>>): Result<seq<seq<byte>>> {
    if rest.Err? then Err else Ok([chunk] + rest.value)
  }

  /** All chunks. Fewer than twelve bytes after the last chunk are ignored; a cut chunk is an error. */
  function Chunks(s: seq<byte>): Result<seq<seq<byte>>>
    decreases |s|
  {
    if |s| < 12 then Ok([])
    else if FrontLength(s) > |s| then Err
    else Prepend(s[..FrontLength(s)], Chunks(s[FrontLength(s)..]))
  }

  /** A chunk that is recognised whatever follows it. */
  predicate WellFormed(chunk: seq<byte>) {
    |chunk| >= 12 && FrontLength(chunk) == |chunk|
  }

  predicate IsExif(chunk: seq<byte>) {
    |chunk| >= 12 && HasType(chunk, EXIF)
  }

  predicate IsHeader(chunk: seq<byte>) {
    |chunk| >= 12 && HasType(chunk, IHDR)
  }

  /** A chunk as the writer prints it; the length field keeps only 32 bits. */
  function PrintChunk(typ: seq<byte>, data: seq<byte>, crc: Crc): seq<byte> {
    ToBe(|data| % 0x1_0000_0000, 4) + typ + data + ToBe(crc(typ, data) as nat, 4)
  }

  // ---- find ----

  /** The data of the first `eXIf` chunk, if the stream is intact up to it. */
  function Found(s: seq<byte>): Result<Option<seq<byte>>>
    decreases |s|
  {
    if |s| < 12 then Ok(None)
    else if FrontLength(s) > |s| then Err
    else if HasType(s, EXIF) then Ok(Some(DataOf(s[..FrontLength(s)])))
    else Found(s[FrontLength(s)..])
  }

  function FoundIn(data: seq<byte>): Result<Option<seq<byte>>> {
    if !IsPng(data) then Ok(None) else Found(data[8..])
  }

  /** One turn of the search. */
  lemma FoundStep(data: seq<byte>, pos: nat, next: nat)
    requires pos + 12 <= |data| && next == pos + 12 + Be(data[pos..pos + 4])
    ensures next > |data| ==> Found(data[pos..]) == Err
    ensures next <= |data| ==>
      Found(data[pos..]) ==
      if data[pos + 4..pos + 8] == EXIF then Ok(Some(data[pos + 8..next - 4])) else Found(data[next..])
  {
    var s := data[pos..];
    assert data[pos..pos + 4] == s[..4];
    var typ := data[pos + 4..pos + 8];
    assert typ[0] == s[4] && typ[1] == s[5] && typ[2] == s[6] && typ[3] == s[7];
    if next <= |data| {
      assert s[next - pos..] == data[next..];
      assert s[..next - pos] == data[pos..next];
      assert data[pos..next][8..next - pos - 4] == data[pos + 8..next - 4];
    }
  }

  method FindPngExifChunk(data: seq<byte>) returns (r: Result<Option<seq<byte>>>)
    ensures r == FoundIn(data)
  {
    if !IsPng(data) {
      return Ok(None);
    }
    var pos := |SIGNATURE|;
    while pos + 12 <= |data|
      invariant 8 <= pos <= |data|
      invariant Found(data[pos..]) == Found(data[8..])
    {
      var len := Be(data[pos..pos + 4]);
      var chunkEnd := pos + 8 + len;
      var next := chunkEnd + 4;
      FoundStep(data, pos, next);
      if next > |data| {
        return Err;
      }
      if data[pos + 4..pos + 8] == EXIF {
        return Ok(Some(data[pos + 8..chunkEnd]));
      }
      pos := next;
    }
    r := Ok(None);
  }

  // ---- rewrite ----

  /** Drop `eXIf` chunks and put `e` right after the first header chunk, unless it is already placed. */
  function Replace(chunks: seq<seq<byte>>, e: seq<byte>, placed: bool): seq<seq<byte>> {
    if chunks == [] then []
    else if IsExif(chunks[0]) then Replace(chunks[1..], e, placed)
    else if IsHeader(chunks[0]) && !placed then [chunks[0], e] + Replace(chunks[1..], e, true)
    else [chunks[0]] + Replace(chunks[1..], e, placed)
  }

  predicate HasHeader(chunks: seq<seq<byte>>) {
    exists c :: c in chunks && IsHeader(c)
  }

  /** What the writer computes: it fails on a non-PNG, a cut chunk, or a missing header chunk. */
  function Rewritten(data: seq<byte>, tiff: seq<byte>, crc: Crc): Result<seq<byte>> {
    if !IsPng(data) || Chunks(data[8..]).Err? || !HasHeader(Chunks(data[8..]).value) then Err
    else Ok(SIGNATURE + Concat(Replace(Chunks(data[8..]).value, PrintChunk(EXIF, tiff, crc), false)))
  }

  /** What is still to come when `rest` is left to copy. */
  function Continue(out: seq<byte>, rest: Result<seq<seq<byte>>>, e: seq<byte>, placed: bool): Result<seq<byte>> {
    if rest.Err? || (!placed && !HasHeader(rest.value)) then Err
    else Ok(out + Concat(Replace(rest.value, e, placed)))
  }

  lemma HasHeaderCons(c: seq<byte>, rest: seq<seq<byte>>)
    ensures HasHeader([c] + rest) <==> IsHeader(c) || HasHeader(rest)
  {
    assert forall x :: x in [c] + rest <==> x == c || x in rest;
  }

  lemma ReplaceCons(c: seq<byte>, rest: seq<seq<byte>>, e: seq<byte>, placed: bool)
    ensures Replace([c] + rest, e, placed) ==
            if IsExif(c) then Replace(rest, e, placed)
            else if IsHeader(c) && !placed then [c, e] + Replace(rest, e, true)
            else [c] + Replace(rest, e, placed)
  {
    assert ([c] + rest)[1..] == rest;
  }

  lemma ContinueStep(out: seq<byte>, c: seq<byte>, rest: Result<seq<seq<byte>>>, e: seq<byte>, placed: bool)
    ensures Continue(out, Prepend(c, rest), e, placed) ==
            if IsExif(c) then Continue(out, rest, e, placed)
            else if IsHeader(c) && !placed then Continue(out + c + e, rest, e, true)
            else Continue(out + c, rest, e, placed)
  {
    if rest.Ok? {
      HasHeaderCons(c, rest.value);
      ReplaceCons(c, rest.value, e, placed);
      if IsHeader(c) && !placed {
        var more := Replace(rest.value, e, true);
        assert [c, e] + more == [c] + ([e] + more);
        ConcatCons(c, [e] + more);
        ConcatCons(e, more);
        Associative(c, e, Concat(more));
        Associative(out, c + e, Concat(more));
        Associative(out, c, e);
      } else if !IsExif(c) {
        var more := Replace(rest.value, e, placed);
        ConcatCons(c, more);
        Associative(out, c, Concat(more));
      }
    }
  }

  /** One turn of the copying loop. */
  lemma CopyStep(data: seq<byte>, pos: nat, n: nat, out: seq<byte>, e: seq<byte>, placed: bool)
    requires pos + 12 <= |data| && n == 12 + Be(data[pos..pos + 4]) && pos + n <= |data|
    ensures var c, rest := data[pos..pos + n], Chunks(data[pos + n..]);
            Continue(out, Chunks(data[pos..]), e, placed) ==
            if IsExif(c) then Continue(out, rest, e, placed)
            else if IsHeader(c) && !placed then Continue(out + c + e, rest, e, true)
            else Continue(out + c, rest, e, placed)
  {
    assert data[pos..][..4] == data[pos..pos + 4];
    assert data[pos..][..n] == data[pos..pos + n] && data[pos..][n..] == data[pos + n..];
    ContinueStep(out, data[pos..pos + n], Chunks(data[pos + n..]), e, placed);
  }

  lemma TypesAgree(data: seq<byte>, pos: nat, next: nat)
    requires pos + 12 <= next <= |data|
    ensures IsExif(data[pos..next]) <==> data[pos + 4..pos + 8] == EXIF
    ensures IsHeader(data[pos..next]) <==> data[pos + 4..pos + 8] == IHDR
  {
    var c, typ := data[pos..next], data[pos + 4..pos + 8];
    assert c[4] == typ[0] && c[5] == typ[1] && c[6] == typ[2] && c[7] == typ[3];
  }

  lemma CopyEnds(s: seq<byte>, out: seq<byte>, e: seq<byte>, placed: bool)
    requires |s| < 12
    ensures Continue(out, Chunks(s), e, placed) == if placed then Ok(out) else Err
  {
    assert out + [] == out;
  }

  lemma CopyTurn(data: seq<byte>, pos: nat, next: nat, out: seq<byte>, e: seq<byte>, placed: bool)
    requires pos + 12 <= |data| && next == pos + 12 + Be(data[pos..pos + 4])
    ensures next > |data| ==> Continue(out, Chunks(data[pos..]), e, placed) == Err
    ensures next <= |data| ==>
      var typ, rest := data[pos + 4..pos + 8], Chunks(data[next..]);
      Continue(out, Chunks(data[pos..]), e, placed) ==
      if typ == EXIF then Continue(out, rest, e, placed)
      else if typ == IHDR && !placed then Continue(out + data[pos..next] + e, rest, e, true)
      else Continue(out + data[pos..next], rest, e, placed)
  {
    if next > |data| {
      assert data[pos..][..4] == data[pos..pos + 4];
    } else {
      TypesAgree(data, pos, next);
      CopyStep(data, pos, next - pos, out, e, placed);
    }
  }

  /** The loop of the writer. */
  method CopyChunks(data: seq<byte>, chunk: seq<byte>) returns (r: Result<seq<byte>>)
    requires IsPng(data)
    ensures r == Continue(SIGNATURE, Chunks(data[8..]), chunk, false)
  {
    var out := SIGNATURE;
    var pos := |SIGNATURE|;
    var inserted := false;
    while pos + 12 <= |data|
      invariant 8 <= pos <= |data|
      invariant Continue(out, Chunks(data[pos..]), chunk, inserted)
             == Continue(SIGNATURE, Chunks(data[8..]), chunk, false)
    {
      var len := Be(data[pos..pos + 4]);
      var typ := data[pos + 4..pos + 8];
      var next := pos + 8 + len + 4;
      CopyTurn(data, pos, next, out, chunk, inserted);
      if next > |data| {
        return Err;
      }
      if typ == EXIF {
        pos := next;
        continue;
      }
      out := out + data[pos..next];
      if typ == IHDR && !inserted {
        out := out + chunk;
        inserted := true;
      }
      pos := next;
    }
    CopyEnds(data[pos..], out, chunk, inserted);
    if !inserted {
      return Err;
    }
    r := Ok(out);
  }

  method WritePngExifChunk(data: seq<byte>, tiff: seq<byte>, crc: Crc) returns (r: Result<seq<byte>>)
    ensures r == Rewritten(data, tiff, crc)
  {
    if !IsPng(data) {
      return Err;
    }
    r := CopyChunks(data, PrintChunk(EXIF, tiff, crc));
  }

  // ---- the laws ----

  lemma {:induction false} ChunksAreWellFormed(s: seq<byte>)
    requires Chunks(s).Ok?
    ensures forall c :: c in Chunks(s).value ==> WellFormed(c)
    ensures Concat(Chunks(s).value) <= s && |s| - |Concat(Chunks(s).value)| < 12
    decreases |s|
  {
    if |s| >= 12 {
      var n := FrontLength(s);
      ChunksAreWellFormed(s[n..]);
      assert s[..n][..4] == s[..4];
      ConcatCons(s[..n], Chunks(s[n..]).value);
      assert s == s[..n] + s[n..];
    }
  }

  lemma ChunksCons(c: seq<byte>, s: seq<byte>)
    requires WellFormed(c)
    ensures Chunks(c + s) == Prepend(c, Chunks(s))
    ensures Found(c + s) == if IsExif(c) then Ok(Some(DataOf(c))) else Found(s)
  {
    assert (c + s)[..4] == c[..4] && (c + s)[..|c|] == c && (c + s)[|c|..] == s;
  }

  /** Reading printed chunks gives exactly those chunks. */
  lemma {:induction false} ChunksOfPrinted(chunks: seq<seq<byte>>)
    requires forall c :: c in chunks ==> WellFormed(c)
    ensures Chunks(Concat(chunks)) == Ok(chunks)
    decreases |chunks|
  {
    if chunks != [] {
      assert chunks[0] in chunks;
      ChunksOfPrinted(chunks[1..]);
      ChunksCons(chunks[0], Concat(chunks[1..]));
      assert chunks == [chunks[0]] + chunks[1..];
    }
  }

  lemma PrintedParts(tiff: seq<byte>, crc: Crc)
    ensures var c := PrintChunk(EXIF, tiff, crc);
            && |c| == 12 + |tiff| && c[..4] == ToBe(|tiff| % 0x1_0000_0000, 4)
            && c[4..8] == EXIF && c[8..8 + |tiff|] == tiff
  {
  }

  /** The printed chunk is read back whole exactly when its length fits the 32-bit field. */
  lemma PrintedChunkIsWellFormed(tiff: seq<byte>, crc: Crc)
    ensures var c := PrintChunk(EXIF, tiff, crc);
            && |c| == 12 + |tiff| && IsExif(c) && !IsHeader(c) && DataOf(c) == tiff
            && FrontLength(c) == 12 + |tiff| % 0x1_0000_0000
            && c[|c| - 4..] == ToBe(crc(EXIF, tiff) as nat, 4)
            && (WellFormed(c) <==> |tiff| < 0x1_0000_0000)
  {
    var c := PrintChunk(EXIF, tiff, crc);
    PrintedParts(tiff, crc);
    TypeOf(c, EXIF, IHDR);
    assert Be(c[..4]) == |tiff| % 0x1_0000_0000 by {
      BeOfToBe(|tiff| % 0x1_0000_0000, 4);
      Widths();
    }
    SmallRemainder(|tiff|);
  }

  lemma SmallRemainder(n: nat)
    ensures n % 0x1_0000_0000 == n <==> n < 0x1_0000_0000
  {
  }

  lemma TypeOf(c: seq<byte>, typ: seq<byte>, other: seq<byte>)
    requires |c| >= 12 && |typ| == 4 && |other| == 4 && typ[0] != other[0] && c[4..8] == typ
    ensures HasType(c, typ) && !HasType(c, other)
  {
    assert c[4] == c[4..8][0] && c[5] == c[4..8][1] && c[6] == c[4..8][2] && c[7] == c[4..8][3];
  }

  function WithoutExif(chunks: seq<seq<byte>>): seq<seq<byte>> {
    if chunks == [] then []
    else (if IsExif(chunks[0]) then [] else [chunks[0]]) + WithoutExif(chunks[1..])
  }

  function InsertAfterHeader(chunks: seq<seq<byte>>, e: seq<byte>): seq<seq<byte>> {
    if chunks == [] then []
    else if IsHeader(chunks[0]) then [chunks[0], e] + chunks[1..]
    else [chunks[0]] + InsertAfterHeader(chunks[1..], e)
  }

  /** `i` is the position of the first header chunk. */
  predicate FirstHeaderAt(chunks: seq<seq<byte>>, i: nat) {
    i < |chunks| && IsHeader(chunks[i]) && forall j :: 0 <= j < i ==> !IsHeader(chunks[j])
  }

  /** Replacing is dropping every `eXIf` chunk and then inserting one. */
  lemma {:induction false} ReplaceFactors(chunks: seq<seq<byte>>, e: seq<byte>)
    ensures Replace(chunks, e, true) == WithoutExif(chunks)
    ensures Replace(chunks, e, false) == InsertAfterHeader(WithoutExif(chunks), e)
    decreases |chunks|
  {
    if chunks != [] {
      var rest := chunks[1..];
      ReplaceFactors(rest, e);
      assert ([chunks[0]] + WithoutExif(rest))[1..] == WithoutExif(rest);
    }
  }

  lemma {:induction false} WithoutExifFacts(chunks: seq<seq<byte>>)
    ensures forall c :: c in WithoutExif(chunks) <==> c in chunks && !IsExif(c)
    ensures (forall c :: c in chunks ==> !IsExif(c)) ==> WithoutExif(chunks) == chunks
    decreases |chunks|
  {
    if chunks != [] {
      WithoutExifFacts(chunks[1..]);
      assert chunks == [chunks[0]] + chunks[1..];
    }
  }

  /** The inserted chunk sits right after the first header. */
  lemma {:induction false} InsertPosition(chunks: seq<seq<byte>>, e: seq<byte>) returns (i: nat)
    requires HasHeader(chunks)
    ensures FirstHeaderAt(chunks, i)
    ensures InsertAfterHeader(chunks, e) == chunks[..i + 1] + [e] + chunks[i + 1..]
    decreases |chunks|
  {
    var c, rest := chunks[0], chunks[1..];
    if IsHeader(c) {
      i := 0;
    } else {
      assert chunks == [c] + rest;
      HasHeaderCons(c, rest);
      var k := InsertPosition(rest, e);
      i := k + 1;
      assert [c] + (rest[..k + 1] + [e] + rest[k + 1..]) == chunks[..i + 1] + [e] + chunks[i + 1..];
    }
  }

  lemma {:induction false} WithoutExifAppend(a: seq<seq<byte>>, b: seq<seq<byte>>)
    ensures WithoutExif(a + b) == WithoutExif(a) + WithoutExif(b)
    decreases |a|
  {
    if a == [] {
      assert a + b == b;
    } else {
      WithoutExifAppend(a[1..], b);
      assert (a + b)[1..] == a[1..] + b;
    }
  }

  /** Dropping the inserted chunk again gives the chunks back. */
  lemma DropInserted(before: seq<seq<byte>>, e: seq<byte>, behind: seq<seq<byte>>)
    requires IsExif(e) && forall c :: c in before + behind ==> !IsExif(c)
    ensures WithoutExif(before + [e] + behind) == before + behind
  {
    assert WithoutExif(before) == before && WithoutExif(behind) == behind by {
      assert forall c :: c in before || c in behind ==> c in before + behind;
      WithoutExifFacts(before);
      WithoutExifFacts(behind);
    }
    WithoutExifAppend(before + [e], behind);
    assert WithoutExif(before + [e]) == before by {
      WithoutExifAppend(before, [e]);
      assert WithoutExif([e]) == [];
    }
  }

  /** `Found` on printed chunks looks only as far as the first `eXIf` chunk. */
  lemma {:induction false} FoundSkipsOthers(chunks: seq<seq<byte>>, s: seq<byte>)
    requires forall c :: c in chunks ==> WellFormed(c) && !IsExif(c)
    ensures Found(Concat(chunks) + s) == Found(s)
    decreases |chunks|
  {
    if chunks == [] {
      assert Concat(chunks) + s == s;
    } else {
      assert chunks[0] in chunks;
      FoundSkipsOthers(chunks[1..], s);
      ChunksCons(chunks[0], Concat(chunks[1..]) + s);
      Associative(chunks[0], Concat(chunks[1..]), s);
    }
  }

  lemma HeaderIsKept(chunks: seq<seq<byte>>)
    requires HasHeader(chunks)
    ensures HasHeader(WithoutExif(chunks))
  {
    WithoutExifFacts(chunks);
    var h :| h in chunks && IsHeader(h);
    assert h in WithoutExif(chunks);
  }

  lemma DropInsertedAt(chunks: seq<seq<byte>>, n: nat, e: seq<byte>)
    requires IsExif(e) && n <= |WithoutExif(chunks)|
    ensures var others := WithoutExif(chunks); WithoutExif(others[..n] + [e] + others[n..]) == others
  {
    var others := WithoutExif(chunks);
    WithoutExifFacts(chunks);
    assert others[..n] + others[n..] == others;
    DropInserted(others[..n], e, others[n..]);
  }

  lemma ReplaceShape(chunks: seq<seq<byte>>, e: seq<byte>) returns (i: nat)
    requires HasHeader(chunks) && IsExif(e)
    ensures var others := WithoutExif(chunks);
            && FirstHeaderAt(others, i)
            && Replace(chunks, e, false) == others[..i + 1] + [e] + others[i + 1..]
            && WithoutExif(Replace(chunks, e, false)) == others
  {
    var others := WithoutExif(chunks);
    ReplaceFactors(chunks, e);
    HeaderIsKept(chunks);
    i := InsertPosition(others, e);
    DropInsertedAt(chunks, i + 1, e);
  }

  /** The chunks of an accepted file without `eXIf`, and where the new chunk goes among them. */
  lemma RewriteShape(data: seq<byte>, tiff: seq<byte>, crc: Crc) returns (i: nat)
    requires Rewritten(data, tiff, crc).Ok?
    ensures var others, e := WithoutExif(Chunks(data[8..]).value), PrintChunk(EXIF, tiff, crc);
            && (forall c :: c in others ==> WellFormed(c) && !IsExif(c))
            && FirstHeaderAt(others, i)
            && Rewritten(data, tiff, crc).value == SIGNATURE + Concat(others[..i + 1] + [e] + others[i + 1..])
            && WithoutExif(others[..i + 1] + [e] + others[i + 1..]) == others
  {
    var chunks := Chunks(data[8..]).value;
    ChunksAreWellFormed(data[8..]);
    WithoutExifFacts(chunks);
    PrintedChunkIsWellFormed(tiff, crc);
    i := ReplaceShape(chunks, PrintChunk(EXIF, tiff, crc));
  }

  /** The chunks of an accepted file without `eXIf`, with the new chunk right after the first header. */
  ghost predicate IsReplaced(data: seq<byte>, e: seq<byte>, after: seq<seq<byte>>)
    requires |data| >= 8 && Chunks(data[8..]).Ok?
  {
    var others := WithoutExif(Chunks(data[8..]).value);
    WithoutExif(after) == others
    && exists i :: FirstHeaderAt(others, i) && after == others[..i + 1] + [e] + others[i + 1..]
  }

  /**
   The rewrite law. The output is the input's chunks without `eXIf`, in order, with the new chunk right after the
   first header and nothing left over; bytes after the input's last chunk are dropped. It is read back like that
   exactly if the block's length fits the 32-bit field.
   */
  lemma RewriteReplacesExactlyTheExif(data: seq<byte>, tiff: seq<byte>, crc: Crc)
    returns (after: seq<seq<byte>>)
    requires Rewritten(data, tiff, crc).Ok?
    ensures IsReplaced(data, PrintChunk(EXIF, tiff, crc), after)
    ensures Rewritten(data, tiff, crc).value == SIGNATURE + Concat(after)
    ensures Chunks(Rewritten(data, tiff, crc).value[8..]) == Ok(after) <==> |tiff| < 0x1_0000_0000
  {
    var i := RewriteShape(data, tiff, crc);
    var others, e := WithoutExif(Chunks(data[8..]).value), PrintChunk(EXIF, tiff, crc);
    after := others[..i + 1] + [e] + others[i + 1..];
    PrintedChunkIsWellFormed(tiff, crc);
    assert (SIGNATURE + Concat(after))[8..] == Concat(after);
    assert e in after by { assert after[i + 1] == e; }
    if |tiff| < 0x1_0000_0000 {
      forall c | c in after
        ensures WellFormed(c)
      {
        assert c == e || c in others;
      }
      ChunksOfPrinted(after);
    } else if Chunks(Concat(after)).Ok? {
      ChunksAreWellFormed(Concat(after));
    }
  }

  /** The written block is found again exactly when its length fits the 32-bit field. */
  lemma WrittenBlockIsFoundIffItFits(data: seq<byte>, tiff: seq<byte>, crc: Crc)
    requires Rewritten(data, tiff, crc).Ok?
    ensures FoundIn(Rewritten(data, tiff, crc).value) == Ok(Some(tiff)) <==> |tiff| < 0x1_0000_0000
  {
    var i := RewriteShape(data, tiff, crc);
    var others, e := WithoutExif(Chunks(data[8..]).value), PrintChunk(EXIF, tiff, crc);
    var before, behind := others[..i + 1], others[i + 1..];
    var s := e + Concat(behind);
    ConcatInserted(before, e, behind);
    assert (SIGNATURE + Concat(before + [e] + behind))[8..] == Concat(before) + s;
    FoundSkipsOthers(before, s);
    FoundAtFront(tiff, crc, Concat(behind));
  }

  lemma ConcatInserted(before: seq<seq<byte>>, e: seq<byte>, behind: seq<seq<byte>>)
    ensures Concat(before + [e] + behind) == Concat(before) + (e + Concat(behind))
  {
    Associative(before, [e], behind);
    ConcatAppend(before, [e] + behind);
    ConcatCons(e, behind);
  }

  lemma FoundAtFront(tiff: seq<byte>, crc: Crc, rest: seq<byte>)
    ensures Found(PrintChunk(EXIF, tiff, crc) + rest) == Ok(Some(tiff[..|tiff| % 0x1_0000_0000]))
    ensures tiff[..|tiff| % 0x1_0000_0000] == tiff <==> |tiff| < 0x1_0000_0000
  {
    var e := PrintChunk(EXIF, tiff, crc);
    var s, n := e + rest, 12 + |tiff| % 0x1_0000_0000;
    PrintedChunkIsWellFormed(tiff, crc);
    PrintedParts(tiff, crc);
    assert s[..4] == e[..4];
    assert FrontLength(s) == n;
    assert s[4] == e[4] && s[5] == e[5] && s[6] == e[6] && s[7] == e[7];
    assert forall j :: 0 <= j < |tiff| ==> s[8 + j] == e[8 + j] == e[8..8 + |tiff|][j] == tiff[j];
    assert s[..n][8..n - 4] == tiff[..|tiff| % 0x1_0000_0000];
  }

  /** The last write wins. */
  lemma LastRewriteWins(data: seq<byte>, first: seq<byte>, second: seq<byte>, crc: Crc)
    requires Rewritten(data, first, crc).Ok? && |first| < 0x1_0000_0000
    ensures Rewritten(Rewritten(data, first, crc).value, second, crc) == Rewritten(data, second, crc)
  {
    var out, e := Rewritten(data, first, crc).value, PrintChunk(EXIF, second, crc);
    var after := RewriteReplacesExactlyTheExif(data, first, crc);
    var others := WithoutExif(Chunks(data[8..]).value);
    ReplaceFactors(after, e);
    ReplaceFactors(Chunks(data[8..]).value, e);
    var i: nat :| FirstHeaderAt(others, i)
                  && after == others[..i + 1] + [PrintChunk(EXIF, first, crc)] + others[i + 1..];
    assert after[i] == others[i];
    assert HasHeader(after);
  }

  // ---- the grammar of a file ----

  datatype Chunk = Chunk(typ: seq<byte>, data: seq<byte>, crc: seq<byte>)

  predicate IsExifType(c: Chunk) {
    c.typ == Ascii("eXIf")
  }

  predicate IsHeaderType(c: Chunk) {
    c.typ == Ascii("IHDR")
  }

  /** The chunk that carries a block. */
  function ExifChunk(tiff: seq<byte>, crc: Crc): Chunk {
    Chunk(Ascii("eXIf"), tiff, ToBe(crc(Ascii("eXIf"), tiff) as nat, 4))
  }

  predicate WellFormedChunk(c: Chunk) {
    |c.typ| == 4 && |c.crc| == 4 && |c.data| < 0x1_0000_0000
  }

  function PrintedChunk(c: Chunk): seq<byte> {
    ToBe(|c.data|, 4) + c.typ + c.data + c.crc
  }

  function PrintedChunks(cs: seq<Chunk>): (ps: seq<seq<byte>>)
    ensures |ps| == |cs|
  {
    if cs == [] then [] else [PrintedChunk(cs[0])] + PrintedChunks(cs[1..])
  }

  lemma {:induction false} PrintedChunkAt(cs: seq<Chunk>, i: nat)
    requires i < |cs|
    ensures PrintedChunks(cs)[i] == PrintedChunk(cs[i])
    decreases i
  {
    if i > 0 {
      PrintedChunkAt(cs[1..], i - 1);
    }
  }

  lemma {:induction false} PrintedChunksAppend(a: seq<Chunk>, b: seq<Chunk>)
    ensures PrintedChunks(a + b) == PrintedChunks(a) + PrintedChunks(b)
    decreases |a|
  {
    if a == [] {
      assert a + b == b;
    } else {
      assert (a + b)[1..] == a[1..] + b;
      PrintedChunksAppend(a[1..], b);
    }
  }

  function Start(): seq<byte> {
    [0x89] + Ascii("PNG\r\n") + [0x1a] + Ascii("\n")
  }

  /** The eight bytes of a PNG, these chunks, and fewer than twelve bytes more. */
  predicate IsFile(file: seq<byte>, cs: seq<Chunk>, rest: seq<byte>) {
    && (forall i :: 0 <= i < |cs| ==> WellFormedChunk(cs[i]))
    && |rest| < 12
    && file == Start() + (Concat(PrintedChunks(cs)) + rest)
  }

  function Others(cs: seq<Chunk>): seq<Chunk> {
    if cs == [] then []
    else (if IsExifType(cs[0]) then [] else [cs[0]]) + Others(cs[1..])
  }

  predicate IsFirstHeader(cs: seq<Chunk>, i: nat) {
    && i < |cs| && IsHeaderType(cs[i])
    && forall j :: 0 <= j < i ==> !IsHeaderType(cs[j])
  }

  lemma SignatureSpells()
    ensures SIGNATURE == Start()
    ensures EXIF == Ascii("eXIf") && IHDR == Ascii("IHDR")
  {
  }

  /** The four type bytes decide. */
  lemma ChunkIsRead(c: Chunk)
    requires WellFormedChunk(c)
    ensures var p := PrintedChunk(c);
            WellFormed(p) && (IsExif(p) <==> IsExifType(c)) && (IsHeader(p) <==> IsHeaderType(c))
  {
    var p := PrintedChunk(c);
    assert p[..4] == ToBe(|c.data|, 4) && p[4] == c.typ[0] && p[5] == c.typ[1] && p[6] == c.typ[2] && p[7] == c.typ[3];
    BeOfFitting(|c.data|, 4);
    SignatureSpells();
    SameType(c.typ, EXIF);
    SameType(c.typ, IHDR);
  }

  lemma SameType(a: seq<byte>, b: seq<byte>)
    requires |a| == 4 && |b| == 4
    ensures a == b <==> a[0] == b[0] && a[1] == b[1] && a[2] == b[2] && a[3] == b[3]
  {
  }

  lemma {:induction false} OthersArePrinted(cs: seq<Chunk>)
    requires forall i :: 0 <= i < |cs| ==> WellFormedChunk(cs[i])
    ensures WithoutExif(PrintedChunks(cs)) == PrintedChunks(Others(cs))
    ensures forall i :: 0 <= i < |Others(cs)| ==> WellFormedChunk(Others(cs)[i])
    decreases |cs|
  {
    if cs != [] {
      OthersArePrinted(cs[1..]);
      ChunkIsRead(cs[0]);
      assert PrintedChunks(cs)[1..] == PrintedChunks(cs[1..]);
      if IsExifType(cs[0]) {
        assert Others(cs) == Others(cs[1..]);
      } else {
        assert Others(cs)[1..] == Others(cs[1..]);
      }
    }
  }

  /** Reading a file gives its chunks. */
  lemma ChunksOfFile(file: seq<byte>, cs: seq<Chunk>, rest: seq<byte>)
    requires IsFile(file, cs, rest)
    ensures IsPng(file) && Chunks(file[8..]) == Ok(PrintedChunks(cs))
  {
    SignatureSpells();
    assert file[8..] == Concat(PrintedChunks(cs)) + rest;
    forall p | p in PrintedChunks(cs)
      ensures WellFormed(p)
    {
      var i :| 0 <= i < |PrintedChunks(cs)| && PrintedChunks(cs)[i] == p;
      PrintedChunkAt(cs, i);
      ChunkIsRead(cs[i]);
    }
    ChunksBefore(PrintedChunks(cs), rest);
  }

  lemma {:induction false} ChunksBefore(ps: seq<seq<byte>>, rest: seq<byte>)
    requires |rest| < 12 && forall p :: p in ps ==> WellFormed(p)
    ensures Chunks(Concat(ps) + rest) == Ok(ps)
    decreases |ps|
  {
    if ps == [] {
      assert Concat(ps) + rest == rest;
    } else {
      assert ps[0] in ps;
      ChunksBefore(ps[1..], rest);
      Associative(ps[0], Concat(ps[1..]), rest);
      ChunksCons(ps[0], Concat(ps[1..]) + rest);
      assert ps == [ps[0]] + ps[1..];
    }
  }

  lemma HeadersAreRead(cs: seq<Chunk>, ps: seq<seq<byte>>)
    requires ps == PrintedChunks(cs) && forall i :: 0 <= i < |cs| ==> WellFormedChunk(cs[i])
    ensures forall i :: 0 <= i < |cs| ==> (IsHeader(ps[i]) <==> IsHeaderType(cs[i]))
  {
    forall i | 0 <= i < |cs|
      ensures IsHeader(ps[i]) <==> IsHeaderType(cs[i])
    {
      PrintedChunkAt(cs, i);
      ChunkIsRead(cs[i]);
    }
  }

  lemma HeaderIff(cs: seq<Chunk>)
    requires forall i :: 0 <= i < |cs| ==> WellFormedChunk(cs[i])
    ensures HasHeader(PrintedChunks(cs)) <==> exists i :: 0 <= i < |cs| && IsHeaderType(cs[i])
  {
    HeadersAreRead(cs, PrintedChunks(cs));
    SameHeader(cs, PrintedChunks(cs));
  }

  lemma SameHeader(cs: seq<Chunk>, ps: seq<seq<byte>>)
    requires |ps| == |cs| && forall i :: 0 <= i < |cs| ==> (IsHeader(ps[i]) <==> IsHeaderType(cs[i]))
    ensures HasHeader(ps) <==> exists i :: 0 <= i < |cs| && IsHeaderType(cs[i])
    ensures forall i: nat :: FirstHeaderAt(ps, i) <==> IsFirstHeader(cs, i)
  {
    if c :| c in ps && IsHeader(c) {
      var i :| 0 <= i < |ps| && ps[i] == c;
      assert IsHeaderType(cs[i]);
    }
    if i :| 0 <= i < |cs| && IsHeaderType(cs[i]) {
      assert ps[i] in ps;
    }
  }

  lemma FirstHeaderIff(cs: seq<Chunk>, i: nat)
    requires forall j :: 0 <= j < |cs| ==> WellFormedChunk(cs[j])
    ensures FirstHeaderAt(PrintedChunks(cs), i) <==> IsFirstHeader(cs, i)
  {
    HeadersAreRead(cs, PrintedChunks(cs));
    SameHeader(cs, PrintedChunks(cs));
  }

  /**
   The rewrite law on the grammar: a file is accepted exactly if it has a header chunk. Then its `eXIf` chunks
   disappear, a new one with the block and its checksum stands right behind the first header, and everything else
   stays, in order; only the bytes behind the last chunk are lost.
   */
  lemma RewriteOfFile(file: seq<byte>, cs: seq<Chunk>, rest: seq<byte>, tiff: seq<byte>, crc: Crc)
    requires IsFile(file, cs, rest) && |tiff| < 0x1_0000_0000
    ensures Rewritten(file, tiff, crc).Ok? <==> exists i :: 0 <= i < |cs| && IsHeaderType(cs[i])
    ensures Rewritten(file, tiff, crc).Ok? ==>
              var others := Others(cs);
              exists i: nat ::
                IsFirstHeader(others, i)
                && IsFile(Rewritten(file, tiff, crc).value, Inserted(others, i, ExifChunk(tiff, crc)), [])
  {
    ChunksOfFile(file, cs, rest);
    HeaderIff(cs);
    if Rewritten(file, tiff, crc).Ok? {
      var i := RewriteShape(file, tiff, crc);
      OthersArePrinted(cs);
      FirstHeaderIff(Others(cs), i);
      OutputIsFile(Others(cs), i, tiff, crc, Rewritten(file, tiff, crc).value);
    }
  }

  /** `e` right behind position `i`. */
  function Inserted(cs: seq<Chunk>, i: nat, e: Chunk): seq<Chunk>
    requires i < |cs|
  {
    cs[..i + 1] + [e] + cs[i + 1..]
  }

  lemma InsertedIsPrinted(cs: seq<Chunk>, i: nat, e: Chunk)
    requires i < |cs|
    ensures var ps := PrintedChunks(cs);
            PrintedChunks(Inserted(cs, i, e)) == ps[..i + 1] + [PrintedChunk(e)] + ps[i + 1..]
  {
    var front, back := cs[..i + 1], cs[i + 1..];
    assert cs == front + back;
    PrintedChunksAppend(front, back);
    PrintedChunksAppend(front, [e]);
    PrintedChunksAppend(front + [e], back);
    assert [e][1..] == [] && PrintedChunks([e]) == [PrintedChunk(e)];
  }

  lemma ExifChunkIsPrinted(tiff: seq<byte>, crc: Crc)
    requires |tiff| < 0x1_0000_0000
    ensures WellFormedChunk(ExifChunk(tiff, crc))
    ensures PrintedChunk(ExifChunk(tiff, crc)) == PrintChunk(EXIF, tiff, crc)
  {
    SignatureSpells();
  }

  lemma OutputIsFile(others: seq<Chunk>, i: nat, tiff: seq<byte>, crc: Crc, out: seq<byte>)
    requires i < |others| && |tiff| < 0x1_0000_0000 && forall j :: 0 <= j < |others| ==> WellFormedChunk(others[j])
    requires var ps := PrintedChunks(others);
             out == SIGNATURE + Concat(ps[..i + 1] + [PrintChunk(EXIF, tiff, crc)] + ps[i + 1..])
    ensures IsFile(out, Inserted(others, i, ExifChunk(tiff, crc)), [])
  {
    var e := ExifChunk(tiff, crc);
    ExifChunkIsPrinted(tiff, crc);
    InsertedIsPrinted(others, i, e);
    InsertedIsWellFormed(others, i, e);
    FileOf(Inserted(others, i, e), out);
  }

  lemma InsertedIsWellFormed(cs: seq<Chunk>, i: nat, e: Chunk)
    requires i < |cs| && WellFormedChunk(e) && forall j :: 0 <= j < |cs| ==> WellFormedChunk(cs[j])
    ensures forall j :: 0 <= j < |Inserted(cs, i, e)| ==> WellFormedChunk(Inserted(cs, i, e)[j])
  {
  }

  lemma FileOf(cs: seq<Chunk>, out: seq<byte>)
    requires out == SIGNATURE + Concat(PrintedChunks(cs)) && forall i :: 0 <= i < |cs| ==> WellFormedChunk(cs[i])
    ensures IsFile(out, cs, [])
  {
    SignatureSpells();
    EmptyEnd(Concat(PrintedChunks(cs)));
  }

  lemma EmptyEnd(s: seq<byte>)
    ensures s + [] == s
  {
  }

  /** The block of a file is the data of its first `eXIf` chunk. */
  lemma FoundOfFile(file: seq<byte>, cs: seq<Chunk>, rest: seq<byte>, i: nat)
    requires IsFile(file, cs, rest) && i < |cs| && IsExifType(cs[i])
    requires forall j :: 0 <= j < i ==> !IsExifType(cs[j])
    ensures FoundIn(file) == Ok(Some(cs[i].data))
  {
    SignatureSpells();
    assert file[8..] == Concat(PrintedChunks(cs)) + rest;
    FoundFrom(cs, rest, i);
  }

  lemma {:induction false} FoundFrom(cs: seq<Chunk>, rest: seq<byte>, i: nat)
    requires (forall j :: 0 <= j < |cs| ==> WellFormedChunk(cs[j])) && i < |cs| && IsExifType(cs[i])
    requires forall j :: 0 <= j < i ==> !IsExifType(cs[j])
    ensures Found(Concat(PrintedChunks(cs)) + rest) == Ok(Some(cs[i].data))
    decreases i
  {
    var p, more := PrintedChunk(cs[0]), Concat(PrintedChunks(cs[1..])) + rest;
    assert PrintedChunks(cs)[1..] == PrintedChunks(cs[1..]);
    Associative(p, Concat(PrintedChunks(cs[1..])), rest);
    ChunkIsRead(cs[0]);
    FoundCons(p, more);
    if i == 0 {
      assert DataOf(p) == cs[0].data;
    } else {
      FoundFrom(cs[1..], rest, i - 1);
    }
  }

  lemma FoundCons(p: seq<byte>, more: seq<byte>)
    requires WellFormed(p)
    ensures Found(p + more) == if IsExif(p) then Ok(Some(DataOf(p))) else Found(more)
  {
    assert (p + more)[..4] == p[..4] && (p + more)[..|p|] == p && (p + more)[|p|..] == more;
  }
}
