/**
 The `.trashinfo` text of the freedesktop.org Trash specification: its `Path` key is percent-encoded
 (sections 2.1 and 2.3 of RFC 3986). Text is a byte sequence; paths are valid UTF-8.
 */
module TrashInfo {
  import opened Basics
  import B = Bytes

  type Bytes = seq<byte>

  const PERCENT: byte := 0x25
  const NEWLINE: byte := 0x0a
  const RETURN: byte := 0x0d
  const HEADER: Bytes := [0x5b, 0x54, 0x72, 0x61, 0x73, 0x68, 0x20, 0x49, 0x6e, 0x66, 0x6f, 0x5d]  // [Trash Info]
  const PATH_KEY: Bytes := [0x50, 0x61, 0x74, 0x68, 0x3d]  // Path=
  // DeletionDate=
  const DATE_KEY: Bytes := [0x44, 0x65, 0x6c, 0x65, 0x74, 0x69, 0x6f, 0x6e, 0x44, 0x61, 0x74, 0x65, 0x3d]

  // ---- percent encoding ----

  /** Letters, digits, `-`, `.`, `_`, `~` and the path separator are kept. */
  predicate Kept(b: byte) {
    || 0x41 <= b <= 0x5a || 0x61 <= b <= 0x7a || 0x30 <= b <= 0x39
    || b == 0x2d || b == 0x2e || b == 0x5f || b == 0x7e || b == 0x2f
  }

  function UpperHex(d: nat): byte
    requires d < 16
  {
    if d < 10 then 0x30 + d else 0x41 + d - 10
  }

  function HexDigit(b: byte): Option<nat> {
    if 0x30 <= b <= 0x39 then Some(b - 0x30)
    else if 0x61 <= b <= 0x66 then Some(b - 0x61 + 10)
    else if 0x41 <= b <= 0x46 then Some(b - 0x41 + 10)
    else None
  }

  function EncodeByte(b: byte): Bytes {
    if Kept(b) then [b] else [PERCENT, UpperHex(b / 16), UpperHex(b % 16)]
  }

  function Encode(s: Bytes): Bytes {
    if s == [] then [] else Encode(s[..|s| - 1]) + EncodeByte(s[|s| - 1])
  }

  /** A complete escape at the front. */
  predicate EscapeAt(s: Bytes) {
    |s| >= 3 && s[0] == PERCENT && HexDigit(s[1]).Some? && HexDigit(s[2]).Some?
  }

  /** Incomplete or invalid escapes are kept as they are. */
  function Decode(s: Bytes): Bytes {
    if s == [] then []
    else if EscapeAt(s) then [HexDigit(s[1]).value * 16 + HexDigit(s[2]).value] + Decode(s[3..])
    else [s[0]] + Decode(s[1..])
  }

  method PercentEncodePath(path: Bytes) returns (out: Bytes)
    ensures out == Encode(path)
  {
    out := [];
    for i := 0 to |path|
      invariant out == Encode(path[..i])
    {
      assert path[..i + 1][..i] == path[..i];
      var b := path[i];
      if Kept(b) {
        out := out + [b];
      } else {
        out := out + [PERCENT, UpperHex(b / 16), UpperHex(b % 16)];
      }
    }
    assert path[..|path|] == path;
  }

  method PercentDecode(b: Bytes) returns (out: Bytes)
    ensures out == Decode(b)
  {
    out := [];
    var i := 0;
    assert b[0..] == b;
    while i < |b|
      invariant 0 <= i <= |b|
      invariant out + Decode(b[i..]) == Decode(b)
    {
      ghost var s := b[i..];
      if b[i] == PERCENT && i + 2 < |b| && HexDigit(b[i + 1]).Some? && HexDigit(b[i + 2]).Some? {
        var v := HexDigit(b[i + 1]).value * 16 + HexDigit(b[i + 2]).value;
        assert EscapeAt(s) && s[3..] == b[i + 3..];
        assert out + ([v] + Decode(s[3..])) == (out + [v]) + Decode(s[3..]);
        out := out + [v];
        i := i + 3;
        continue;
      }
      assert !EscapeAt(s) && s[1..] == b[i + 1..];
      assert out + ([b[i]] + Decode(s[1..])) == (out + [b[i]]) + Decode(s[1..]);
      out := out + [b[i]];
      i := i + 1;
    }
    assert b[i..] == [] && out + [] == out;
  }

  lemma HexRoundTrip(d: nat)
    requires d < 16
    ensures HexDigit(UpperHex(d)) == Some(d)
  {
  }

  lemma DecodeFront(b: byte, rest: Bytes)
    ensures Decode(EncodeByte(b) + rest) == [b] + Decode(rest)
  {
    var s := EncodeByte(b) + rest;
    if Kept(b) {
      assert s[1..] == rest;
    } else {
      HexRoundTrip(b / 16);
      HexRoundTrip(b % 16);
      assert s[3..] == rest;
    }
  }

  lemma {:induction false} DecodeOfEncodedPrefix(s: Bytes, rest: Bytes)
    ensures Decode(Encode(s) + rest) == s + Decode(rest)
    decreases |s|
  {
    if s == [] {
      assert Encode(s) + rest == rest;
    } else {
      var init, b := s[..|s| - 1], s[|s| - 1];
      B.Associative(Encode(init), EncodeByte(b), rest);
      DecodeOfEncodedPrefix(init, EncodeByte(b) + rest);
      DecodeFront(b, rest);
      B.Associative(init, [b], Decode(rest));
      assert s == init + [b];
    }
  }

  /** Decoding undoes encoding, for every byte string. */
  lemma DecodeUndoesEncode(s: Bytes)
    ensures Decode(Encode(s)) == s
  {
    DecodeOfEncodedPrefix(s, []);
    assert Encode(s) + [] == Encode(s);
  }

  /** An encoded path fits on one line and cannot end in a carriage return. */
  lemma {:induction false} EncodedHasNoLineBreak(s: Bytes)
    ensures forall i :: 0 <= i < |Encode(s)| ==> Encode(s)[i] != NEWLINE && Encode(s)[i] != RETURN
    decreases |s|
  {
    if s != [] {
      EncodedHasNoLineBreak(s[..|s| - 1]);
    }
  }

  /** Text without a percent sign is its own decoding. */
  lemma {:induction false} PlainTextIsKept(s: Bytes)
    requires PERCENT !in s
    ensures Decode(s) == s
    decreases |s|
  {
    if s != [] {
      assert s[0] in s;
      PlainTextIsKept(s[1..]);
    }
  }

  // ---- the file ----

  function TrashInfoFor(path: Bytes, date: Bytes): Bytes {
    HEADER + ([NEWLINE] + (PATH_KEY + (Encode(path) + ([NEWLINE] + (DATE_KEY + date + [NEWLINE])))))
  }

  function LineLength(s: Bytes): (n: nat)
    ensures n <= |s| && (forall i :: 0 <= i < n ==> s[i] != NEWLINE) && (n < |s| ==> s[n] == NEWLINE)
  {
    if s == [] || s[0] == NEWLINE then 0 else 1 + LineLength(s[1..])
  }

  /** A line ends with a newline or with carriage return and newline; the last line may end with neither. */
  function FirstLine(s: Bytes): Bytes {
    var n := LineLength(s);
    if 0 < n < |s| && s[n - 1] == RETURN then s[..n - 1] else s[..n]
  }

  /** What follows `Path=` on the first line that starts with it. */
  function RecordedPath(s: Bytes): Option<Bytes>
    decreases |s|
  {
    if s == [] then None
    else
      var n := LineLength(s);
      var line := FirstLine(s);
      if PATH_KEY <= line then Some(line[5..])
      else if n == |s| then None
      else RecordedPath(s[n + 1..])
  }

  lemma LineLengthOf(line: Bytes, rest: Bytes)
    requires NEWLINE !in line
    ensures LineLength(line + ([NEWLINE] + rest)) == |line|
  {
    var s := line + ([NEWLINE] + rest);
    var n := LineLength(s);
    assert forall i :: 0 <= i < |line| ==> s[i] == line[i] && line[i] in line;
    assert s[|line|] == NEWLINE;
  }

  lemma SkipLine(line: Bytes, rest: Bytes)
    requires NEWLINE !in line && line != [] && line[0] != PATH_KEY[0]
    ensures RecordedPath(line + ([NEWLINE] + rest)) == RecordedPath(rest)
  {
    var s := line + ([NEWLINE] + rest);
    LineLengthOf(line, rest);
    assert s[..|line|] == line && s[|line| + 1..] == rest;
  }

  lemma ReadPathLine(value: Bytes, rest: Bytes)
    requires NEWLINE !in value && RETURN !in value
    ensures RecordedPath(PATH_KEY + (value + ([NEWLINE] + rest))) == Some(value)
  {
    var line := PATH_KEY + value;
    assert PATH_KEY + (value + ([NEWLINE] + rest)) == line + ([NEWLINE] + rest);
    assert NEWLINE !in line;
    LineLengthOf(line, rest);
    assert (line + ([NEWLINE] + rest))[..|line|] == line;
    assert line[|line| - 1] != RETURN;
    assert line[5..] == value;
  }

  /** A line is what comes before its newline, without one carriage return; the last line is all that is left. */
  lemma LineEndings(line: Bytes, rest: Bytes)
    requires NEWLINE !in line
    ensures FirstLine(line + ([0x0d] + ([0x0a] + rest))) == line
    ensures (line == [] || line[|line| - 1] != 0x0d) ==> FirstLine(line + ([0x0a] + rest)) == line
    ensures FirstLine(line) == line
  {
    LineLengthOf(line + [RETURN], rest);
    assert line + ([RETURN] + ([NEWLINE] + rest)) == line + [RETURN] + ([NEWLINE] + rest);
    assert (line + [RETURN] + ([NEWLINE] + rest))[..|line|] == line;
    LineLengthOf(line, rest);
    assert (line + ([NEWLINE] + rest))[..|line|] == line;
    assert LineLength(line) == |line| by {
      assert forall i :: 0 <= i < |line| ==> line[i] in line;
    }
  }

  /** A text of lines that end in newline, or in carriage return and newline. */
  function Lines(lines: seq<Bytes>, returns_: bool): Bytes {
    if lines == [] then [] else lines[0] + (if returns_ then [0x0d, 0x0a] else [0x0a]) + Lines(lines[1..], returns_)
  }

  predicate IsLine(line: Bytes) {
    NEWLINE !in line && RETURN !in line
  }

  predicate HasPath(line: Bytes) {
    B.Ascii("Path=") <= line
  }

  /** The recorded path is what the first line that starts with `Path=` says, whatever the line endings. */
  lemma {:induction false} FirstPathLineIsRecorded(lines: seq<Bytes>, returns_: bool, n: nat)
    requires forall i :: 0 <= i < |lines| ==> IsLine(lines[i])
    requires n < |lines| && HasPath(lines[n]) && forall i :: 0 <= i < n ==> !HasPath(lines[i])
    ensures RecordedPath(Lines(lines, returns_)) == Some(lines[n][5..])
    decreases n
  {
    KeysSpell();
    FrontLine(lines[0], returns_, Lines(lines[1..], returns_));
    if n > 0 {
      FirstPathLineIsRecorded(lines[1..], returns_, n - 1);
    }
  }

  lemma FrontLine(line: Bytes, returns_: bool, rest: Bytes)
    requires IsLine(line)
    ensures var s := line + (if returns_ then [0x0d, 0x0a] else [0x0a]) + rest;
            RecordedPath(s) == if PATH_KEY <= line then Some(line[5..]) else RecordedPath(rest)
  {
    LineEndings(line, rest);
    assert line == [] || line[|line| - 1] in line;
    if returns_ {
      Regrouped(line, rest);
      LineLengthOf(line + [RETURN], rest);
      RecordedStep(line + [0x0d, 0x0a] + rest, line, |line| + 1, rest);
    } else {
      B.Associative(line, [0x0a], rest);
      LineLengthOf(line, rest);
      assert (line + ([0x0a] + rest))[|line| + 1..] == rest;
      RecordedStep(line + [0x0a] + rest, line, |line|, rest);
    }
  }

  lemma Regrouped(line: Bytes, rest: Bytes)
    ensures var s := line + [0x0d, 0x0a] + rest;
            && s == line + ([0x0d] + ([0x0a] + rest)) && s == (line + [RETURN]) + ([NEWLINE] + rest)
            && s[|line| + 2..] == rest
  {
  }

  lemma RecordedStep(s: Bytes, line: Bytes, n: nat, rest: Bytes)
    requires n < |s| && LineLength(s) == n && FirstLine(s) == line && s[n + 1..] == rest
    ensures RecordedPath(s) == if PATH_KEY <= line then Some(line[5..]) else RecordedPath(rest)
  {
  }

  /** Reading a written file back gives the exact path, whatever the date text. */
  lemma WrittenPathIsReadBack(path: Bytes, date: Bytes)
    ensures RecordedPath(TrashInfoFor(path, date)) == Some(Encode(path))
    ensures Decode(RecordedPath(TrashInfoFor(path, date)).value) == path
  {
    var tail := DATE_KEY + date + [NEWLINE];
    var body := PATH_KEY + (Encode(path) + ([NEWLINE] + tail));
    EncodedHasNoLineBreak(path);
    SkipLine(HEADER, body);
    ReadPathLine(Encode(path), tail);
    DecodeUndoesEncode(path);
  }

  // ---- the text itself ----

  /** Characters that stand for themselves in a path (section 2.3 of RFC 3986, and the slash). */
  predicate IsUnreserved(c: char) {
    || 'A' <= c <= 'Z' || 'a' <= c <= 'z' || '0' <= c <= '9'
    || c == '-' || c == '.' || c == '_' || c == '~' || c == '/'
  }

  /** The value of a hexadecimal digit, in either case. */
  function DigitValue(c: char): Option<nat> {
    if '0' <= c <= '9' then Some(c as int - '0' as int)
    else if 'a' <= c <= 'f' then Some(c as int - 'a' as int + 10)
    else if 'A' <= c <= 'F' then Some(c as int - 'A' as int + 10)
    else None
  }

  /** An unreserved character stands for itself; any other byte is a percent sign and two digits in upper case. */
  lemma EncodedByteIs(b: byte) returns (x: char, y: char)
    ensures IsUnreserved(b as char) ==> Encode([b]) == [b]
    ensures !IsUnreserved(b as char) ==>
              && Encode([b]) == [B.Code('%'), B.Code(x), B.Code(y)]
              && DigitValue(x) == Some(b / 16) && DigitValue(y) == Some(b % 16) && x <= 'F' && y <= 'F'
  {
    assert [b][..0] == [] && [] + EncodeByte(b) == EncodeByte(b);
    x, y := UpperHex(b / 16) as char, UpperHex(b % 16) as char;
  }

  /** A percent sign and two digits in any case are one byte; a percent sign before anything else is kept. */
  lemma EscapeIsDecoded(x: char, y: char, rest: Bytes)
    requires x < '\U{80}' && y < '\U{80}'
    ensures Decode([B.Code('%'), B.Code(x), B.Code(y)] + rest) ==
            if DigitValue(x).Some? && DigitValue(y).Some?
            then [DigitValue(x).value * 16 + DigitValue(y).value] + Decode(rest)
            else [B.Code('%')] + Decode([B.Code(x), B.Code(y)] + rest)
  {
    var s := [B.Code('%'), B.Code(x), B.Code(y)] + rest;
    assert HexDigit(s[1]) == DigitValue(x) && HexDigit(s[2]) == DigitValue(y);
    assert s[3..] == rest && s[1..] == [B.Code(x), B.Code(y)] + rest;
  }

  lemma HeaderSpells()
    ensures HEADER == B.Ascii("[Trash Info]")
  {
  }

  lemma KeysSpell()
    ensures PATH_KEY == B.Ascii("Path=") && [NEWLINE] == B.Ascii("\n")
  {
  }

  lemma DateKeySpells()
    ensures DATE_KEY == B.Ascii("DeletionDate=")
  {
  }

  /** The three lines of an info file. */
  lemma InfoText(path: Bytes, date: Bytes)
    ensures TrashInfoFor(path, date) ==
            B.Ascii("[Trash Info]") + (B.Ascii("\n")
               + (B.Ascii("Path=") + (Encode(path) + (B.Ascii("\n")
               + (B.Ascii("DeletionDate=") + date + B.Ascii("\n"))))))
  {
    HeaderSpells();
    KeysSpell();
    DateKeySpells();
  }
}
