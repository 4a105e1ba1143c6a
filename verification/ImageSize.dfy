/** Reading an image's dimensions straight from its bytes, the job of a second, independent
    reader of the three formats; and the proof that cleaning a file never changes its answer. */
module ImageSize {
  import opened Options
  import opened ImageClean

  datatype Size = Size(width: nat, height: nat)

  // ---------------------------------------------------------------- JPEG

  predicate Standalone(marker: Byte) {
    marker == 0xD8 || marker == 0x01 || 0xD0 <= marker <= 0xD7
  }

  predicate IsSof(marker: Byte) {
    0xC0 <= marker <= 0xCF && marker != 0xC4 && marker != 0xC8 && marker != 0xCC
  }

  /** What the scan finds from the unread bytes `s` on. */
  function JpegScan(s: Buffer): Option<Size>
    decreases |s|
  {
    if |s| <= 9 then None
    else if s[0] != 0xFF || s[1] == 0xFF then JpegScan(s[1..])
    else if Standalone(s[1]) then JpegScan(s[2..])
    else if Be16(s, 2) < 2 then None
    else if IsSof(s[1]) then Some(Size(Be16(s, 7), Be16(s, 5)))
    else JpegScan(Drop(s, 2 + Be16(s, 2)))
  }

  function JpegSize(b: Buffer): Option<Size> {
    if |b| < 2 || b[0] != 0xFF || b[1] != 0xD8 then None else JpegScan(b[2..])
  }

  lemma JpegSizeIsScan(b: Buffer)
    ensures JpegSize(b) == if |b| < 2 || b[0] != 0xFF || b[1] != 0xD8 then None else JpegScan(Drop(b, 2))
  {
    if |b| >= 2 { DropIsSlice(b, 2); }
  }

  lemma JpegScanAt(b: Buffer, i: nat)
    ensures JpegScan(Drop(b, i)) ==
            if i + 9 >= |b| then None
            else if b[i] != 0xFF || b[i+1] == 0xFF then JpegScan(Drop(b, i + 1))
            else if Standalone(b[i+1]) then JpegScan(Drop(b, i + 2))
            else if Be16(b, i + 2) < 2 then None
            else if IsSof(b[i+1]) then Some(Size(Be16(b, i + 7), Be16(b, i + 5)))
            else JpegScan(Drop(b, i + 2 + Be16(b, i + 2)))
  {
    var s := Drop(b, i);
    if i + 9 < |b| {
      assert s[1..] == Drop(b, i + 1) && s[2..] == Drop(b, i + 2);
      assert Be16(s, 2) == Be16(b, i + 2);
      assert Drop(s, 2 + Be16(s, 2)) == Drop(b, i + 2 + Be16(b, i + 2));
    }
  }

  method ReadJpegSize(b: Buffer) returns (r: Option<Size>)
    ensures r == JpegSize(b)
  {
    JpegSizeIsScan(b);
    hide JpegScan, JpegSize, Drop, Be16, IsSof, Standalone;
    ghost var wanted := JpegSize(b);
    if |b| < 2 || b[0] != 0xFF || b[1] != 0xD8 { return None; }
    var i := 2;
    while i + 9 < |b|
      invariant wanted == JpegScan(Drop(b, i))
      decreases |b| - i
    {
      JpegScanAt(b, i);
      if b[i] != 0xFF { i := i + 1; continue; }
      var marker := b[i+1];
      if marker == 0xFF { i := i + 1; continue; }
      if Standalone(marker) { i := i + 2; continue; }
      var len := Be16(b, i + 2);
      if len < 2 { return None; }
      if IsSof(marker) { return Some(Size(Be16(b, i + 7), Be16(b, i + 5))); }
      i := i + 2 + len;
    }
    JpegScanAt(b, i);
    return None;
  }

  /** A length-carrying segment as the cleaner cuts it. */
  predicate Segment(p: Part) {
    && |p.bytes| >= 4 && p.bytes[0] == 0xFF
    && |p.bytes| == 2 + Be16(p.bytes, 2)
    && p.drop == DroppedMarker(p.bytes[1])
  }

  /** Up to the first frame header, only segments the size reader also reads by their length;
      and that frame header is long enough to hold the dimensions. */
  predicate Readable(parts: seq<Part>) {
    && parts != [] && Segment(parts[0])
    && parts[0].bytes[1] != 0xFF && !Standalone(parts[0].bytes[1])
    && if IsSof(parts[0].bytes[1]) then |parts[0].bytes| >= 10 else Readable(parts[1..])
  }

  function FrameSize(parts: seq<Part>): Size
    requires Readable(parts)
  {
    var bytes := parts[0].bytes;
    if IsSof(bytes[1]) then Size(Be16(bytes, 7), Be16(bytes, 5)) else FrameSize(parts[1..])
  }

  lemma {:induction false} ReadablePrint(parts: seq<Part>)
    requires Readable(parts)
    ensures |Print(parts)| >= 10
  {
    if !IsSof(parts[0].bytes[1]) {
      ReadablePrint(parts[1..]);
    }
  }

  lemma {:induction false} ScanFindsFrame(parts: seq<Part>, left: Buffer)
    requires Readable(parts)
    ensures JpegScan(Print(parts) + left) == Some(FrameSize(parts))
  {
    ReadablePrint(parts);
    var s := Print(parts) + left;
    var bytes := parts[0].bytes;
    var rest := Print(parts[1..]) + left;
    assert s == bytes + rest;
    assert s[0] == bytes[0] && s[1] == bytes[1] && s[2] == bytes[2] && s[3] == bytes[3];
    assert Be16(s, 2) == Be16(bytes, 2);
    if !IsSof(bytes[1]) {
      ScanFindsFrame(parts[1..], left);
      assert Drop(s, |bytes|) == rest;
    }
  }

  lemma {:induction false} KeptReadable(parts: seq<Part>)
    requires Readable(parts)
    ensures Readable(Kept(parts)) && FrameSize(Kept(parts)) == FrameSize(parts)
  {
    if !parts[0].drop {
      assert Kept(parts)[1..] == Kept(parts[1..]);
    }
    if !IsSof(parts[0].bytes[1]) {
      KeptReadable(parts[1..]);
    }
  }

  /** Cleaning a JPEG keeps the dimensions the size reader finds. */
  lemma JpegSizeKept(b: Buffer)
    requires |b| >= 2 && b[0] == 0xFF && b[1] == 0xD8
    requires Cleanable(Jpeg, b) && Readable(Parts(Jpeg, b))
    ensures JpegSize(b) == Some(FrameSize(Parts(Jpeg, b)))
    ensures JpegSize(Cleaned(Jpeg, b)) == JpegSize(b)
  {
    hide JpegScan, Parse, Print, Kept;
    var s := Drop(b, 2);
    DropIsSlice(b, 2);
    ParseIsLossless(Jpeg, s);
    ScanFindsFrame(Parts(Jpeg, b), Leftover(Jpeg, s));
    var c := Cleaned(Jpeg, b);
    if c != b {
      CleanedShape(Jpeg, b);
      DropIsSlice(c, 2);
      assert c[0] == c[..2][0] && c[1] == c[..2][1];
      KeptReadable(Parts(Jpeg, b));
      ScanFindsFrame(Kept(Parts(Jpeg, b)), []);
      assert Print(Kept(Parts(Jpeg, b))) + [] == Print(Kept(Parts(Jpeg, b)));
    }
  }

  // ---------------------------------------------------------------- PNG and WebP

  function PngSize(b: Buffer): Option<Size> {
    if |b| >= 24 && Spells(b, 1, "PNG") && Spells(b, 12, "IHDR")
    then Some(Size(Be32(b, 16), Be32(b, 20))) else None
  }

  function WebpSize(b: Buffer): Option<Size> {
    if !Spells(b, 0, "RIFF") || !Spells(b, 8, "WEBP") then None
    else if Spells(b, 12, "VP8 ") then
      if |b| < 30 then None else Some(Size(Le16(b, 26) % 0x4000, Le16(b, 28) % 0x4000))
    else if Spells(b, 12, "VP8L") then
      if |b| < 25 then None
      else Some(Size(Le32(b, 21) % 0x4000 + 1, Le32(b, 21) / 0x4000 % 0x4000 + 1))
    else if Spells(b, 12, "VP8X") then
      if |b| < 30 then None
      else Some(Size(Le16(b, 24) + b[26] as int * 0x1_0000 + 1, Le16(b, 27) + b[29] as int * 0x1_0000 + 1))
    else None
  }

  lemma FirstPartPrints(f: Format, s: Buffer)
    requires Parse(f, s).Some? && HeadOf(f, s).Piece? && !HeadOf(f, s).drop
    ensures var n := HeadOf(f, s).size; s[..n] <= Print(Kept(Parse(f, s).value))
  {
    hide JpegHead, PngHead, WebpHead;
    var parts := Parse(f, s).value;
    assert parts[0] == Part(s[..HeadOf(f, s).size], false);
    assert Kept(parts)[0] == parts[0];
  }

  lemma PrefixReads(b: Buffer, c: Buffer, k: nat, n: nat, m: nat)
    requires k <= |b| && k <= |c| && n <= m <= |b| - k && b[k..][..m] <= c[k..]
    ensures k + n <= |c| && c[k..k+n] == b[k..k+n]
  {
    assert b[k..k+n] == b[k..][..m][..n] && c[k..k+n] == c[k..][..m][..n];
  }

  /** If the part right after the header is kept, it stays right after the header. */
  lemma FirstPartStays(f: Format, b: Buffer, n: nat)
    requires Cleaned(f, b) != b && |b| >= HeaderSize(f)
    requires var h := HeadOf(f, Drop(b, HeaderSize(f))); h.Piece? && !h.drop && n <= h.size
    ensures var k := HeaderSize(f);
            k + n <= |b| && k + n <= |Cleaned(f, b)| && Cleaned(f, b)[k..k+n] == b[k..k+n]
  {
    var k := HeaderSize(f);
    var c := Cleaned(f, b);
    CleanedShape(f, b);
    hide Parse, Print, Kept, HeadOf, Cleaned;
    DropIsSlice(b, k);
    DropIsSlice(c, k);
    FirstPartPrints(f, b[k..]);
    PrefixReads(b, c, k, n, HeadOf(f, b[k..]).size);
  }

  /** Cleaning a PNG whose header chunk holds its dimensions keeps them. */
  lemma PngSizeKept(b: Buffer)
    requires PngSize(b).Some? && Be32(b, 8) >= 4
    ensures PngSize(Cleaned(Png, b)) == PngSize(b)
  {
    var c := Cleaned(Png, b);
    if c != b {
      CleanedShape(Png, b);
      PngHeadAt(b, 8);
      hide Be32;
      NotMetadata(b);
      FirstPartStays(Png, b, 16);
      SameReadings(b, c);
    }
  }

  lemma NotMetadata(b: Buffer)
    requires Spells(b, 12, "IHDR")
    ensures !PngMetadata(b, 12)
  {
    assert b[12+0] % 128 == "IHDR"[0] as int && b[12+1] % 128 == "IHDR"[1] as int;
    assert "eXIf"[0] == 'e' && "tEXt"[0] == 't' && "zTXt"[0] == 'z' && "iTXt"[0] == 'i' && "tIME"[0] == 't';
  }

  lemma SameReadings(b: Buffer, c: Buffer)
    requires |b| >= 24 && |c| >= 24 && b[..8] == c[..8] && b[8..24] == c[8..24]
    ensures PngSize(c) == PngSize(b)
  {
    assert forall i | 0 <= i < 8 :: b[i] == b[..8][i] && c[i] == c[..8][i];
    assert forall i | 8 <= i < 24 :: b[i] == b[8..24][i-8] && c[i] == c[8..24][i-8];
  }

  /** How much of its first chunk a WebP of each kind must hold for the dimensions to be there. */
  function Needed(b: Buffer): nat {
    if Spells(b, 12, "VP8L") then 5 else 10
  }

  /** Cleaning a WebP whose first chunk holds its dimensions keeps them. */
  lemma WebpSizeKept(b: Buffer)
    requires WebpSize(b).Some? && Le32(b, 16) >= Needed(b)
    ensures WebpSize(Cleaned(Webp, b)) == WebpSize(b)
  {
    var c := Cleaned(Webp, b);
    if c != b {
      CleanedShape(Webp, b);
      RiffSizeIsRight(b);
      WebpHeadAt(b, 12);
      NotExif(b);
      FirstPartStays(Webp, b, 8 + Needed(b));
      SameWebp(b, c);
    }
  }

  lemma NotExif(b: Buffer)
    requires Spells(b, 12, "VP8 ") || Spells(b, 12, "VP8L") || Spells(b, 12, "VP8X")
    ensures !Spells(b, 12, "EXIF") && !Spells(b, 12, "XMP ")
  {
    assert "VP8 "[0] == 'V' && "VP8L"[0] == 'V' && "VP8X"[0] == 'V' && "EXIF"[0] == 'E' && "XMP "[0] == 'X';
  }

  lemma SameWebp(b: Buffer, c: Buffer)
    requires WebpSize(b).Some? && Spells(c, 0, "RIFF") && Spells(c, 8, "WEBP")
    requires var n := 20 + Needed(b); n <= |b| && n <= |c| && c[12..n] == b[12..n]
    ensures WebpSize(c) == WebpSize(b)
  {
    var n := 20 + Needed(b);
    assert forall i | 12 <= i < n :: b[i] == b[12..n][i-12] && c[i] == c[12..n][i-12];
    assert forall text: string | |text| == 4 :: Spells(c, 12, text) == Spells(b, 12, text);
    if Spells(b, 12, "VP8 ") {
      assert "VP8 "[3] != "VP8L"[3];
      assert !Spells(b, 12, "VP8L") by { assert b[15] % 128 == "VP8 "[3] as int; }
    }
  }
}
