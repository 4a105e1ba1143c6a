/** The image formats by their bytes: how numbers, tags and parts are written, stated apart from
    the readers that walk them.  The cleaners cut exactly what is written so, and the readers of
    orientation and dimensions read back what was written. */
module ImageBytes {
  import opened Options
  import opened ImageClean
  import opened ImageSize

  /** The number the bytes write, low byte first or high byte first. */
  function Number(bytes: Buffer, lowFirst: bool): nat {
    if bytes == [] then 0
    else if lowFirst then bytes[0] as int + 256 * Number(bytes[1..], lowFirst)
    else Number(bytes[..|bytes|-1], lowFirst) * 256 + bytes[|bytes|-1] as int
  }

  /** Their letters; the top bit of each byte is ignored. */
  function Ascii(bytes: Buffer): (text: string)
    ensures |text| == |bytes|
  {
    if bytes == [] then [] else [(bytes[0] % 128) as char] + Ascii(bytes[1..])
  }

  lemma Two(s: Buffer, lowFirst: bool)
    requires |s| == 2
    ensures Number(s, lowFirst) == if lowFirst then s[0] as int + 256 * s[1] as int
                                   else s[0] as int * 256 + s[1] as int
  {
    var rest := if lowFirst then s[1..] else s[..1];
    assert rest[1..] == [] && rest[..0] == [] && rest[..|rest|-1] == [];
    assert Number(rest, lowFirst) == rest[0] as int;
  }

  lemma {:induction false} LowJoin(a: Buffer, b: Buffer)
    requires |a| == 2
    ensures Number(a + b, true) == Number(a, true) + 0x1_0000 * Number(b, true)
  {
    Two(a, true);
    assert (a + b)[1..] == a[1..] + b && (a[1..] + b)[1..] == b;
  }

  lemma HighJoin(a: Buffer, b: Buffer)
    requires |b| == 2
    ensures Number(a + b, false) == Number(a, false) * 0x1_0000 + Number(b, false)
  {
    Two(b, false);
    var s := a + b;
    assert s[..|s|-1] == a + b[..1] && (a + b[..1])[..|a|] == a;
  }

  lemma WordsAreNumbers(s: Buffer, k: nat)
    ensures k + 2 <= |s| ==> Le16(s, k) == Number(s[k..k+2], true) && Be16(s, k) == Number(s[k..k+2], false)
    ensures k + 4 <= |s| ==> Le32(s, k) == Number(s[k..k+4], true) && Be32(s, k) == Number(s[k..k+4], false)
  {
    if k + 2 <= |s| {
      Two(s[k..k+2], true);
      Two(s[k..k+2], false);
    }
    if k + 4 <= |s| {
      Two(s[k+2..k+4], true);
      Two(s[k+2..k+4], false);
      assert s[k..k+4] == s[k..k+2] + s[k+2..k+4];
      LowJoin(s[k..k+2], s[k+2..k+4]);
      HighJoin(s[k..k+2], s[k+2..k+4]);
    }
  }

  lemma {:induction false} AsciiAt(s: Buffer, i: nat)
    requires i < |s|
    ensures Ascii(s)[i] as int == s[i] % 128
  {
    if i > 0 { AsciiAt(s[1..], i - 1); }
  }

  lemma SpellsIsAscii(s: Buffer, k: nat, text: string)
    requires k + |text| <= |s|
    ensures Spells(s, k, text) <==> Ascii(s[k..k+|text|]) == text
  {
    var bytes := s[k..k+|text|];
    forall i | 0 <= i < |text| ensures Ascii(bytes)[i] as int == s[k+i] % 128 { AsciiAt(bytes, i); }
  }

  // ---------------------------------------------------------------- orientation

  /** The twelve bytes of entry `e` of the directory at `ifd` are there and carry the orientation tag. */
  predicate IsOrientation(t: Buffer, lowFirst: bool, ifd: nat, e: nat) {
    var at := ifd + 2 + 12 * e;
    at + 12 <= |t| && Number(t[at..at+2], lowFirst) == 0x0112
  }

  /** Entry `e` is the first of the directory's entries that does. */
  ghost predicate IsFirstOrientation(t: Buffer, lowFirst: bool, ifd: nat, e: nat) {
    && ifd + 2 <= |t| && e < Number(t[ifd..ifd+2], lowFirst)
    && IsOrientation(t, lowFirst, ifd, e)
    && forall d: nat | d < e :: !IsOrientation(t, lowFirst, ifd, d)
  }

  lemma EntryStep(t: Buffer, lowFirst: bool, ifd: nat, e: nat, n: nat)
    requires e <= n
    ensures var at := ifd + 2 + 12 * e;
            ExifEntry(t, lowFirst, ifd, e, n) ==
            if e == n || at + 12 > |t| then 1
            else if IsOrientation(t, lowFirst, ifd, e) then
              var v := Number(t[at+8..at+10], lowFirst);
              if v == 0 then 1 else v
            else ExifEntry(t, lowFirst, ifd, e + 1, n)
  {
    hide Number, Le16, Be16, Le32, Be32;
    var at := ifd + 2 + e * 12;
    WordsAreNumbers(t, at);
    WordsAreNumbers(t, at + 8);
  }

  lemma {:induction false} EntryFound(t: Buffer, lowFirst: bool, ifd: nat, e: nat, n: nat, f: nat)
    requires e <= f < n && IsOrientation(t, lowFirst, ifd, f)
    requires forall d: nat | e <= d < f :: !IsOrientation(t, lowFirst, ifd, d)
    ensures var at := ifd + 2 + 12 * f;
            var v := Number(t[at+8..at+10], lowFirst);
            ExifEntry(t, lowFirst, ifd, e, n) == if v == 0 then 1 else v
    decreases f - e
  {
    hide Number, Le16, Be16, Le32, Be32;
    EntryStep(t, lowFirst, ifd, e, n);
    if e < f { EntryFound(t, lowFirst, ifd, e + 1, n, f); }
  }

  lemma {:induction false} NoEntryFound(t: Buffer, lowFirst: bool, ifd: nat, e: nat, n: nat)
    requires e <= n && forall d: nat | e <= d < n :: !IsOrientation(t, lowFirst, ifd, d)
    ensures ExifEntry(t, lowFirst, ifd, e, n) == 1
    decreases n - e
  {
    hide Number, Le16, Be16, Le32, Be32;
    EntryStep(t, lowFirst, ifd, e, n);
    if e < n { NoEntryFound(t, lowFirst, ifd, e + 1, n); }
  }

  /** What the block says.  A block that starts with the letters II writes every number low byte
      first, any other high byte first; the directory's place stands at byte four. */
  ghost predicate Says(t: Buffer, v: nat) {
    if |t| < 8 then v == 1
    else
      var lowFirst := Ascii(t[..2]) == "II";
      var ifd := Number(t[4..8], lowFirst);
      && (forall e: nat | IsFirstOrientation(t, lowFirst, ifd, e) ::
            var at := ifd + 2 + 12 * e;
            var n := Number(t[at+8..at+10], lowFirst);
            v == if n == 0 then 1 else n)
      && ((forall e: nat :: !IsFirstOrientation(t, lowFirst, ifd, e)) ==> v == 1)
  }

  /** The reader finds exactly what the block says. */
  lemma ReadsWhatItSays(t: Buffer)
    ensures Says(t, ExifOrientation(t))
  {
    hide Number, Ascii, Spells, Be16, Be32, Le16, Le32, ExifEntry;
    if |t| >= 8 {
      var lowFirst := Ascii(t[..2]) == "II";
      assert t[..2] == t[0..2];
      SpellsIsAscii(t, 0, "II");
      WordsAreNumbers(t, 4);
      var ifd := Number(t[4..8], lowFirst);
      WordsAreNumbers(t, ifd);
      if ifd + 2 <= |t| {
        var n := Number(t[ifd..ifd+2], lowFirst);
        forall e: nat | IsFirstOrientation(t, lowFirst, ifd, e)
          ensures var at := ifd + 2 + 12 * e;
                  var v := Number(t[at+8..at+10], lowFirst);
                  ExifOrientation(t) == if v == 0 then 1 else v
        {
          EntryFound(t, lowFirst, ifd, 0, n, e);
        }
        if forall e: nat :: !IsFirstOrientation(t, lowFirst, ifd, e) {
          NoneFirst(t, lowFirst, ifd, n);
          NoEntryFound(t, lowFirst, ifd, 0, n);
        }
      }
    }
  }

  lemma {:induction false} NoneFirst(t: Buffer, lowFirst: bool, ifd: nat, n: nat)
    requires ifd + 2 <= |t| && n <= Number(t[ifd..ifd+2], lowFirst)
    requires forall e: nat :: !IsFirstOrientation(t, lowFirst, ifd, e)
    ensures forall e: nat | e < n :: !IsOrientation(t, lowFirst, ifd, e)
  {
    if n > 0 {
      NoneFirst(t, lowFirst, ifd, n - 1);
      assert !IsFirstOrientation(t, lowFirst, ifd, n - 1);
    }
  }

  /** A block with nothing but an orientation, written with either byte first. */
  function Block(lowFirst: bool, v: nat): Buffer
    requires v < 0x1_0000
  {
    if lowFirst then
      [0x49, 0x49, 0x2A, 0, 8, 0, 0, 0, 1, 0, 0x12, 0x01, 3, 0, 1, 0, 0, 0, v % 256, v / 256, 0, 0]
    else
      [0x4D, 0x4D, 0, 0x2A, 0, 0, 0, 8, 0, 1, 0x01, 0x12, 0, 3, 0, 0, 0, 1, v / 256, v % 256, 0, 0]
  }

  lemma WrittenIsRead(lowFirst: bool, v: nat, rest: Buffer)
    requires v < 0x1_0000
    ensures ExifOrientation(Block(lowFirst, v) + rest) == if v == 0 then 1 else v
  {
    var block := Block(lowFirst, v);
    var t := block + rest;
    assert forall i | 0 <= i < 22 :: t[i] == block[i];
    assert Spells(t, 0, "II") == lowFirst by {
      assert lowFirst ==> t[0] % 128 == "II"[0] as int && t[1] % 128 == "II"[1] as int;
      assert !lowFirst ==> t[0] % 128 != "II"[0] as int;
    }
    assert (if lowFirst then Le32(t, 4) else Be32(t, 4)) == 8;
    assert (if lowFirst then Le16(t, 8) else Be16(t, 8)) == 1;
    assert (if lowFirst then Le16(t, 10) else Be16(t, 10)) == 0x0112;
    assert (if lowFirst then Le16(t, 18) else Be16(t, 18)) == v;
  }

  // ---------------------------------------------------------------- parts

  /** A part that carries its own length, and whether it is metadata: the application segments but
      the first kind, and comments; the five kinds of text, time and EXIF chunk; EXIF and XMP. */
  predicate IsWhole(f: Format, p: Part) {
    match f
    case Jpeg =>
      && |p.bytes| >= 4 && p.bytes[0] == 0xFF && p.bytes[1] != 0xDA && p.bytes[1] != 0xD9
      && Number(p.bytes[2..4], false) == |p.bytes| - 2
      && (p.drop <==> 0xE1 <= p.bytes[1] <= 0xEF || p.bytes[1] == 0xFE)
    case Png =>
      && |p.bytes| >= 12 && Number(p.bytes[..4], false) == |p.bytes| - 12
      && (p.drop <==> Ascii(p.bytes[4..8]) in ["eXIf", "tEXt", "zTXt", "iTXt", "tIME"])
    case Webp =>
      && |p.bytes| >= 8
      && |p.bytes| == 8 + Number(p.bytes[4..8], true) + Number(p.bytes[4..8], true) % 2
      && (p.drop <==> Ascii(p.bytes[..4]) in ["EXIF", "XMP "])
  }

  /** Image data, to the end of a JPEG. */
  predicate IsImageData(f: Format, p: Part) {
    f.Jpeg? && |p.bytes| >= 4 && p.bytes[0] == 0xFF && (p.bytes[1] == 0xDA || p.bytes[1] == 0xD9) && !p.drop
  }

  predicate IsEnd(f: Format, p: Part) {
    f.Png? && |p.bytes| >= 8 && Ascii(p.bytes[4..8]) == "IEND"
  }

  /** Well-formed parts up to image data, an end chunk, or too few bytes for another part. */
  predicate IsCut(f: Format, parts: seq<Part>, left: Buffer) {
    if parts == [] then |left| < if f.Jpeg? then 4 else 8
    else if IsImageData(f, parts[0]) then |parts| == 1 && left == []
    else IsWhole(f, parts[0]) && if IsEnd(f, parts[0]) then |parts| == 1 else IsCut(f, parts[1..], left)
  }

  /** The reader's verdict on the front of the bytes, by what is written there. */
  lemma HeadIsWhole(f: Format, s: Buffer)
    requires HeadOf(f, s).Piece?
    ensures var h := HeadOf(f, s);
            var p := Part(s[..h.size], h.drop);
            IsWhole(f, p) && !IsImageData(f, p) && (h.last <==> IsEnd(f, p))
  {
    hide Number, Ascii, Spells, Be16, Be32, Le16, Le32;
    var h := HeadOf(f, s);
    var bytes := s[..h.size];
    match f
    case Jpeg =>
      WordsAreNumbers(s, 2);
      assert bytes[2..4] == s[2..4];
    case Png =>
      WordsAreNumbers(s, 0);
      assert bytes[..4] == s[0..4] && bytes[4..8] == s[4..8];
      SpellsMetadata(s);
    case Webp =>
      WordsAreNumbers(s, 4);
      assert bytes[4..8] == s[4..8] && bytes[..4] == s[0..4];
      SpellsIsAscii(s, 0, "EXIF");
      SpellsIsAscii(s, 0, "XMP ");
  }

  lemma SpellsMetadata(s: Buffer)
    requires |s| >= 8
    ensures PngMetadata(s, 4) <==> Ascii(s[4..8]) in ["eXIf", "tEXt", "zTXt", "iTXt", "tIME"]
    ensures Spells(s, 4, "IEND") <==> Ascii(s[4..8]) == "IEND"
  {
    SpellsIsAscii(s, 4, "eXIf");
    SpellsIsAscii(s, 4, "tEXt");
    SpellsIsAscii(s, 4, "zTXt");
    SpellsIsAscii(s, 4, "iTXt");
    SpellsIsAscii(s, 4, "tIME");
    SpellsIsAscii(s, 4, "IEND");
  }

  lemma WholeIsHead(f: Format, p: Part)
    requires IsWhole(f, p)
    ensures HeadOf(f, p.bytes) == Piece(|p.bytes|, p.drop, IsEnd(f, p))
  {
    hide Number, Ascii, Spells, Be16, Be32, Le16, Le32;
    var s := p.bytes;
    match f
    case Jpeg => WordsAreNumbers(s, 2);
    case Png =>
      WordsAreNumbers(s, 0);
      assert s[..4] == s[0..4];
      SpellsMetadata(s);
    case Webp =>
      WordsAreNumbers(s, 4);
      assert s[..4] == s[0..4];
      SpellsIsAscii(s, 0, "EXIF");
      SpellsIsAscii(s, 0, "XMP ");
  }

  /** What the parser cuts is well-formed ... */
  lemma {:induction false} ParsedIsCut(f: Format, s: Buffer)
    requires Parse(f, s).Some?
    ensures IsCut(f, Parse(f, s).value, Leftover(f, s))
    decreases |s|
  {
    hide JpegHead, PngHead, WebpHead, IsWhole;
    var parts := Parse(f, s).value;
    var h := HeadOf(f, s);
    if h.Short? {
      ShortOrTail(f, s);
    } else if h.Tail? {
      ShortOrTail(f, s);
    } else {
      HeadIsWhole(f, s);
      assert parts[0] == Part(s[..h.size], h.drop);
      if !h.last {
        ParsedIsCut(f, s[h.size..]);
        assert parts[1..] == Parse(f, s[h.size..]).value;
      }
    }
  }

  lemma ShortOrTail(f: Format, s: Buffer)
    ensures HeadOf(f, s).Short? <==> |s| < if f.Jpeg? then 4 else 8
    ensures HeadOf(f, s).Tail? <==> IsImageData(f, Part(s, false))
  {
  }

  /** ... and everything well-formed is cut as it was put together. */
  lemma {:induction false} CutIsParsed(f: Format, parts: seq<Part>, left: Buffer)
    requires IsCut(f, parts, left)
    ensures Parse(f, Print(parts) + left) == Some(parts) && Leftover(f, Print(parts) + left) == left
    decreases |parts|
  {
    hide JpegHead, PngHead, WebpHead, IsWhole, HeadOf;
    var s := Print(parts) + left;
    ShortOrTail(f, s);
    if parts == [] {
      assert s == left;
    } else if IsImageData(f, parts[0]) {
      PrintOne(parts[0]);
      assert parts == [parts[0]] && s == parts[0].bytes;
    } else {
      var p, rest := parts[0], Print(parts[1..]) + left;
      var n := |p.bytes|;
      assert s == p.bytes + rest;
      WholeIsHead(f, p);
      assert p.bytes[..n] == p.bytes == s[..n] && s[n..] == rest;
      HeadIsLocal(f, p.bytes, s);
      if IsEnd(f, p) {
        assert parts == [p] && Print(parts[1..]) == [] && rest == left;
      } else {
        CutIsParsed(f, parts[1..], left);
        assert parts == [p] + parts[1..];
      }
    }
  }

  lemma {:induction false} PrintJoin(a: seq<Part>, b: seq<Part>)
    ensures Print(a + b) == Print(a) + Print(b)
  {
    hide Print;
    PrintStep(a);
    PrintStep(a + b);
    if a == [] {
      assert a + b == b;
      assert Print(a) + Print(b) == Print(b);
    } else {
      PrintJoin(a[1..], b);
      assert (a + b)[1..] == a[1..] + b;
    }
  }

  lemma PrintStep(parts: seq<Part>)
    ensures Print(parts) == if parts == [] then [] else parts[0].bytes + Print(parts[1..])
  {
  }

  lemma KeptStep(parts: seq<Part>)
    ensures Kept(parts) ==
            if parts == [] then []
            else (if parts[0].drop then [] else [parts[0]]) + Kept(parts[1..])
  {
    if parts != [] { assert [] + Kept(parts[1..]) == Kept(parts[1..]); }
  }

  /** Keeping takes the parts one by one, in order: with `KeptOne` this is all there is to it. */
  lemma {:induction false} KeptJoin(a: seq<Part>, b: seq<Part>)
    ensures Kept(a + b) == Kept(a) + Kept(b)
  {
    hide Kept;
    KeptStep(a);
    if a == [] {
      assert a + b == b && Kept(a) + Kept(b) == Kept(b);
    } else {
      KeptStep(a + b);
      KeptJoin(a[1..], b);
      assert (a + b)[1..] == a[1..] + b;
      var first := if a[0].drop then [] else [a[0]];
      SeqJoin(first, Kept(a[1..]), Kept(b));
    }
  }

  lemma SeqJoin<T>(a: seq<T>, b: seq<T>, c: seq<T>)
    ensures a + (b + c) == a + b + c
  {
  }

  /** What cleaning gives for every file put together from a header and parts: the header, for WebP
      with the new size, and the parts kept. */
  lemma CleansWhatIsWritten(f: Format, header: Buffer, parts: seq<Part>, left: Buffer)
    requires |header| == (match f case Jpeg => 2 case Png => 8 case Webp => 12) && IsCut(f, parts, left)
    requires f.Jpeg? ==> header == [0xFF, 0xD8] && Orientation(header + (Print(parts) + left)) == 1
    ensures var body := Print(Kept(parts));
            Cleaned(f, header + (Print(parts) + left)) ==
            if |body| <= (if f.Jpeg? then 2 else 0) || (f.Webp? && |body| + 4 >= 0x1_0000_0000)
            then header + (Print(parts) + left)
            else if f.Webp? then [0x52, 0x49, 0x46, 0x46] + Le32Bytes(|body| + 4) + [0x57, 0x45, 0x42, 0x50] + body
            else header + body
  {
    hide IsCut, Orientation, Kept, Print, Rebuilt, Parse, Number;
    var s := Print(parts) + left;
    CutIsParsed(f, parts, left);
    RebuiltIs(f, header, s, Print(Kept(parts)));
  }

  lemma RebuiltIs(f: Format, header: Buffer, s: Buffer, body: Buffer)
    requires |header| == HeaderSize(f)
    requires f.Jpeg? ==> header == [0xFF, 0xD8]
    ensures Drop(header + s, HeaderSize(f)) == s
    ensures Rebuilt(f, header + s, body) ==
            if |body| <= (if f.Jpeg? then 2 else 0) || (f.Webp? && |body| + 4 >= 0x1_0000_0000) then header + s
            else if f.Webp? then [0x52, 0x49, 0x46, 0x46] + Le32Bytes(|body| + 4) + [0x57, 0x45, 0x42, 0x50] + body
            else header + body
  {
    hide Le32Bytes;
    assert (header + s)[..|header|] == header && (header + s)[|header|..] == s;
    assert Take(header + s, |header|) == header;
  }

  /** A file whose bytes after the header are not put together so is left alone. */
  lemma UncutIsUntouched(f: Format, b: Buffer)
    requires forall parts, left :: Drop(b, HeaderSize(f)) == Print(parts) + left ==> !IsCut(f, parts, left)
    ensures Cleaned(f, b) == b
  {
    hide IsCut, Parse, Print, Leftover, Kept, Orientation;
    var s := Drop(b, HeaderSize(f));
    if Parse(f, s).Some? {
      ParsedIsCut(f, s);
      ParseIsLossless(f, s);
      assert false;
    }
  }

  // ---------------------------------------------------------------- the EXIF segment

  /** A segment of a JPEG that is not EXIF, and if of that kind long enough to tell. */
  predicate IsOther(p: Part) {
    && IsWhole(Jpeg, p)
    && (p.bytes[1] == 0xE1 ==> |p.bytes| >= 10 && Ascii(p.bytes[4..10]) != "Exif\0\0")
  }

  lemma OtherIsSkipped(p: Part, s: Buffer)
    requires IsOther(p)
    ensures OrientationFrom(p.bytes + s) == OrientationFrom(s)
  {
    hide Number, Ascii, ExifOrientation, Be16;
    var t := p.bytes + s;
    WholeIsHead(Jpeg, p);
    assert t[..|p.bytes|] == p.bytes && t[|p.bytes|..] == s;
    HeadIsLocal(Jpeg, p.bytes, t);
    if p.bytes[1] == 0xE1 {
      SpellsIsAscii(t, 4, "Exif\0\0");
      assert t[4..10] == p.bytes[4..10];
    }
  }

  lemma {:induction false} OthersAreSkipped(parts: seq<Part>, s: Buffer)
    requires forall p | p in parts :: IsOther(p)
    ensures OrientationFrom(Print(parts) + s) == OrientationFrom(s)
  {
    hide OrientationFrom, IsOther;
    if parts == [] {
      assert Print(parts) + s == s;
    } else {
      assert Print(parts) + s == parts[0].bytes + (Print(parts[1..]) + s);
      OtherIsSkipped(parts[0], Print(parts[1..]) + s);
      OthersAreSkipped(parts[1..], s);
    }
  }

  /** The EXIF segment of a JPEG around a block. */
  function ExifSegment(block: Buffer): Buffer
    requires |block| + 8 < 0x1_0000
  {
    [0xFF, 0xE1, (|block| + 8) / 256, (|block| + 8) % 256, 0x45, 0x78, 0x69, 0x66, 0, 0] + block
  }

  lemma SegmentIsRead(block: Buffer, rest: Buffer)
    requires |block| + 8 < 0x1_0000
    ensures OrientationFrom(ExifSegment(block) + rest) == ExifOrientation(block + rest)
  {
    hide ExifOrientation;
    var s := ExifSegment(block) + rest;
    assert forall i | 0 <= i < 10 :: s[i] == ExifSegment(block)[i];
    assert Be16(s, 2) == |block| + 8;
    var text := "Exif\0\0";
    assert text[0] as int == 0x45 && text[1] as int == 0x78 && text[2] as int == 0x69 && text[3] as int == 0x66;
    assert text[4] as int == 0 && text[5] as int == 0;
    assert Spells(s, 4, text);
    assert s[10..] == block + rest;
  }

  /** The orientation of a JPEG is that of its first EXIF block, whatever segments stand before it
      and whatever comes after. */
  lemma FirstBlockIsRead(before: seq<Part>, block: Buffer, rest: Buffer)
    requires |block| + 8 < 0x1_0000 && forall p | p in before :: IsOther(p)
    ensures Orientation([0xFF, 0xD8] + (Print(before) + (ExifSegment(block) + rest))) == ExifOrientation(block + rest)
  {
    hide OrientationFrom, ExifOrientation, Print;
    var s := Print(before) + (ExifSegment(block) + rest);
    assert Drop([0xFF, 0xD8] + s, 2) == s;
    OthersAreSkipped(before, ExifSegment(block) + rest);
    SegmentIsRead(block, rest);
  }

  /** A photo taken on its side, whichever byte order its camera writes, keeps every byte. */
  lemma RotatedIsUntouched(before: seq<Part>, lowFirst: bool, v: nat, rest: Buffer)
    requires 2 <= v < 0x1_0000 && forall p | p in before :: IsOther(p)
    ensures var b := [0xFF, 0xD8] + (Print(before) + (ExifSegment(Block(lowFirst, v)) + rest));
            Orientation(b) == v && Cleaned(Jpeg, b) == b
  {
    hide Orientation, ExifOrientation, Print, Block, ExifSegment, IsOther;
    BlockSize(lowFirst, v);
    FirstBlockIsRead(before, Block(lowFirst, v), rest);
    WrittenIsRead(lowFirst, v, rest);
  }

  lemma BlockSize(lowFirst: bool, v: nat)
    requires v < 0x1_0000
    ensures |Block(lowFirst, v)| == 22
  {
  }

  // ---------------------------------------------------------------- dimensions

  /** A frame header: the kinds of segment that carry the dimensions. */
  predicate IsFrame(p: Part) {
    && IsWhole(Jpeg, p) && |p.bytes| >= 10
    && p.bytes[1] as int in {0xC0, 0xC1, 0xC2, 0xC3, 0xC5, 0xC6, 0xC7, 0xC9, 0xCA, 0xCB, 0xCD, 0xCE, 0xCF}
  }

  /** Any other segment whose marker does not stand alone. */
  predicate IsNoFrame(p: Part) {
    && IsWhole(Jpeg, p)
    && p.bytes[1] as int !in {0xC0, 0xC1, 0xC2, 0xC3, 0xC5, 0xC6, 0xC7, 0xC9, 0xCA, 0xCB, 0xCD, 0xCE, 0xCF}
    && p.bytes[1] as int !in {0xFF, 0x01, 0xD0, 0xD1, 0xD2, 0xD3, 0xD4, 0xD5, 0xD6, 0xD7, 0xD8}
  }

  lemma WholeIsSegment(p: Part)
    requires IsWhole(Jpeg, p)
    ensures Segment(p)
  {
    hide Number;
    WordsAreNumbers(p.bytes, 2);
  }

  lemma {:induction false} FramedIsReadable(before: seq<Part>, frame: Part)
    requires IsFrame(frame) && forall p | p in before :: IsNoFrame(p)
    ensures Readable(before + [frame])
    ensures FrameSize(before + [frame]) == Size(Number(frame.bytes[7..9], false), Number(frame.bytes[5..7], false))
  {
    hide Number;
    if before == [] {
      assert before + [frame] == [frame];
      WholeIsSegment(frame);
      WordsAreNumbers(frame.bytes, 5);
      WordsAreNumbers(frame.bytes, 7);
    } else {
      assert before[0] in before && IsNoFrame(before[0]);
      WholeIsSegment(before[0]);
      FramedIsReadable(before[1..], frame);
      assert (before + [frame])[1..] == before[1..] + [frame];
    }
  }

  /** Before a marker the reader passes over stray bytes, fill bytes and markers that stand alone. */
  lemma FillIsPassed(x: Byte, s: Buffer)
    requires x == 0xFF ==> s != [] && s[0] == 0xFF
    ensures JpegScan([x] + s) == JpegScan(s)
  {
    var t := [x] + s;
    assert t[1..] == s;
    if |s| == 9 { assert t[0] == x && t[1] == s[0]; }
  }

  lemma StandaloneIsPassed(m: Byte, s: Buffer)
    requires m as int in {0x01, 0xD0, 0xD1, 0xD2, 0xD3, 0xD4, 0xD5, 0xD6, 0xD7, 0xD8}
    ensures JpegScan([0xFF, m] + s) == JpegScan(s)
  {
    assert ([0xFF, m] + s)[2..] == s;
  }

  /** The dimensions of a JPEG are those its first frame header writes, the height before the width. */
  lemma FrameIsRead(before: seq<Part>, frame: Part, rest: Buffer)
    requires IsFrame(frame) && forall p | p in before :: IsNoFrame(p)
    ensures JpegSize([0xFF, 0xD8] + (Print(before + [frame]) + rest))
            == Some(Size(Number(frame.bytes[7..9], false), Number(frame.bytes[5..7], false)))
  {
    hide Number, Print, IsFrame, IsNoFrame, JpegScan, Readable;
    var s := Print(before + [frame]) + rest;
    assert ([0xFF, 0xD8] + s)[2..] == s;
    FramedIsReadable(before, frame);
    ScanFindsFrame(before + [frame], rest);
  }

  /** A PNG's dimensions are the two numbers after its header chunk's name, the width first. */
  lemma PngSizeIsWritten(b: Buffer)
    ensures PngSize(b) ==
            if |b| >= 24 && Ascii(b[1..4]) == "PNG" && Ascii(b[12..16]) == "IHDR"
            then Some(Size(Number(b[16..20], false), Number(b[20..24], false))) else None
  {
    hide Number, Ascii, Spells, Be32;
    if |b| >= 24 {
      SpellsIsAscii(b, 1, "PNG");
      SpellsIsAscii(b, 12, "IHDR");
      WordsAreNumbers(b, 16);
      WordsAreNumbers(b, 20);
    }
  }

  predicate IsWebp(b: Buffer, kind: string) {
    |b| >= 16 && Ascii(b[..4]) == "RIFF" && Ascii(b[8..12]) == "WEBP" && Ascii(b[12..16]) == kind
  }

  lemma WebpSpells(b: Buffer, kind: string)
    requires IsWebp(b, kind) && |kind| == 4
    ensures Spells(b, 0, "RIFF") && Spells(b, 8, "WEBP")
    ensures forall other: string | |other| == 4 :: Spells(b, 12, other) <==> other == kind
  {
    hide Ascii, Spells;
    assert b[0..4] == b[..4];
    SpellsIsAscii(b, 0, "RIFF");
    SpellsIsAscii(b, 8, "WEBP");
    forall other: string | |other| == 4 ensures Spells(b, 12, other) <==> other == kind {
      SpellsIsAscii(b, 12, other);
    }
  }

  /** A lossy WebP writes two numbers of fourteen bits, each below two bits of scale. */
  lemma LossySizeIsRead(b: Buffer, width: nat, height: nat, scale: nat, scale': nat)
    requires IsWebp(b, "VP8 ") && |b| >= 30 && width < 0x4000 && height < 0x4000
    requires Number(b[26..28], true) == width + 0x4000 * scale && Number(b[28..30], true) == height + 0x4000 * scale'
    ensures WebpSize(b) == Some(Size(width, height))
  {
    hide Number, Ascii, Spells, Le16;
    WebpSpells(b, "VP8 ");
    WordsAreNumbers(b, 26);
    WordsAreNumbers(b, 28);
  }

  /** A lossless one packs both less one, fourteen bits each, below four bits of flags. */
  lemma LosslessSizeIsRead(b: Buffer, width: nat, height: nat, flags: nat)
    requires IsWebp(b, "VP8L") && |b| >= 25 && 1 <= width <= 0x4000 && 1 <= height <= 0x4000
    requires Number(b[21..25], true) == (width - 1) + 0x4000 * (height - 1) + 0x1000_0000 * flags
    ensures WebpSize(b) == Some(Size(width, height))
  {
    hide Number, Ascii, Spells, Le32;
    WebpSpells(b, "VP8L");
    WordsAreNumbers(b, 21);
    var n := Le32(b, 21);
    assert n == (width - 1) + 0x4000 * ((height - 1) + 0x4000 * flags);
    assert n / 0x4000 == (height - 1) + 0x4000 * flags;
  }

  /** An extended one writes both less one in three bytes each. */
  lemma ExtendedSizeIsRead(b: Buffer, width: nat, height: nat)
    requires IsWebp(b, "VP8X") && |b| >= 30
    requires Number(b[24..27], true) + 1 == width && Number(b[27..30], true) + 1 == height
    ensures WebpSize(b) == Some(Size(width, height))
  {
    hide Ascii, Spells, Number;
    WebpSpells(b, "VP8X");
    Three(b[24..27]);
    Three(b[27..30]);
  }

  lemma Three(s: Buffer)
    requires |s| == 3
    ensures Number(s, true) == s[0] as int + 256 * s[1] as int + 0x1_0000 * s[2] as int
  {
    Two(s[1..], true);
  }
}
