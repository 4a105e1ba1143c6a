/** Removing metadata from uploaded JPEG, PNG and WebP files.  All three formats are a header
    followed by a chain of length-carrying parts, so they share one reading: cut the buffer
    into parts, drop the metadata ones, print the rest.  The three loops of the source are
    proved to compute exactly that. */
module ImageClean {
  import opened Options

  type Byte = x: int | 0 <= x < 256

  type Buffer = seq<Byte>

  datatype Format = Jpeg | Png | Webp

  // ---------------------------------------------------------------- reading bytes

  function Be16(s: Buffer, k: nat): nat
    requires k + 2 <= |s|
  {
    s[k] as int * 256 + s[k+1]
  }

  function Le16(s: Buffer, k: nat): nat
    requires k + 2 <= |s|
  {
    s[k] as int + s[k+1] as int * 256
  }

  function Be32(s: Buffer, k: nat): nat
    requires k + 4 <= |s|
  {
    Be16(s, k) * 0x1_0000 + Be16(s, k + 2)
  }

  function Le32(s: Buffer, k: nat): nat
    requires k + 4 <= |s|
  {
    Le16(s, k) + Le16(s, k + 2) * 0x1_0000
  }

  /** `buf.toString('ascii', k, k + |text|) === text`; that decoding ignores each byte's top bit. */
  predicate Spells(s: Buffer, k: nat, text: string) {
    k + |text| <= |s| && forall i | 0 <= i < |text| :: s[k+i] % 128 == text[i] as int
  }

  function Take(s: Buffer, n: nat): Buffer { if |s| <= n then s else s[..n] }

  function Drop(s: Buffer, n: nat): Buffer { if |s| <= n then [] else s[n..] }

  // ---------------------------------------------------------------- parts

  /** What stands at the front of the unread bytes: too little to be a part, something no part
      looks like, image data to the end of the file, or one part. */
  datatype Head = Short | Malformed | Tail | Piece(size: nat, drop: bool, last: bool)

  const SOS := 0xDA
  const EOI := 0xD9
  const APP1 := 0xE1

  predicate DroppedMarker(marker: Byte) {
    (0xE0 < marker <= 0xEF) || marker == 0xFE
  }

  function JpegHead(s: Buffer): Head {
    if |s| < 4 then Short
    else if s[0] != 0xFF then Malformed
    else if s[1] == SOS || s[1] == EOI then Tail
    else if Be16(s, 2) < 2 || 2 + Be16(s, 2) > |s| then Malformed
    else Piece(2 + Be16(s, 2), DroppedMarker(s[1]), false)
  }

  /** The chunk type at `k` is one of the five that are dropped. */
  predicate PngMetadata(s: Buffer, k: nat) {
    Spells(s, k, "eXIf") || Spells(s, k, "tEXt") || Spells(s, k, "zTXt") || Spells(s, k, "iTXt") || Spells(s, k, "tIME")
  }

  function PngHead(s: Buffer): Head {
    if |s| < 8 then Short
    else if 12 + Be32(s, 0) > |s| then Malformed
    else Piece(12 + Be32(s, 0), PngMetadata(s, 4), Spells(s, 4, "IEND"))
  }

  function WebpHead(s: Buffer): Head {
    if |s| < 8 then Short
    else if 8 + Le32(s, 4) + Le32(s, 4) % 2 > |s| then Malformed
    else Piece(8 + Le32(s, 4) + Le32(s, 4) % 2, Spells(s, 0, "EXIF") || Spells(s, 0, "XMP "), false)
  }

  function HeadOf(f: Format, s: Buffer): (h: Head)
    ensures h.Piece? ==> 4 <= h.size <= |s|
    ensures h.Tail? ==> s != []
  {
    match f
    case Jpeg => JpegHead(s)
    case Png => PngHead(s)
    case Webp => WebpHead(s)
  }

  /** Whether there is a part at the front, and which, depends on that part's bytes only. */
  lemma HeadIsLocal(f: Format, s: Buffer, t: Buffer)
    requires HeadOf(f, s).Piece? && HeadOf(f, s).size <= |t|
    requires t[..HeadOf(f, s).size] == s[..HeadOf(f, s).size]
    ensures HeadOf(f, t) == HeadOf(f, s)
  {
    var n := HeadOf(f, s).size;
    assert forall i | 0 <= i < n :: t[i] == t[..n][i] && s[i] == s[..n][i];
    match f
    case Jpeg => assert Be16(t, 2) == Be16(s, 2);
    case Png => assert Be32(t, 0) == Be32(s, 0);
    case Webp => assert Le32(t, 4) == Le32(s, 4);
  }

  datatype Part = Part(bytes: Buffer, drop: bool)

  function Parse(f: Format, s: Buffer): Option<seq<Part>>
    decreases |s|
  {
    match HeadOf(f, s)
    case Short => Some([])
    case Malformed => None
    case Tail => Some([Part(s, false)])
    case Piece(size, drop, last) =>
      if last then Some([Part(s[..size], drop)])
      else
        match Parse(f, s[size..])
        case None => None
        case Some(rest) => Some([Part(s[..size], drop)] + rest)
  }

  /** The unread bytes after the last part. */
  function Leftover(f: Format, s: Buffer): Buffer
    decreases |s|
  {
    match HeadOf(f, s)
    case Short => s
    case Malformed => s
    case Tail => []
    case Piece(size, _, last) => if last then s[size..] else Leftover(f, s[size..])
  }

  function Print(parts: seq<Part>): Buffer {
    if parts == [] then [] else parts[0].bytes + Print(parts[1..])
  }

  function Kept(parts: seq<Part>): (kept: seq<Part>)
    ensures forall p | p in kept :: !p.drop && p in parts
  {
    if parts == [] then []
    else if parts[0].drop then Kept(parts[1..])
    else [parts[0]] + Kept(parts[1..])
  }

  function DroppedSize(parts: seq<Part>): nat {
    if parts == [] then 0
    else (if parts[0].drop then |parts[0].bytes| else 0) + DroppedSize(parts[1..])
  }

  lemma PrintOne(p: Part)
    ensures Print([p]) == p.bytes
  {
    assert [p][1..] == [];
    assert p.bytes + [] == p.bytes;
  }

  lemma KeptOne(p: Part)
    ensures Kept([p]) == if p.drop then [] else [p]
  {
    assert [p][1..] == [];
  }

  /** Cutting loses nothing: the parts, then the leftover, are the bytes that were cut. */
  lemma {:induction false} ParseIsLossless(f: Format, s: Buffer)
    requires Parse(f, s).Some?
    ensures s == Print(Parse(f, s).value) + Leftover(f, s)
    decreases |s|
  {
    var parts := Parse(f, s).value;
    match HeadOf(f, s)
    case Short =>
    case Tail => PrintOne(parts[0]); assert s == s + [];
    case Piece(size, drop, last) =>
      assert s == s[..size] + s[size..];
      if last {
        assert parts[1..] == [];
      } else {
        ParseIsLossless(f, s[size..]);
        assert parts[1..] == Parse(f, s[size..]).value;
      }
  }

  /** Parsing what is printed of the kept parts gives the kept parts back. */
  lemma {:induction false} ParsePrintKept(f: Format, s: Buffer)
    requires Parse(f, s).Some?
    ensures Parse(f, Print(Kept(Parse(f, s).value))) == Some(Kept(Parse(f, s).value))
    ensures Leftover(f, Print(Kept(Parse(f, s).value))) == []
    decreases |s|
  {
    var parts := Parse(f, s).value;
    match HeadOf(f, s)
    case Short =>
      assert HeadOf(f, []).Short?;
    case Tail =>
      assert Kept(parts) == parts;
      PrintOne(parts[0]);
    case Piece(size, drop, last) =>
      var bytes := s[..size];
      if last {
        assert parts == [Part(bytes, drop)] && parts[1..] == [];
        KeptOne(parts[0]);
        if drop {
          assert HeadOf(f, []).Short?;
        } else {
          PrintOne(parts[0]);
          HeadIsLocal(f, s, bytes);
          assert bytes[..size] == bytes;
        }
      } else {
        ParsePrintKept(f, s[size..]);
        var rest := Parse(f, s[size..]).value;
        assert parts[1..] == rest;
        if !drop {
          var t := Print(Kept(parts));
          assert Kept(parts)[1..] == Kept(rest);
          assert t == bytes + Print(Kept(rest));
          assert t[..size] == bytes && t[size..] == Print(Kept(rest));
          HeadIsLocal(f, s, t);
        }
      }
  }

  lemma {:induction false} KeptTwice(parts: seq<Part>)
    ensures Kept(Kept(parts)) == Kept(parts)
  {
    if parts != [] {
      KeptTwice(parts[1..]);
      if !parts[0].drop {
        assert Kept(parts)[1..] == Kept(parts[1..]);
      }
    }
  }

  lemma {:induction false} PrintKeptSize(parts: seq<Part>)
    ensures |Print(Kept(parts))| + DroppedSize(parts) == |Print(parts)|
  {
    if parts != [] {
      PrintKeptSize(parts[1..]);
      if !parts[0].drop {
        assert Kept(parts)[1..] == Kept(parts[1..]);
      }
    }
  }

  // ---------------------------------------------------------------- EXIF orientation

  function ExifEntry(t: Buffer, le: bool, ifd: nat, e: nat, n: nat): nat
    requires e <= n
    decreases n - e
  {
    var off := ifd + 2 + e * 12;
    if e == n || off + 12 > |t| then 1
    else if (if le then Le16(t, off) else Be16(t, off)) == 0x0112 then
      var v := if le then Le16(t, off + 8) else Be16(t, off + 8);
      if v == 0 then 1 else v
    else ExifEntry(t, le, ifd, e + 1, n)
  }

  function ExifOrientation(t: Buffer): nat {
    if |t| < 8 then 1
    else
      var le := Spells(t, 0, "II");
      var ifd := if le then Le32(t, 4) else Be32(t, 4);
      if ifd + 2 > |t| then 1
      else ExifEntry(t, le, ifd, 0, if le then Le16(t, ifd) else Be16(t, ifd))
  }

  /** The orientation the file's EXIF block asks for, 1 meaning upright or none. */
  function OrientationFrom(s: Buffer): nat
    decreases |s|
  {
    if !JpegHead(s).Piece? then 1
    else if s[1] == APP1 && Spells(s, 4, "Exif\0\0") then ExifOrientation(s[10..])
    else OrientationFrom(s[JpegHead(s).size..])
  }

  function Orientation(b: Buffer): nat { OrientationFrom(Drop(b, 2)) }

  lemma {:induction false} KeptIsUpright(s: Buffer)
    requires Parse(Jpeg, s).Some?
    ensures OrientationFrom(Print(Kept(Parse(Jpeg, s).value))) == 1
    decreases |s|
  {
    var parts := Parse(Jpeg, s).value;
    match JpegHead(s)
    case Short =>
    case Tail =>
      assert Kept(parts) == parts;
      PrintOne(parts[0]);
    case Piece(size, drop, _) =>
      KeptIsUpright(s[size..]);
      var rest := Parse(Jpeg, s[size..]).value;
      assert parts[1..] == rest;
      if !drop {
        var t := Print(Kept(parts));
        assert Kept(parts)[1..] == Kept(rest);
        assert t == s[..size] + Print(Kept(rest));
        assert t[..size] == s[..size] && t[size..] == Print(Kept(rest));
        HeadIsLocal(Jpeg, s, t);
        assert t[1] == t[..size][1];
      }
  }

  // ---------------------------------------------------------------- cleaning

  function HeaderSize(f: Format): nat {
    match f
    case Jpeg => 2
    case Png => 8
    case Webp => 12
  }

  function Le32Bytes(n: nat): (bytes: Buffer)
    requires n < 0x1_0000_0000
    ensures |bytes| == 4
  {
    [n % 256, n / 256 % 256, n / 256 / 256 % 256, n / 256 / 256 / 256]
  }

  function WebpHeader(body: Buffer): Buffer
    requires |body| + 4 < 0x1_0000_0000
  {
    [0x52, 0x49, 0x46, 0x46] + Le32Bytes(|body| + 4) + [0x57, 0x45, 0x42, 0x50]
  }

  /** The file rebuilt from its header and the printed kept parts, or the file itself where the
      source's last check, or a failing header write, sends the original back. */
  function Rebuilt(f: Format, b: Buffer, body: Buffer): Buffer {
    match f
    case Jpeg =>
      var r := Take(b, 2) + body;
      if |r| > 4 && r[0] == 0xFF && r[1] == 0xD8 then r else b
    case Png =>
      var r := Take(b, 8) + body;
      if |r| > 8 then r else b
    case Webp =>
      if body == [] || |body| + 4 >= 0x1_0000_0000 then b else WebpHeader(body) + body
  }

  predicate Cleanable(f: Format, b: Buffer) {
    && (f.Jpeg? ==> Orientation(b) == 1)
    && (f.Webp? ==> |b| >= 12)
    && Parse(f, Drop(b, HeaderSize(f))).Some?
  }

  function Parts(f: Format, b: Buffer): seq<Part>
    requires Cleanable(f, b)
  {
    Parse(f, Drop(b, HeaderSize(f))).value
  }

  /** Cleaning is print after filter after parse; a file it cannot read is left alone. */
  function Cleaned(f: Format, b: Buffer): Buffer {
    if Cleanable(f, b) then Rebuilt(f, b, Print(Kept(Parts(f, b)))) else b
  }

  lemma Le32RoundTrip(n: nat, s: Buffer, k: nat)
    requires n < 0x1_0000_0000 && k + 4 <= |s| && s[k..k+4] == Le32Bytes(n)
    ensures Le32(s, k) == n
  {
    assert s[k] == s[k..k+4][0] && s[k+1] == s[k..k+4][1] && s[k+2] == s[k..k+4][2] && s[k+3] == s[k..k+4][3];
  }

  /** What a cleaned file that differs from its original looks like. */
  lemma CleanedShape(f: Format, b: Buffer)
    requires Cleaned(f, b) != b
    ensures Cleanable(f, b) && |Cleaned(f, b)| >= HeaderSize(f)
    ensures Drop(Cleaned(f, b), HeaderSize(f)) == Print(Kept(Parts(f, b)))
    ensures !f.Webp? ==> Cleaned(f, b)[..HeaderSize(f)] == b[..HeaderSize(f)]
  {
    assert Parse(f, []) == Some([]) && Kept([]) == [] && Print([]) == [];
  }

  /** Cleaning again changes nothing, for every buffer and format. */
  lemma Idempotent(f: Format, b: Buffer)
    ensures Cleaned(f, Cleaned(f, b)) == Cleaned(f, b)
  {
    var c := Cleaned(f, b);
    if c != b {
      CleanedShape(f, b);
      var s := Drop(b, HeaderSize(f));
      ParsePrintKept(f, s);
      KeptTwice(Parts(f, b));
      if f.Jpeg? { KeptIsUpright(s); }
      assert Cleanable(f, c) && Parts(f, c) == Kept(Parts(f, b));
      assert Take(c, HeaderSize(f)) == c[..HeaderSize(f)];
    }
  }

  /** A file is only ever replaced by its header, the same for JPEG and PNG and with the new size
      for WebP, and its non-metadata parts, byte for byte and in order; no metadata part is left,
      and no trailing bytes. */
  lemma OnlyMetadataGoes(f: Format, b: Buffer)
    requires Cleaned(f, b) != b
    ensures Cleanable(f, b) && Cleanable(f, Cleaned(f, b))
    ensures Drop(b, HeaderSize(f)) == Print(Parts(f, b)) + Leftover(f, Drop(b, HeaderSize(f)))
    ensures Parts(f, Cleaned(f, b)) == Kept(Parts(f, b))
    ensures |Cleaned(f, b)| >= HeaderSize(f)
    ensures Drop(Cleaned(f, b), HeaderSize(f)) == Print(Kept(Parts(f, b)))
    ensures !f.Webp? ==> Cleaned(f, b)[..HeaderSize(f)] == b[..HeaderSize(f)]
    ensures f.Webp? ==> |Print(Kept(Parts(f, b)))| + 4 < 0x1_0000_0000
                        && Cleaned(f, b)[..12] == WebpHeader(Print(Kept(Parts(f, b))))
    ensures forall p | p in Parts(f, Cleaned(f, b)) :: !p.drop
  {
    var s := Drop(b, HeaderSize(f));
    CleanedShape(f, b);
    ParseIsLossless(f, s);
    ParsePrintKept(f, s);
    if f.Jpeg? { KeptIsUpright(s); }
  }

  /** The promise that nothing but metadata is removed holds exactly when no bytes are left over
      after the last part. */
  lemma RemovedExactlyMetadata(f: Format, b: Buffer)
    requires Cleaned(f, b) != b
    ensures Cleanable(f, b)
    ensures |b| - |Cleaned(f, b)| == DroppedSize(Parts(f, b)) + |Leftover(f, Drop(b, HeaderSize(f)))|
    ensures |b| - |Cleaned(f, b)| == DroppedSize(Parts(f, b)) <==> Leftover(f, Drop(b, HeaderSize(f))) == []
  {
    OnlyMetadataGoes(f, b);
    CleanedShape(f, b);
    PrintKeptSize(Parts(f, b));
  }

  /** A JPEG that ends without image data loses its end marker although it holds no metadata. */
  lemma EndMarkerCanBeLost()
    ensures Cleaned(Jpeg, [0xFF, 0xD8, 0xFF, 0xDB, 0, 4, 7, 7, 0xFF, 0xD9]) == [0xFF, 0xD8, 0xFF, 0xDB, 0, 4, 7, 7]
  {
    var b: Buffer := [0xFF, 0xD8, 0xFF, 0xDB, 0, 4, 7, 7, 0xFF, 0xD9];
    var s := b[2..];
    assert HeadOf(Jpeg, s) == Piece(6, false, false);
    assert s[6..] == [0xFF, 0xD9] && HeadOf(Jpeg, s[6..]).Short?;
    var parts := [Part(s[..6], false)];
    assert Parse(Jpeg, s[6..]) == Some([]) && parts + [] == parts;
    assert Parse(Jpeg, s) == Some(parts) && parts[1..] == [];
    PrintOne(parts[0]);
    assert OrientationFrom(s) == OrientationFrom(s[6..]) == 1;
  }

  /** Cleaning never changes which way up a JPEG is shown. */
  lemma KeepsOrientation(b: Buffer)
    ensures Orientation(Cleaned(Jpeg, b)) == Orientation(b)
  {
    if Cleaned(Jpeg, b) != b {
      CleanedShape(Jpeg, b);
      KeptIsUpright(Drop(b, 2));
    }
  }

  /** The size field of a rewritten WebP counts everything after itself. */
  lemma RiffSizeIsRight(b: Buffer)
    requires Cleaned(Webp, b) != b
    ensures |Cleaned(Webp, b)| >= 12 && Le32(Cleaned(Webp, b), 4) == |Cleaned(Webp, b)| - 8
    ensures Spells(Cleaned(Webp, b), 0, "RIFF") && Spells(Cleaned(Webp, b), 8, "WEBP")
  {
    hide Le32, Le32Bytes, Parse, Print, Kept;
    var c := Cleaned(Webp, b);
    var body := Print(Kept(Parts(Webp, b)));
    assert c[4..8] == Le32Bytes(|body| + 4);
    Le32RoundTrip(|body| + 4, c, 4);
  }

  // ---------------------------------------------------------------- the loops

  /** What the loops still have to push when they stand before `s`. */
  function Remaining(f: Format, s: Buffer): Option<Buffer> {
    match Parse(f, s)
    case None => None
    case Some(parts) => Some(Print(Kept(parts)))
  }

  function Pushed(out: Buffer, more: Option<Buffer>): Option<Buffer> {
    if more.None? then None else Some(out + more.value)
  }

  /** One turn of a cleaning loop. */
  lemma RemainingStep(f: Format, s: Buffer)
    ensures var h := HeadOf(f, s);
            && (h.Short? ==> Remaining(f, s) == Some([]))
            && (h.Malformed? ==> Remaining(f, s) == None)
            && (h.Tail? ==> Remaining(f, s) == Some(s))
            && (h.Piece? ==>
                  Remaining(f, s) == Pushed(if h.drop then [] else s[..h.size],
                                            if h.last then Some([]) else Remaining(f, s[h.size..])))
  {
    var h := HeadOf(f, s);
    if h.Tail? {
      PrintOne(Part(s, false));
      KeptOne(Part(s, false));
    } else if h.Piece? && Parse(f, s).Some? {
      var parts := Parse(f, s).value;
      var bytes := s[..h.size];
      if h.last {
        var none: Buffer := [];
        assert bytes + none == bytes && none + none == none;
        KeptOne(Part(bytes, h.drop));
        PrintOne(Part(bytes, h.drop));
      } else {
        var rest := Print(Kept(parts[1..]));
        assert parts[1..] == Parse(f, s[h.size..]).value;
        assert [] + rest == rest;
        if !h.drop {
          assert Kept(parts)[1..] == Kept(parts[1..]);
        }
      }
    }
  }

  lemma PushedNothing(more: Option<Buffer>)
    ensures Pushed([], more) == more
  {
    if more.Some? { assert [] + more.value == more.value; }
  }

  lemma PushedTwice(out: Buffer, x: Buffer, more: Option<Buffer>)
    ensures Pushed(out, Pushed(x, more)) == Pushed(out + x, more)
    ensures Pushed(out, Some(x)) == Some(out + x)
  {
    if more.Some? { assert out + (x + more.value) == out + x + more.value; }
  }

  /** One step of the search for the EXIF block. */
  lemma OrientationStep(s: Buffer)
    ensures OrientationFrom(s) ==
            if |s| < 4 || s[0] != 0xFF || s[1] == SOS || s[1] == EOI then 1
            else if Be16(s, 2) < 2 || 2 + Be16(s, 2) > |s| then 1
            else if s[1] == APP1 && Spells(s, 4, "Exif\0\0") then ExifOrientation(Drop(s, 10))
            else OrientationFrom(Drop(s, 2 + Be16(s, 2)))
  {
    hide ExifOrientation, Be16, Spells;
    if |s| >= 4 {
      if Spells(s, 4, "Exif\0\0") {
        SpelledFits(s, 4, "Exif\0\0");
        DropIs(s, 10);
      }
      DropIs(s, 2 + Be16(s, 2));
    }
  }

  lemma DropIs(s: Buffer, n: nat)
    ensures n <= |s| ==> Drop(s, n) == s[n..]
  {
  }

  lemma DropDrop(b: Buffer, i: nat, n: nat)
    ensures Drop(Drop(b, i), n) == Drop(b, i + n)
  {
  }

  lemma OrientationAt(b: Buffer, i: nat)
    ensures OrientationFrom(Drop(b, i)) ==
            if i + 4 > |b| || b[i] != 0xFF || b[i+1] == SOS || b[i+1] == EOI then 1
            else if Be16(b, i + 2) < 2 || i + 2 + Be16(b, i + 2) > |b| then 1
            else if b[i+1] == APP1 && Spells(b, i + 4, "Exif\0\0") then ExifOrientation(Drop(b, i + 10))
            else OrientationFrom(Drop(b, i + 2 + Be16(b, i + 2)))
  {
    hide ExifOrientation, OrientationFrom;
    var s := Drop(b, i);
    OrientationStep(s);
    if i + 4 <= |b| {
      assert Be16(s, 2) == Be16(b, i + 2);
      assert Spells(s, 4, "Exif\0\0") == Spells(b, i + 4, "Exif\0\0");
      hide Be16, Spells, Drop;
      DropDrop(b, i, 10);
      DropDrop(b, i, 2 + Be16(b, i + 2));
    }
  }

  method ReadOrientation(b: Buffer) returns (r: nat)
    ensures r == Orientation(b)
  {
    hide OrientationFrom, ExifOrientation, Spells, Be16, Drop;
    var i := 2;
    while i + 4 <= |b|
      invariant Orientation(b) == OrientationFrom(Drop(b, i))
      decreases |b| - i
    {
      OrientationAt(b, i);
      if b[i] != 0xFF { return 1; }
      var marker := b[i+1];
      if marker == SOS || marker == EOI { return 1; }
      var len := Be16(b, i + 2);
      if len < 2 || i + 2 + len > |b| { return 1; }
      if marker == APP1 && Spells(b, i + 4, "Exif\0\0") {
        SpelledFits(b, i + 4, "Exif\0\0");
        DropIs(b, i + 10);
        r := ReadExif(b[i+10..]);
        return;
      }
      i := i + 2 + len;
    }
    OrientationAt(b, i);
    return 1;
  }

  lemma SpelledFits(s: Buffer, k: nat, text: string)
    requires Spells(s, k, text)
    ensures k + |text| <= |s|
  {
  }

  method ReadExif(t: Buffer) returns (r: nat)
    ensures r == ExifOrientation(t)
  {
    if 8 > |t| { return 1; }
    var le := Spells(t, 0, "II");
    var ifd := if le then Le32(t, 4) else Be32(t, 4);
    if ifd + 2 > |t| { return 1; }
    var n := if le then Le16(t, ifd) else Be16(t, ifd);
    for e := 0 to n
      invariant ExifOrientation(t) == ExifEntry(t, le, ifd, e, n)
    {
      var off := ifd + 2 + e * 12;
      if off + 12 > |t| { return 1; }
      if (if le then Le16(t, off) else Be16(t, off)) == 0x0112 {
        var v := if le then Le16(t, off + 8) else Be16(t, off + 8);
        return if v == 0 then 1 else v;
      }
    }
    return 1;
  }

  /** `Cleaned`, once the loop has found the whole body. */
  lemma CleanedFromBody(f: Format, b: Buffer)
    ensures var whole := Remaining(f, Drop(b, HeaderSize(f)));
            Cleaned(f, b) ==
            if (f.Jpeg? ==> Orientation(b) == 1) && (f.Webp? ==> |b| >= 12) && whole.Some?
            then Rebuilt(f, b, whole.value) else b
  {
  }

  /** One turn of a cleaning loop, told by the part the loop stands at. */
  lemma Turn(f: Format, b: Buffer, i: nat, out: Buffer)
    ensures var h := HeadOf(f, Drop(b, i));
            Pushed(out, Remaining(f, Drop(b, i))) ==
            match h
            case Short => Some(out)
            case Malformed => None
            case Tail => Some(out + Drop(b, i))
            case Piece(size, drop, last) =>
              assert i + size <= |b|;
              Pushed(if drop then out else out + b[i..i+size],
                     if last then Some([]) else Remaining(f, Drop(b, i + size)))
  {
    hide Remaining, JpegHead, PngHead, WebpHead;
    var s := Drop(b, i);
    var h := HeadOf(f, s);
    RemainingStep(f, s);
    assert out + [] == out;
    PushedTwice(out, [], None);
    if h.Tail? {
      PushedTwice(out, s, None);
    } else if h.Piece? {
      assert s[..h.size] == b[i..i+h.size] && s[h.size..] == Drop(b, i + h.size);
      PushedTwice(out, if h.drop then [] else b[i..i+h.size],
                  if h.last then Some([]) else Remaining(f, Drop(b, i + h.size)));
    }
  }

  lemma DropIsSlice(b: Buffer, i: nat)
    requires i <= |b|
    ensures Drop(b, i) == b[i..]
  {
  }

  lemma SpellsAt(b: Buffer, i: nat, k: nat)
    requires i <= |b|
    ensures forall text: string :: Spells(Drop(b, i), k, text) == Spells(b, i + k, text)
  {
  }

  lemma WordsAt(b: Buffer, i: nat)
    ensures i + 4 <= |b| ==> Be32(Drop(b, i), 0) == Be32(b, i)
  {
  }

  lemma JpegHeadAt(b: Buffer, i: nat)
    ensures JpegHead(Drop(b, i)) ==
            if i + 4 > |b| then Short
            else if b[i] != 0xFF then Malformed
            else if b[i+1] == SOS || b[i+1] == EOI then Tail
            else if Be16(b, i + 2) < 2 || i + 2 + Be16(b, i + 2) > |b| then Malformed
            else Piece(2 + Be16(b, i + 2), DroppedMarker(b[i+1]), false)
  {
  }

  method CleanJpeg(b: Buffer) returns (r: Buffer)
    ensures r == Cleaned(Jpeg, b)
  {
    hide Cleaned, Remaining, Orientation, JpegHead, Be16, Drop, Take;
    CleanedFromBody(Jpeg, b);
    var orientation := ReadOrientation(b);
    if orientation != 1 { return b; }
    var out := Take(b, 2);
    ghost var whole := Pushed(out, Remaining(Jpeg, Drop(b, 2)));
    var i := 2;
    while i + 4 <= |b|
      invariant whole == Pushed(out, Remaining(Jpeg, Drop(b, i)))
      decreases |b| - i
    {
      JpegHeadAt(b, i);
      Turn(Jpeg, b, i, out);
      if b[i] != 0xFF { return b; }
      var marker := b[i+1];
      if marker == SOS || marker == EOI {
        DropIsSlice(b, i);
        out := out + b[i..];
        break;
      }
      var len := Be16(b, i + 2);
      if len < 2 || i + 2 + len > |b| { return b; }
      var isApp := 0xE0 <= marker <= 0xEF;
      var drop := (isApp && marker != 0xE0) || marker == 0xFE;
      if !drop {
        out := out + b[i..i + 2 + len];
      }
      i := i + 2 + len;
    }
    JpegHeadAt(b, i);
    if i + 4 > |b| { Turn(Jpeg, b, i, out); }
    return if |out| > 4 && out[0] == 0xFF && out[1] == 0xD8 then out else b;
  }

  lemma PngHeadAt(b: Buffer, i: nat)
    ensures PngHead(Drop(b, i)) ==
            if i + 8 > |b| then Short
            else if i + 12 + Be32(b, i) > |b| then Malformed
            else Piece(12 + Be32(b, i), PngMetadata(b, i + 4), Spells(b, i + 4, "IEND"))
  {
    hide Be32;
    WordsAt(b, i);
    if i + 8 <= |b| {
      SpellsAt(b, i, 4);
    }
  }

  method CleanPng(b: Buffer) returns (r: Buffer)
    ensures r == Cleaned(Png, b)
  {
    hide Cleaned, Remaining, Orientation, Drop, PngHead, Spells, PngMetadata, Be32;
    CleanedFromBody(Png, b);
    var out := Take(b, 8);
    ghost var whole := Pushed(out, Remaining(Png, Drop(b, 8)));
    var i := 8;
    ghost var ended := false;
    while i + 8 <= |b|
      invariant !ended
      invariant whole == Pushed(out, Remaining(Png, Drop(b, i)))
      decreases |b| - i
    {
      PngHeadAt(b, i);
      Turn(Png, b, i, out);
      var len := Be32(b, i);
      var end := i + 12 + len;
      if len > |b| || end > |b| { return b; }
      if !PngMetadata(b, i + 4) {
        out := out + b[i..end];
      }
      ended := Spells(b, i + 4, "IEND");
      PushedTwice(out, [], None);
      if Spells(b, i + 4, "IEND") { break; }
      i := end;
    }
    PngHeadAt(b, i);
    if !ended { Turn(Png, b, i, out); }
    assert out + [] == out;
    return if |out| > 8 then out else b;
  }

  lemma WebpHeadAt(b: Buffer, i: nat)
    ensures WebpHead(Drop(b, i)) ==
            if i + 8 > |b| then Short
            else
              var padded := Le32(b, i + 4) + Le32(b, i + 4) % 2;
              if i + 8 + padded > |b| then Malformed
              else Piece(8 + padded, Spells(b, i, "EXIF") || Spells(b, i, "XMP "), false)
  {
    var s := Drop(b, i);
    if i + 8 <= |b| {
      assert Le32(s, 4) == Le32(b, i + 4);
      assert Spells(s, 0, "EXIF") == Spells(b, i, "EXIF") && Spells(s, 0, "XMP ") == Spells(b, i, "XMP ");
    }
  }

  method CleanWebp(b: Buffer) returns (r: Buffer)
    ensures r == Cleaned(Webp, b)
  {
    hide Cleaned, Remaining, Orientation, Drop, WebpHead, Spells, Le32;
    CleanedFromBody(Webp, b);
    if |b| < 12 { return b; }
    ghost var whole := Remaining(Webp, Drop(b, 12));
    PushedNothing(whole);
    var body: Buffer := [];
    var i := 12;
    while i + 8 <= |b|
      invariant whole == Pushed(body, Remaining(Webp, Drop(b, i)))
      decreases |b| - i
    {
      WebpHeadAt(b, i);
      Turn(Webp, b, i, body);
      var len := Le32(b, i + 4);
      var padded := len + len % 2;
      var end := i + 8 + padded;
      if len > |b| || end > |b| { return b; }
      var drop := Spells(b, i, "EXIF") || Spells(b, i, "XMP ");
      if !drop { body := body + b[i..end]; }
      i := end;
    }
    WebpHeadAt(b, i);
    Turn(Webp, b, i, body);
    if body == [] { return b; }
    if |body| + 4 >= 0x1_0000_0000 { return b; }
    return WebpHeader(body) + body;
  }

  /** The entry point: the cleaned buffer and how many bytes went; the result never grows. */
  method StripImageMetadata(b: Buffer, ext: Option<Format>) returns (r: Buffer, removed: nat)
    ensures r == if ext.Some? then Cleaned(ext.value, b) else b
    ensures removed == |b| - |r|
  {
    match ext {
      case Some(Jpeg) => r := CleanJpeg(b);
      case Some(Png) => r := CleanPng(b);
      case Some(Webp) => r := CleanWebp(b);
      case None => r := b;
    }
    ghost var cleaned := r;
    if r != b { RemovedExactlyMetadata(ext.value, b); }
    if r == [] || |r| > |b| { r := b; }
    removed := |b| - |r|;
  }
}
