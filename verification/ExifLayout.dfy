/**
 The EXIF file as a function of the camera's attribute record: which fields go into which IFD,
 where every IFD starts, and the APP1 segment around them (Exif 2.2 sections 4.6.2 and 4.7.2).
 */
module ExifLayout {
  import opened Bytes
  import opened ExifTiff

  /** The attribute record. Strings are their fixed-size C buffers. */
  datatype Attributes = Attributes(
    enableGps: bool, enableThumb: bool,
    width: nat, height: nat, maker: seq<byte>, model: seq<byte>, orientation: nat,
    software: seq<byte>, dateTime: seq<byte>, ycbcrPositioning: nat,
    exposureTime: Rational, fnumber: Rational, exposureProgram: nat, isoSpeedRating: nat,
    exifVersion: seq<byte>, shutterSpeed: Rational, aperture: Rational, brightness: Rational,
    exposureBias: Rational, maxAperture: Rational, meteringMode: nat, flash: nat,
    focalLength: Rational, userComment: seq<byte>, colorSpace: nat, exposureMode: nat,
    whiteBalance: nat, sceneCaptureType: nat,
    gpsVersionId: seq<byte>, gpsLatitudeRef: seq<byte>, gpsLatitude: seq<Rational>,
    gpsLongitudeRef: seq<byte>, gpsLongitude: seq<Rational>, gpsAltitudeRef: nat,
    gpsAltitude: Rational, gpsTimestamp: seq<Rational>, gpsProcessingMethod: seq<byte>,
    gpsDatestamp: seq<byte>,
    widthThumb: nat, heightThumb: nat, compressionScheme: nat,
    xResolution: Rational, yResolution: Rational, resolutionUnit: nat)

  const EXIF_FILE_SIZE := 28800
  const EXIF_LIMIT_SIZE := 64 * 1024

  const NUM_0TH_IFD_TIFF := 10
  const NUM_0TH_IFD_EXIF := 22
  const NUM_0TH_IFD_GPS := 10
  const NUM_1TH_IFD_TIFF := 9

  const SOI: seq<byte> := [0xFF, 0xD8]
  const APP1: seq<byte> := [0xFF, 0xE1]
  const EXIF_HEADER: seq<byte> := [0x45, 0x78, 0x69, 0x66, 0x00, 0x00]
  const TIFF_HEADER: seq<byte> := [0x49, 0x49, 0x2A, 0x00, 0x08, 0x00, 0x00, 0x00]
  const COMMENT_CODE: seq<byte> := [0x00, 0x00, 0x00, 0x49, 0x49, 0x43, 0x53, 0x41]
  const ASCII_PREFIX: seq<byte> := [0x41, 0x53, 0x43, 0x49, 0x49, 0x00, 0x00, 0x00]

  const EXIF_IFD_POINTER := 0x8769
  const GPS_IFD_POINTER := 0x8825
  const JPEG_FORMAT := 0x0201
  const JPEG_FORMAT_LEN := 0x0202

  /** strlen, within a buffer. */
  function StrLen(s: seq<byte>): (n: nat)
    ensures n <= |s|
    ensures forall i :: 0 <= i < n ==> s[i] != 0
    ensures n < |s| ==> s[n] == 0
  {
    if s == [] || s[0] == 0 then 0 else 1 + StrLen(s[1..])
  }

  /** A C string with its terminator. */
  function CString(s: seq<byte>): seq<byte> {
    if StrLen(s) < |s| then s[..StrLen(s) + 1] else s
  }

  /** The sizes and ranges of the record's C types; its strings are terminated. */
  ghost predicate Representable(a: Attributes) {
    && a.width < 0x1_0000_0000 && a.height < 0x1_0000_0000
    && |a.maker| == 32 && 0 in a.maker
    && |a.model| == 32 && 0 in a.model
    && |a.software| == 32 && 0 in a.software
    && |a.exifVersion| == 4 && |a.dateTime| == 20
    && |a.userComment| == 150 && StrLen(a.userComment) < 150
    && a.orientation < 0x1_0000 && a.ycbcrPositioning < 0x1_0000 && a.exposureProgram < 0x1_0000
    && a.isoSpeedRating < 0x1_0000 && a.meteringMode < 0x1_0000 && a.flash < 0x1_0000
    && a.colorSpace < 0x1_0000 && a.exposureMode < 0x1_0000 && a.whiteBalance < 0x1_0000
    && a.sceneCaptureType < 0x1_0000 && a.compressionScheme < 0x1_0000 && a.resolutionUnit < 0x1_0000
    && a.gpsAltitudeRef < 0x100 && a.widthThumb < 0x1_0000_0000 && a.heightThumb < 0x1_0000_0000
    && |a.gpsVersionId| == 4 && |a.gpsLatitudeRef| == 2 && |a.gpsLongitudeRef| == 2
    && |a.gpsLatitude| == 3 && |a.gpsLongitude| == 3 && |a.gpsTimestamp| == 3
    && |a.gpsProcessingMethod| == 100 && |a.gpsDatestamp| == 11
  }

  /** The record after the code has been put in front of the comment. A text of more than 141 characters is moved past
      the end of its buffer, into the width and the height that lie behind it. */
  function Prefixed(a: Attributes): (r: Attributes)
    requires |a.userComment| == 150 && StrLen(a.userComment) < 150
    ensures r == a.(userComment := r.userComment, width := r.width, height := r.height)
    ensures |r.userComment| == 150 && r.userComment[..9] == COMMENT_CODE + a.userComment[..1]
    ensures r.width < 0x1_0000_0000 && r.height < 0x1_0000_0000
    ensures r.userComment[0] == 0 && StrLen(r.userComment) == 0
  {
    var n, memory := StrLen(a.userComment) + 1, a.userComment + Le4(a.width) + Le4(a.height);
    var after := COMMENT_CODE + a.userComment[..n] + memory[|COMMENT_CODE| + n..];
    assert after[..150][..9] == COMMENT_CODE + a.userComment[..1];
    assert after[..150][0] == after[0] == 0;
    a.(userComment := after[..150], width := FromLe4(after[150..154]), height := FromLe4(after[154..]))
  }

  /** What of the comment lands on the width and the height: all that is behind its first 142 bytes, the terminator
      counted. */
  predicate PixelsSpared(a: Attributes)
    requires |a.userComment| == 150 && StrLen(a.userComment) < 150
  {
    var n := StrLen(a.userComment) + 1;
    n <= 142 || a.userComment[142..n] == (Le4(a.width) + Le4(a.height))[..n - 142]
  }

  /** The eight bytes behind the comment's buffer after the move. */
  function Spill(a: Attributes): (s: seq<byte>)
    requires |a.userComment| == 150 && StrLen(a.userComment) < 150
    ensures |s| == 8
  {
    var n, pixels := StrLen(a.userComment) + 1, Le4(a.width) + Le4(a.height);
    if n <= 142 then pixels else a.userComment[142..n] + pixels[n - 142..]
  }

  lemma SpillIs(code: seq<byte>, comment: seq<byte>, w: seq<byte>, h: seq<byte>, n: nat, spill: seq<byte>)
    requires |code| == 8 && |comment| == 150 && |w| == |h| == 4 && 0 < n <= 150
    requires spill == if n <= 142 then w + h else comment[142..n] + (w + h)[n - 142..]
    ensures var after := code + comment[..n] + (comment + w + h)[8 + n..];
            after[150..154] == spill[..4] && after[154..] == spill[4..]
  {
    assert (comment + w + h)[8 + n..] == (comment + (w + h))[8 + n..];
    assert (code + comment[..n] + (comment + (w + h))[8 + n..])[150..] == spill;
  }

  lemma SpillRead(a: Attributes)
    requires |a.userComment| == 150 && StrLen(a.userComment) < 150
    ensures Prefixed(a).width == FromLe4(Spill(a)[..4]) && Prefixed(a).height == FromLe4(Spill(a)[4..])
  {
    hide StrLen, Le4, FromLe4;
    SpillIs(COMMENT_CODE, a.userComment, Le4(a.width), Le4(a.height), StrLen(a.userComment) + 1, Spill(a));
  }

  lemma Le4Exact(b: seq<byte>, v: nat)
    requires |b| == 4 && v < 0x1_0000_0000
    ensures FromLe4(b) == v <==> b == Le4(v)
  {
    Le4RoundTrip(v);
    Le4Back(b);
  }

  lemma SpillKept(spill: seq<byte>, w: seq<byte>, h: seq<byte>, comment: seq<byte>, n: nat)
    requires |comment| == 150 && |w| == |h| == 4 && 0 < n <= 150
    requires spill == if n <= 142 then w + h else comment[142..n] + (w + h)[n - 142..]
    ensures spill[..4] == w && spill[4..] == h <==> n <= 142 || comment[142..n] == (w + h)[..n - 142]
  {
    if n > 142 {
      assert w + h == (w + h)[..n - 142] + (w + h)[n - 142..];
      assert spill[..n - 142] == comment[142..n];
    }
    assert spill == spill[..4] + spill[4..];
  }

  /** The numbers survive exactly if nothing lands on them, or what does spells the same bytes. */
  lemma PixelsKept(a: Attributes)
    requires |a.userComment| == 150 && StrLen(a.userComment) < 150
    requires a.width < 0x1_0000_0000 && a.height < 0x1_0000_0000
    ensures Prefixed(a).width == a.width && Prefixed(a).height == a.height <==> PixelsSpared(a)
  {
    hide StrLen, Le4, FromLe4, Prefixed;
    SpillRead(a);
    Le4Exact(Spill(a)[..4], a.width);
    Le4Exact(Spill(a)[4..], a.height);
    SpillKept(Spill(a), Le4(a.width), Le4(a.height), a.userComment, StrLen(a.userComment) + 1);
  }

  /** A text of 149 letters, for one, overwrites both. */
  lemma PixelsLost(a: Attributes)
    requires a.userComment == seq(149, _ => 0x41) + [0]
    ensures StrLen(a.userComment) == 149
    ensures Prefixed(a).width == 0x4141_4141 && Prefixed(a).height == 0x0041_4141
  {
    LetterLength(149, a.userComment);
    hide StrLen, Prefixed;
    SpillRead(a);
    assert Spill(a) == [0x41, 0x41, 0x41, 0x41, 0x41, 0x41, 0x41, 0];
  }

  lemma {:induction false} LetterLength(n: nat, s: seq<byte>)
    requires |s| == n + 1 && s[n] == 0 && forall i | 0 <= i < n :: s[i] == 0x41
    ensures StrLen(s) == n
  {
    if n > 0 {
      LetterLength(n - 1, s[1..]);
    }
  }

  // ----- The fields of each IFD, in the order they are written -----

  function Ifd0Head(a: Attributes): (fs: seq<Field>)
    ensures |fs| == NUM_0TH_IFD_TIFF - 2
  {
    [ Word(0x0100, LONG, 1, a.width),
      Word(0x0101, LONG, 1, a.height),
      Long(0x010F, ASCII, CString(a.maker)),
      Long(0x0110, ASCII, CString(a.model)),
      Word(0x0112, SHORT, 1, a.orientation),
      Long(0x0131, ASCII, CString(a.software)),
      Long(0x0132, ASCII, a.dateTime),
      Word(0x0213, SHORT, 1, a.ycbcrPositioning) ]
  }

  function ExifPointer(at: nat): Field {
    Word(EXIF_IFD_POINTER, LONG, 1, at)
  }

  function GpsPointer(at: nat): Field {
    Word(GPS_IFD_POINTER, LONG, 1, at)
  }

  function ExposureFields(a: Attributes): seq<Field> {
    [ Ratio(0x829A, RATIONAL, [a.exposureTime]),
      Ratio(0x829D, RATIONAL, [a.fnumber]),
      Word(0x8822, SHORT, 1, a.exposureProgram),
      Word(0x8827, SHORT, 1, a.isoSpeedRating),
      Short(0x9000, UNDEFINED, a.exifVersion),
      Long(0x9003, ASCII, a.dateTime),
      Long(0x9004, ASCII, a.dateTime) ]
  }

  function ApexFields(a: Attributes): seq<Field> {
    [ Ratio(0x9201, SRATIONAL, [a.shutterSpeed]),
      Ratio(0x9202, RATIONAL, [a.aperture]),
      Ratio(0x9203, SRATIONAL, [a.brightness]),
      Ratio(0x9204, SRATIONAL, [a.exposureBias]),
      Ratio(0x9205, RATIONAL, [a.maxAperture]),
      Word(0x9207, SHORT, 1, a.meteringMode),
      Word(0x9209, SHORT, 1, a.flash),
      Ratio(0x920A, RATIONAL, [a.focalLength]) ]
  }

  /** What the comment field should hold: the eight-byte code and the text with its terminator. */
  function IntendedComment(a: Attributes): Field
    requires |a.userComment| == 150 && StrLen(a.userComment) < 150
  {
    Long(0x9286, UNDEFINED, COMMENT_CODE + a.userComment[..StrLen(a.userComment) + 1])
  }

  /** What it does hold: the length is taken after the code, whose first byte is NUL, has been put in front of the
      text, so that one byte of the text is left. */
  function CommentField(a: Attributes): Field
    requires |a.userComment| == 150
  {
    Long(0x9286, UNDEFINED, COMMENT_CODE + a.userComment[..1])
  }

  /** The comment is written as it should be only if it is empty. */
  lemma CommentExact(a: Attributes)
    requires |a.userComment| == 150 && StrLen(a.userComment) < 150
    ensures CommentField(a) == IntendedComment(a) <==> a.userComment[0] == 0
  {
    var n := StrLen(a.userComment);
    assert |COMMENT_CODE + a.userComment[..n + 1]| == 9 + n;
  }

  function PictureFields(a: Attributes): seq<Field> {
    [ Word(0xA001, SHORT, 1, a.colorSpace),
      Word(0xA002, LONG, 1, a.width),
      Word(0xA003, LONG, 1, a.height),
      Word(0xA402, LONG, 1, a.exposureMode),
      Word(0xA403, LONG, 1, a.whiteBalance),
      Word(0xA406, LONG, 1, a.sceneCaptureType) ]
  }

  /** The fields of the Exif IFD as they are written; the pixel dimensions are read after the comment was moved. */
  function ExifFields(a: Attributes): (fs: seq<Field>)
    requires |a.userComment| == 150 && StrLen(a.userComment) < 150
    ensures |a.exifVersion| == 4 ==> AllWritable(fs)
    ensures |fs| == NUM_0TH_IFD_EXIF
  {
    ExposureFields(a) + ApexFields(a) + [CommentField(a)] + PictureFields(Prefixed(a))
  }

  /** And as the record means them. */
  function IntendedFields(a: Attributes): (fs: seq<Field>)
    requires |a.userComment| == 150 && StrLen(a.userComment) < 150
    ensures |fs| == NUM_0TH_IFD_EXIF
  {
    ExposureFields(a) + ApexFields(a) + [IntendedComment(a)] + PictureFields(a)
  }

  function GpsHead(a: Attributes): seq<Field> {
    [ Short(0x0000, BYTE, a.gpsVersionId),
      Short(0x0001, ASCII, a.gpsLatitudeRef),
      Ratio(0x0002, RATIONAL, a.gpsLatitude),
      Short(0x0003, ASCII, a.gpsLongitudeRef),
      Ratio(0x0004, RATIONAL, a.gpsLongitude),
      Word(0x0005, BYTE, 1, a.gpsAltitudeRef),
      Ratio(0x0006, RATIONAL, [a.gpsAltitude]),
      Ratio(0x0007, RATIONAL, a.gpsTimestamp) ]
  }

  function GpsMethod(a: Attributes): Field {
    Long(0x001B, UNDEFINED, ASCII_PREFIX + a.gpsProcessingMethod[..StrLen(a.gpsProcessingMethod)])
  }

  function GpsFields(a: Attributes): (fs: seq<Field>)
    ensures |a.gpsVersionId| == 4 && |a.gpsLatitudeRef| == 2 && |a.gpsLongitudeRef| == 2 ==> AllWritable(fs)
    ensures |fs| == GpsCount(a)
  {
    GpsHead(a)
    + (if StrLen(a.gpsProcessingMethod) > 0 then [GpsMethod(a)] else [])
    + [Long(0x001D, ASCII, a.gpsDatestamp)]
  }

  function GpsCount(a: Attributes): nat {
    if StrLen(a.gpsProcessingMethod) == 0 then NUM_0TH_IFD_GPS - 1 else NUM_0TH_IFD_GPS
  }

  function ThumbHead(a: Attributes): seq<Field> {
    [ Word(0x0100, LONG, 1, a.widthThumb),
      Word(0x0101, LONG, 1, a.heightThumb),
      Word(0x0103, SHORT, 1, a.compressionScheme),
      Word(0x0112, SHORT, 1, a.orientation),
      Ratio(0x011A, RATIONAL, [a.xResolution]),
      Ratio(0x011B, RATIONAL, [a.yResolution]),
      Word(0x0128, SHORT, 1, a.resolutionUnit) ]
  }

  // ----- Where the IFDs are, and the file they make up -----

  function Ifd0Count(a: Attributes): nat {
    if a.enableGps then NUM_0TH_IFD_TIFF else NUM_0TH_IFD_TIFF - 1
  }

  ghost function ExifAt(a: Attributes): nat {
    8 + 2 + IFD_SIZE * Ifd0Count(a) + 4 + |Payloads(Ifd0Head(a))|
  }

  ghost function GpsAt(a: Attributes): nat
    requires Representable(a)
  {
    ExifAt(a) + BlockSize(ExifFields(a))
  }

  ghost function ThumbAt(a: Attributes): nat
    requires Representable(a)
  {
    GpsAt(a) + if a.enableGps then BlockSize(GpsFields(a)) else 0
  }

  ghost function JpegAt(a: Attributes): nat
    requires Representable(a)
  {
    ThumbAt(a) + 2 + IFD_SIZE * NUM_1TH_IFD_TIFF + 4 + |Payloads(ThumbHead(a))|
  }

  ghost function Ifd0(a: Attributes): (fs: seq<Field>)
    requires Representable(a)
    ensures AllWritable(fs) && |fs| == Ifd0Count(a)
  {
    if a.enableGps then Ifd0Main(a) + [GpsPointer(GpsAt(a))] else Ifd0Main(a)
  }

  ghost function ThumbFields(a: Attributes, size: nat): (fs: seq<Field>)
    requires Representable(a)
    ensures AllWritable(fs) && |fs| == NUM_1TH_IFD_TIFF
  {
    ThumbHead(a) + [Word(JPEG_FORMAT, LONG, 1, JpegAt(a))] + [Word(JPEG_FORMAT_LEN, LONG, 1, size)]
  }

  /** The TIFF part; an empty thumbnail stands for none. */
  ghost function Tiff(a: Attributes, thumb: seq<byte>): seq<byte>
    requires Representable(a)
  {
    TiffFront(a, if thumb == [] then 0 else ThumbAt(a)) + ThumbPart(a, thumb)
  }

  ghost function TiffFront(a: Attributes, next: nat): (t: seq<byte>)
    requires Representable(a)
  {
    TIFF_HEADER + Block(Ifd0(a), 8, next) + Block(ExifFields(a), ExifAt(a), 0) + GpsPart(a)
  }

  ghost function Ifd0Main(a: Attributes): (fs: seq<Field>)
    requires Representable(a)
    ensures AllWritable(fs) && |fs| == NUM_0TH_IFD_TIFF - 1
  {
    Ifd0Head(a) + [ExifPointer(ExifAt(a))]
  }

  /** The 0th IFD behind its entry count, still open between its entries and its values, and the Exif IFD. */
  ghost function MainBody(a: Attributes, open: seq<byte>): seq<byte>
    requires Representable(a)
  {
    Entries(Ifd0Main(a), ValuesAt(Ifd0(a), 8)) + open + Payloads(Ifd0Main(a))
    + Block(ExifFields(a), ExifAt(a), 0)
  }

  /** The same behind the entry count of the 0th IFD, while its link may still be missing. */
  ghost function FrontBody(a: Attributes, link: seq<byte>): seq<byte>
    requires Representable(a)
  {
    Entries(Ifd0(a), ValuesAt(Ifd0(a), 8)) + link + Payloads(Ifd0(a))
    + Block(ExifFields(a), ExifAt(a), 0) + GpsPart(a)
  }

  /** Writing the GPS pointer into the hole left for it completes the 0th IFD. */
  lemma CloseMain(a: Attributes, lead: seq<byte>, hole: seq<byte>, link: seq<byte>)
    requires Representable(a) && a.enableGps && |hole| == IFD_SIZE
    ensures var at := |lead| + IFD_SIZE * (NUM_0TH_IFD_TIFF - 1);
      && at + IFD_SIZE <= |lead + MainBody(a, hole + link)|
      && Put(lead + MainBody(a, hole + link), at, EntryBytes(GpsPointer(GpsAt(a)), 0)) + GpsPart(a)
         == lead + FrontBody(a, link)
  {
    hide Entries, Payloads, ExifFields, GpsPart, Ifd0Main, EntryBytes, Block, Put, GpsAt, ExifAt;
    var e := EntryBytes(GpsPointer(GpsAt(a)), 0);
    var fs, base := Ifd0Main(a), ValuesAt(Ifd0(a), 8);
    var tail := link + Payloads(fs) + Block(ExifFields(a), ExifAt(a), 0);
    WordAnywhere(GpsPointer(GpsAt(a)), 0, base + |Payloads(fs)|);
    Snoc(fs, GpsPointer(GpsAt(a)), base);
    PayloadsOfWord(fs, GpsPointer(GpsAt(a)));
    assert lead + MainBody(a, hole + link) == (lead + Entries(fs, base)) + hole + tail;
    PutMiddle(lead + Entries(fs, base), hole, tail, e);
    assert lead + Entries(fs, base) + e + tail + GpsPart(a) == lead + FrontBody(a, link);
  }

  lemma WordAnywhere(f: Field, x: nat, y: nat)
    requires f.Word?
    ensures EntryBytes(f, x) == EntryBytes(f, y)
  {
  }

  lemma FrontIsTiff(a: Attributes, next: nat)
    requires Representable(a)
    ensures TIFF_HEADER + Le2(Ifd0Count(a)) + FrontBody(a, Le4(next)) == TiffFront(a, next)
  {
    hide Entries, Payloads, Le2, Le4, ExifFields, GpsPart, Ifd0;
    var e, p := Entries(Ifd0(a), ValuesAt(Ifd0(a), 8)), Payloads(Ifd0(a));
    var x, g := Block(ExifFields(a), ExifAt(a), 0), GpsPart(a);
    var n, l := Le2(Ifd0Count(a)), Le4(next);
    assert TIFF_HEADER + n + (e + l + p + x + g) == TIFF_HEADER + (n + e + l + p) + x + g;
  }

  ghost function GpsPart(a: Attributes): seq<byte>
    requires Representable(a)
  {
    if a.enableGps then Block(GpsFields(a), GpsAt(a), 0) else []
  }

  ghost function ThumbPart(a: Attributes, thumb: seq<byte>): seq<byte>
    requires Representable(a)
  {
    if thumb == [] then [] else Block(ThumbFields(a, |thumb|), ThumbAt(a), 0) + thumb
  }

  /** What precedes the TIFF part. Only a caller that passed a destination handle gets the SOI marker. */
  function Head(hasDst: bool, tiffSize: nat): seq<byte> {
    (if hasDst then SOI else []) + APP1 + Be2(8 + tiffSize) + EXIF_HEADER
  }

  /** The two low bytes of a size, high byte first. */
  function Be2(v: nat): (b: seq<byte>)
    ensures |b| == 2
  {
    [v / 256 % 256, v % 256]
  }

  /** The thumbnail that survives the size limit. */
  ghost function Kept(a: Attributes, thumb: seq<byte>): seq<byte>
    requires Representable(a)
  {
    if a.enableThumb && |Tiff(a, thumb)| <= EXIF_LIMIT_SIZE then thumb else []
  }

  ghost function File(hasDst: bool, a: Attributes, thumb: seq<byte>): seq<byte>
    requires Representable(a)
  {
    Head(hasDst, |Tiff(a, thumb)|) + Tiff(a, thumb)
  }

  lemma StrLenTerminated(s: seq<byte>)
    requires 0 in s
    ensures StrLen(s) < |s|
  {
    if s[0] != 0 {
      StrLenTerminated(s[1..]);
    }
  }

  lemma NoPayloads()
    ensures Payloads([]) == []
  {
  }

  lemma PayloadsOfWord(fs: seq<Field>, f: Field)
    requires f.Word?
    ensures Payloads(fs + [f]) == Payloads(fs)
  {
    assert (fs + [f])[..|fs|] == fs;
  }

  lemma LayoutSizes(a: Attributes, size: nat)
    requires Representable(a)
    ensures Payloads(Ifd0(a)) == Payloads(Ifd0Head(a)) && |Ifd0(a)| == Ifd0Count(a)
    ensures Payloads(ThumbFields(a, size)) == Payloads(ThumbHead(a)) && |ThumbFields(a, size)| == NUM_1TH_IFD_TIFF
    ensures 8 + BlockSize(Ifd0(a)) == ExifAt(a)
    ensures ThumbAt(a) + BlockSize(ThumbFields(a, size)) == JpegAt(a)
  {
    hide Payloads;
    var head := Ifd0Head(a) + [ExifPointer(ExifAt(a))];
    PayloadsOfWord(Ifd0Head(a), ExifPointer(ExifAt(a)));
    PayloadsOfWord(head, GpsPointer(GpsAt(a)));
    assert !a.enableGps ==> Ifd0(a) == head;
    PayloadsOfWord(ThumbHead(a), Word(JPEG_FORMAT, LONG, 1, JpegAt(a)));
    PayloadsOfWord(ThumbHead(a) + [Word(JPEG_FORMAT, LONG, 1, JpegAt(a))], Word(JPEG_FORMAT_LEN, LONG, 1, size));
  }

  /** Setting the 0th IFD's link changes nothing else. */
  lemma SetLink(a: Attributes, lead: seq<byte>, link: seq<byte>, more: seq<byte>, next: nat)
    requires Representable(a) && |link| == 4
    ensures var at := |lead| + IFD_SIZE * Ifd0Count(a);
      && at + 4 <= |lead + FrontBody(a, link) + more|
      && Put(lead + FrontBody(a, link) + more, at, Le4(next)) == lead + FrontBody(a, Le4(next)) + more
    ensures |FrontBody(a, Le4(next))| == |FrontBody(a, link)|
  {
    hide Entries, Payloads, ExifFields, GpsPart, Ifd0, Block, Le4;
    var e := Entries(Ifd0(a), ValuesAt(Ifd0(a), 8));
    var tail := Payloads(Ifd0(a)) + Block(ExifFields(a), ExifAt(a), 0) + GpsPart(a);
    assert lead + FrontBody(a, link) + more == (lead + e) + link + (tail + more);
    PutMiddle(lead + e, link, tail + more, Le4(next));
    assert (lead + e) + Le4(next) + (tail + more) == lead + FrontBody(a, Le4(next)) + more;
  }

  lemma TiffSize(a: Attributes, thumb: seq<byte>)
    requires Representable(a)
    ensures |Tiff(a, [])| == ThumbAt(a)
    ensures thumb != [] ==> |Tiff(a, thumb)| == JpegAt(a) + |thumb|
    ensures forall next {:trigger TiffFront(a, next)} :: |TiffFront(a, next)| == ThumbAt(a)
  {
    hide Payloads, Entries, ExifFields, Ifd0, ThumbFields, GpsFields;
    LayoutSizes(a, |thumb|);
  }
}
