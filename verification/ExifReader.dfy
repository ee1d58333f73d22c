/**
 An EXIF reader written from the standards alone (Exif 2.2 sections 4.5.2 to 4.7.2), and what it
 sees in a file that the serializer wrote.
 */
module ExifReader {
  import opened Arithmetic
  import opened Bytes
  import opened ExifTiff
  import opened ExifLayout
  import opened Options

  datatype Thumbnail = Thumbnail(entries: seq<Entry>, jpeg: seq<byte>)

  datatype Exif = Exif(main: seq<Entry>, details: seq<Entry>, gps: Option<seq<Entry>>, thumb: Option<Thumbnail>)

  /** The entry with a tag; tags are unique within an IFD. */
  function Find(es: seq<Entry>, tag: nat): Option<Entry> {
    if es == [] then None
    else if es[|es| - 1].tag == tag then Some(es[|es| - 1])
    else Find(es[..|es| - 1], tag)
  }

  /** A LONG value, such as a pointer to another IFD. */
  function FindLong(es: seq<Entry>, tag: nat): Option<nat> {
    match Find(es, tag)
    case Some(e) => if e.typ == LONG && |e.value| == 4 then Some(FromLe4(e.value)) else None
    case None => None
  }

  function FromBe2(b: seq<byte>): nat
    requires |b| == 2
  {
    256 * b[0] as int + b[1] as int
  }

  /** The TIFF part, delimited by the length field of the APP1 segment; that counts itself and the signature. */
  function Segment(file: seq<byte>): Option<seq<byte>> {
    if |file| < 12 || file[..2] != SOI || file[2..4] != APP1 || file[6..12] != EXIF_HEADER then None
    else
      var end := 4 + FromBe2(file[4..6]);
      if end < 12 || end > |file| then None else Some(file[12..end])
  }

  function ReadGps(t: seq<byte>, main: seq<Entry>): Option<Option<seq<Entry>>> {
    if Find(main, GPS_IFD_POINTER).None? then Some(None)
    else
      var at := FindLong(main, GPS_IFD_POINTER);
      if at.None? then None
      else match ReadDirectory(t, at.value)
        case Some(dir) => Some(Some(dir.entries))
        case None => None
  }

  function ReadThumb(t: seq<byte>, at: nat): Option<Option<Thumbnail>> {
    if at == 0 then Some(None)
    else match ReadDirectory(t, at)
      case None => None
      case Some(dir) =>
        var from, size := FindLong(dir.entries, JPEG_FORMAT), FindLong(dir.entries, JPEG_FORMAT_LEN);
        if from.None? || size.None? || from.value + size.value > |t| then None
        else Some(Some(Thumbnail(dir.entries, t[from.value..from.value + size.value])))
  }

  function ReadTiff(t: seq<byte>): Option<Exif> {
    if |t| < 8 || t[..4] != TIFF_HEADER[..4] then None
    else match ReadDirectory(t, FromLe4(t[4..8]))
      case None => None
      case Some(main) =>
        var at := FindLong(main.entries, EXIF_IFD_POINTER);
        if at.None? then None
        else
          var details := ReadDirectory(t, at.value);
          var gps := ReadGps(t, main.entries);
          var thumb := ReadThumb(t, main.next);
          if details.None? || gps.None? || thumb.None? then None
          else Some(Exif(main.entries, details.value.entries, gps.value, thumb.value))
  }

  function Read(file: seq<byte>): Option<Exif> {
    var segment := Segment(file);
    if segment.None? then None else ReadTiff(segment.value)
  }

  /** What a reader finds in the file of a record, but for the Exif IFD, which is left open. */
  ghost function Reading(a: Attributes, thumb: seq<byte>, details: seq<Entry>): Exif
    requires Representable(a)
  {
    Exif(Meanings(Ifd0(a)), details,
         if a.enableGps then Some(Meanings(GpsFields(a))) else None,
         if thumb == [] then None else Some(Thumbnail(Meanings(ThumbFields(a, |thumb|)), thumb)))
  }

  /** What the attribute record says a reader should find, the whole comment included. */
  ghost function Expected(a: Attributes, thumb: seq<byte>): Exif
    requires Representable(a)
  {
    Reading(a, thumb, Meanings(IntendedFields(a)))
  }

  // ----- The fields are ones a reader understands -----

  ghost predicate LongIsLong(f: Field) {
    f.Long? ==> |f.bytes| > 4
  }

  lemma {:induction false} SpelledAll(fs: seq<Field>, offset: nat)
    requires forall i :: 0 <= i < |fs| ==> LongIsLong(fs[i])
    ensures AllSpelled(fs, offset)
  {
    if fs != [] {
      SpelledAll(fs[..|fs| - 1], offset);
      assert LongIsLong(fs[|fs| - 1]);
    }
  }

  /** Fields that are typed and, if they stand behind an offset, long enough for it. */
  ghost predicate Plain(fs: seq<Field>) {
    forall i :: 0 <= i < |fs| ==> Typed(fs[i]) && LongIsLong(fs[i])
  }

  lemma PlainJoined(x: seq<Field>, y: seq<Field>)
    requires Plain(x) && Plain(y)
    ensures Plain(x + y)
  {
    hide Typed, LongIsLong;
  }

  lemma PlainReads(fs: seq<Field>, offset: nat)
    requires Plain(fs)
    ensures AllTyped(fs) && AllSpelled(fs, offset)
  {
    hide Typed, LongIsLong, AllSpelled;
    SpelledAll(fs, offset);
  }

  lemma ExposurePlain(a: Attributes)
    requires Representable(a)
    ensures Plain(ExposureFields(a)) && Plain(ApexFields(a))
  {
    hide StrLen;
  }

  lemma CommentPlain(a: Attributes, b: Attributes)
    requires |a.userComment| == 150 && b.width < 0x1_0000_0000 && b.height < 0x1_0000_0000
    requires b.colorSpace < 0x1_0000 && b.exposureMode < 0x1_0000 && b.whiteBalance < 0x1_0000
    requires b.sceneCaptureType < 0x1_0000
    ensures Plain([CommentField(a)]) && Plain(PictureFields(b))
  {
  }

  lemma DetailsReadable(a: Attributes, offset: nat)
    requires Representable(a)
    ensures AllTyped(ExifFields(a)) && AllSpelled(ExifFields(a), offset)
  {
    ExposurePlain(a);
    CommentPlain(a, Prefixed(a));
    hide Plain, StrLen, ExposureFields, ApexFields, CommentField, PictureFields, Prefixed;
    PlainJoined(ExposureFields(a), ApexFields(a));
    PlainJoined(ExposureFields(a) + ApexFields(a), [CommentField(a)]);
    PlainJoined(ExposureFields(a) + ApexFields(a) + [CommentField(a)], PictureFields(Prefixed(a)));
    PlainReads(ExifFields(a), offset);
  }

  lemma GpsReadable(a: Attributes, offset: nat)
    requires Representable(a)
    ensures AllTyped(GpsFields(a)) && AllSpelled(GpsFields(a), offset)
  {
    hide AllSpelled;
    SpelledAll(GpsFields(a), offset);
  }

  lemma ThumbReadable(a: Attributes, size: nat, offset: nat)
    requires Representable(a) && JpegAt(a) < 0x1_0000_0000 && size < 0x1_0000_0000
    ensures AllTyped(ThumbFields(a, size)) && AllSpelled(ThumbFields(a, size), offset)
  {
    hide AllSpelled, JpegAt, StrLen;
    SpelledAll(ThumbFields(a, size), offset);
  }

  lemma TypedMore(fs: seq<Field>, f: Field)
    requires AllTyped(fs) && Typed(f)
    ensures AllTyped(fs + [f])
  {
    hide Typed;
  }

  lemma HeadTyped(a: Attributes)
    requires Representable(a)
    ensures AllTyped(Ifd0Head(a))
  {
    hide StrLen;
  }

  lemma MainTyped(a: Attributes)
    requires Representable(a) && GpsAt(a) < 0x1_0000_0000
    ensures AllTyped(Ifd0(a))
  {
    HeadTyped(a);
    hide BlockSize, Payloads, Ifd0Head, AllTyped, Representable;
    TypedMore(Ifd0Head(a), ExifPointer(ExifAt(a)));
    if a.enableGps {
      TypedMore(Ifd0Main(a), GpsPointer(GpsAt(a)));
    }
  }

  // ----- Following the links -----

  lemma {:induction false} FindAbsent(fs: seq<Field>, tag: nat)
    requires forall i :: 0 <= i < |fs| ==> fs[i].tag != tag
    ensures Find(Meanings(fs), tag) == None
  {
    if fs != [] {
      var front := fs[..|fs| - 1];
      assert Meanings(fs)[..|fs| - 1] == Meanings(front);
      FindAbsent(front, tag);
    }
  }

  lemma FindLast(fs: seq<Field>, f: Field, tag: nat)
    ensures Find(Meanings(fs + [f]), tag) == if f.tag == tag then Some(Meaning(f)) else Find(Meanings(fs), tag)
  {
    assert (fs + [f])[..|fs|] == fs;
    assert Meanings(fs + [f])[..|fs|] == Meanings(fs);
  }

  lemma LongMeaning(tag: nat, value: nat)
    requires value < 0x1_0000_0000
    ensures var e := Meaning(Word(tag, LONG, 1, value));
      e.typ == LONG && |e.value| == 4 && FromLe4(e.value) == value
  {
    Le4RoundTrip(value);
    assert Le4(value)[..4] == Le4(value);
  }

  lemma MainLinks(a: Attributes)
    requires Representable(a) && GpsAt(a) < 0x1_0000_0000
    ensures FindLong(Meanings(Ifd0(a)), EXIF_IFD_POINTER) == Some(ExifAt(a))
    ensures a.enableGps ==> FindLong(Meanings(Ifd0(a)), GPS_IFD_POINTER) == Some(GpsAt(a))
    ensures !a.enableGps ==> Find(Meanings(Ifd0(a)), GPS_IFD_POINTER) == None
  {
    hide BlockSize, Payloads, Find, Meanings, Meaning, StrLen;
    var exif, gps := ExifPointer(ExifAt(a)), GpsPointer(GpsAt(a));
    LongMeaning(EXIF_IFD_POINTER, ExifAt(a));
    LongMeaning(GPS_IFD_POINTER, GpsAt(a));
    FindLast(Ifd0Head(a), exif, EXIF_IFD_POINTER);
    if a.enableGps {
      FindLast(Ifd0Main(a), gps, EXIF_IFD_POINTER);
      FindLast(Ifd0Main(a), gps, GPS_IFD_POINTER);
    } else {
      FindAbsent(Ifd0Main(a), GPS_IFD_POINTER);
    }
  }

  lemma ThumbLinks(a: Attributes, size: nat)
    requires Representable(a) && JpegAt(a) < 0x1_0000_0000 && size < 0x1_0000_0000
    ensures FindLong(Meanings(ThumbFields(a, size)), JPEG_FORMAT) == Some(JpegAt(a))
    ensures FindLong(Meanings(ThumbFields(a, size)), JPEG_FORMAT_LEN) == Some(size)
  {
    hide JpegAt, Find, Meanings, Meaning, ThumbHead;
    var from, len := Word(JPEG_FORMAT, LONG, 1, JpegAt(a)), Word(JPEG_FORMAT_LEN, LONG, 1, size);
    LongMeaning(JPEG_FORMAT, JpegAt(a));
    LongMeaning(JPEG_FORMAT_LEN, size);
    FindLast(ThumbHead(a), from, JPEG_FORMAT);
    FindLast(ThumbHead(a) + [from], len, JPEG_FORMAT);
    FindLast(ThumbHead(a) + [from], len, JPEG_FORMAT_LEN);
  }

  // ----- Where the blocks are -----

  lemma HoldsInside(x: seq<byte>, b: seq<byte>, y: seq<byte>)
    ensures Holds(x + b + y, |x|, b)
  {
  }

  lemma BlocksInPlace(a: Attributes, thumb: seq<byte>)
    requires Representable(a)
    ensures var t := Tiff(a, thumb);
      var next := if thumb == [] then 0 else ThumbAt(a);
      && |t| >= 8 && t[..8] == TIFF_HEADER
      && Holds(t, 8, Block(Ifd0(a), 8, next))
      && Holds(t, ExifAt(a), Block(ExifFields(a), ExifAt(a), 0))
      && (a.enableGps ==> Holds(t, GpsAt(a), Block(GpsFields(a), GpsAt(a), 0)))
      && (thumb != [] ==> Holds(t, ThumbAt(a), Block(ThumbFields(a, |thumb|), ThumbAt(a), 0)))
      && (thumb != [] ==> Holds(t, JpegAt(a), thumb))
  {
    hide Block, Holds, ExifFields, GpsFields, Ifd0, ThumbFields, StrLen, JpegAt, Payloads;
    LayoutSizes(a, |thumb|);
    var next := if thumb == [] then 0 else ThumbAt(a);
    var main, details := Block(Ifd0(a), 8, next), Block(ExifFields(a), ExifAt(a), 0);
    if thumb == [] {
      var none: seq<byte> := [];
      assert none + none == none;
      PartsInPlace(TIFF_HEADER, main, details, GpsPart(a), none, none);
    } else {
      PartsInPlace(TIFF_HEADER, main, details, GpsPart(a), Block(ThumbFields(a, |thumb|), ThumbAt(a), 0), thumb);
    }
  }

  lemma PartsInPlace(h: seq<byte>, m: seq<byte>, d: seq<byte>, g: seq<byte>, b: seq<byte>, j: seq<byte>)
    ensures var t := h + m + d + g + (b + j);
      && t[..|h|] == h
      && Holds(t, |h|, m)
      && Holds(t, |h + m|, d)
      && Holds(t, |h + m + d|, g)
      && Holds(t, |h + m + d + g|, b)
      && Holds(t, |h + m + d + g + b|, j)
  {
    hide Holds;
    HoldsInside(h, m, d);
    HoldsInside(h + m, d, g);
    HoldsInside(h + m + d, g, b + j);
    HoldsLonger(h + m + d, g, |h|, m);
    HoldsLonger(h + m + d + g, b + j, |h|, m);
    HoldsLonger(h + m + d + g, b + j, |h + m|, d);
    var front := h + m + d + g;
    HoldsInside(front, b, j);
    HoldsInside(front + b, j, []);
    assert front + (b + j) == front + b + j == front + b + j + [];
  }

  lemma HoldsLonger(t: seq<byte>, more: seq<byte>, at: nat, b: seq<byte>)
    requires Holds(t, at, b)
    ensures Holds(t + more, at, b)
  {
    assert (t + more)[at..at + |b|] == t[at..at + |b|];
  }

  lemma OffsetsInRange(a: Attributes, thumb: seq<byte>)
    requires Representable(a)
    ensures ExifAt(a) <= GpsAt(a) <= ThumbAt(a) <= |Tiff(a, thumb)|
    ensures thumb != [] ==> ThumbAt(a) <= JpegAt(a) && JpegAt(a) + |thumb| <= |Tiff(a, thumb)|
  {
    hide Payloads, ExifFields, GpsFields, Ifd0, ThumbFields;
    TiffSize(a, thumb);
  }

  lemma MainExact(a: Attributes, thumb: seq<byte>)
    requires Representable(a) && |Tiff(a, thumb)| < 0x1_0000_0000
    ensures var next := if thumb == [] then 0 else ThumbAt(a);
      var main := ReadDirectory(Tiff(a, thumb), 8);
      && (main == Some(Directory(Meanings(Ifd0(a)), next)) <==> AllSpelled(Ifd0(a), ValuesAt(Ifd0(a), 8)))
      && main.Some? && main.value.next == next
  {
    hide Block, Holds, AllSpelled, AllTyped, Meanings, ReadDirectory, ThumbAt, GpsAt, ExifAt, Ifd0, Tiff;
    BlocksInPlace(a, thumb);
    OffsetsInRange(a, thumb);
    MainTyped(a);
    ReadBlockExact(Tiff(a, thumb), 8, Ifd0(a), if thumb == [] then 0 else ThumbAt(a));
  }

  lemma DetailsBack(a: Attributes, thumb: seq<byte>)
    requires Representable(a) && |Tiff(a, thumb)| < 0x1_0000_0000
    ensures ReadDirectory(Tiff(a, thumb), ExifAt(a)) == Some(Directory(Meanings(ExifFields(a)), 0))
  {
    hide Block, Holds, AllSpelled, AllTyped, Meanings, ReadDirectory, ThumbAt, GpsAt, ExifAt, ExifFields, Tiff;
    BlocksInPlace(a, thumb);
    DetailsReadable(a, ValuesAt(ExifFields(a), ExifAt(a)));
    ReadBlockExact(Tiff(a, thumb), ExifAt(a), ExifFields(a), 0);
  }

  lemma GpsBack(a: Attributes, thumb: seq<byte>)
    requires Representable(a) && |Tiff(a, thumb)| < 0x1_0000_0000
    ensures ReadGps(Tiff(a, thumb), Meanings(Ifd0(a))) == Some(Expected(a, thumb).gps)
  {
    hide Block, Holds, AllSpelled, AllTyped, Meanings, ReadDirectory, ThumbAt, GpsAt, ExifAt, Tiff,
      GpsFields, Ifd0, ExifFields, ThumbFields, Find, FindLong;
    BlocksInPlace(a, thumb);
    OffsetsInRange(a, thumb);
    MainLinks(a);
    if a.enableGps {
      FoundLong(Meanings(Ifd0(a)), GPS_IFD_POINTER);
      GpsReadable(a, ValuesAt(GpsFields(a), GpsAt(a)));
      ReadBlockExact(Tiff(a, thumb), GpsAt(a), GpsFields(a), 0);
    }
  }

  lemma FoundLong(es: seq<Entry>, tag: nat)
    ensures FindLong(es, tag).Some? ==> Find(es, tag).Some?
  {
  }

  lemma ThumbDirectory(a: Attributes, thumb: seq<byte>)
    requires Representable(a) && thumb != [] && |Tiff(a, thumb)| < 0x1_0000_0000
    ensures ReadDirectory(Tiff(a, thumb), ThumbAt(a)) == Some(Directory(Meanings(ThumbFields(a, |thumb|)), 0))
  {
    hide Block, Holds, AllSpelled, AllTyped, Meanings, ReadDirectory, ThumbAt, GpsAt, ExifAt, Tiff, JpegAt,
      GpsFields, Ifd0, ExifFields, ThumbFields;
    BlocksInPlace(a, thumb);
    OffsetsInRange(a, thumb);
    ThumbReadable(a, |thumb|, ValuesAt(ThumbFields(a, |thumb|), ThumbAt(a)));
    ReadBlockExact(Tiff(a, thumb), ThumbAt(a), ThumbFields(a, |thumb|), 0);
  }

  lemma JpegInPlace(a: Attributes, thumb: seq<byte>)
    requires Representable(a) && thumb != [] && |Tiff(a, thumb)| < 0x1_0000_0000
    ensures ThumbAt(a) <= JpegAt(a) && JpegAt(a) + |thumb| <= |Tiff(a, thumb)|
    ensures Tiff(a, thumb)[JpegAt(a)..JpegAt(a) + |thumb|] == thumb
  {
    hide Block, ThumbAt, GpsAt, ExifAt, Tiff, JpegAt, GpsFields, Ifd0, ExifFields, ThumbFields, Representable;
    BlocksInPlace(a, thumb);
    OffsetsInRange(a, thumb);
  }

  lemma ThumbBack(a: Attributes, thumb: seq<byte>)
    requires Representable(a) && |Tiff(a, thumb)| < 0x1_0000_0000
    ensures ReadThumb(Tiff(a, thumb), if thumb == [] then 0 else ThumbAt(a)) == Some(Expected(a, thumb).thumb)
  {
    hide Meanings, ReadDirectory, ThumbAt, GpsAt, ExifAt, Tiff, JpegAt, GpsFields, Ifd0, ExifFields, IntendedFields,
      ThumbFields, Find, FindLong, Representable;
    if thumb != [] {
      ThumbDirectory(a, thumb);
      JpegInPlace(a, thumb);
      ThumbLinks(a, |thumb|);
      AfterHeader(a);
    }
  }

  lemma AfterHeader(a: Attributes)
    requires Representable(a)
    ensures ThumbAt(a) >= ExifAt(a) > 8
  {
  }

  // ----- The main results -----

  lemma {:induction false} MeaningsAt(fs: seq<Field>, i: nat)
    requires i < |fs|
    ensures Meanings(fs)[i] == Meaning(fs[i])
  {
    if i < |fs| - 1 {
      MeaningsAt(fs[..|fs| - 1], i);
    }
  }

  /** The Exif IFD means what the record says exactly if the comment is empty. */
  lemma DetailsExact(a: Attributes)
    requires Representable(a)
    ensures Meanings(ExifFields(a)) == Meanings(IntendedFields(a)) <==> a.userComment[0] == 0
  {
    hide Meanings, Prefixed, StrLen, Meaning;
    var written, intended := ExifFields(a), IntendedFields(a);
    MeaningsAt(written, 15);
    MeaningsAt(intended, 15);
    CommentExact(a);
    assert written[15] == CommentField(a) && intended[15] == IntendedComment(a);
    CommentMeaning(a);
    if a.userComment[0] == 0 {
      EmptyText(a.userComment);
      PixelsKept(a);
      assert PictureFields(Prefixed(a)) == PictureFields(a);
    }
  }

  lemma EmptyText(s: seq<byte>)
    requires s != [] && s[0] == 0
    ensures StrLen(s) == 0
  {
  }

  lemma CommentMeaning(a: Attributes)
    requires Representable(a)
    ensures Meaning(CommentField(a)) == Meaning(IntendedComment(a)) <==> CommentField(a) == IntendedComment(a)
  {
    hide StrLen;
  }

  /** What a reader makes of a TIFF part whose 0th IFD reads back. */
  lemma TiffReads(a: Attributes, thumb: seq<byte>)
    requires Representable(a) && |Tiff(a, thumb)| < 0x1_0000_0000 && AllSpelled(Ifd0(a), ValuesAt(Ifd0(a), 8))
    ensures ReadTiff(Tiff(a, thumb)) == Some(Reading(a, thumb, Meanings(ExifFields(a))))
  {
    hide Block, Holds, ExifFields, IntendedFields, GpsFields, Ifd0, ThumbFields, JpegAt, Tiff, ReadGps, ReadThumb,
      AllSpelled, Meanings, ReadDirectory, FindLong, ThumbAt, GpsAt, ExifAt, Representable;
    TiffStart(a, thumb);
    MainExact(a, thumb);
    MainLinks(a);
    DetailsBack(a, thumb);
    GpsBack(a, thumb);
    ThumbBack(a, thumb);
  }

  lemma TiffStart(a: Attributes, thumb: seq<byte>)
    requires Representable(a) && |Tiff(a, thumb)| < 0x1_0000_0000
    ensures var t := Tiff(a, thumb); |t| >= 8 && t[..4] == TIFF_HEADER[..4] && FromLe4(t[4..8]) == 8
    ensures GpsAt(a) < 0x1_0000_0000 && ExifAt(a) < 0x1_0000_0000
  {
    hide Block, Holds, ExifFields, GpsFields, Ifd0, ThumbFields, JpegAt, Tiff, ThumbAt, GpsAt, ExifAt;
    BlocksInPlace(a, thumb);
    OffsetsInRange(a, thumb);
    assert Tiff(a, thumb)[4..8] == Le4(8) && Tiff(a, thumb)[..4] == TIFF_HEADER[..4];
    Le4RoundTrip(8);
  }

  lemma TiffMisread(a: Attributes, thumb: seq<byte>, details: seq<Entry>)
    requires Representable(a) && |Tiff(a, thumb)| < 0x1_0000_0000 && !AllSpelled(Ifd0(a), ValuesAt(Ifd0(a), 8))
    ensures ReadTiff(Tiff(a, thumb)) != Some(Reading(a, thumb, details))
  {
    hide Block, Holds, ExifFields, IntendedFields, GpsFields, Ifd0, ThumbFields, JpegAt, Tiff, ReadGps, ReadThumb,
      AllSpelled, Meanings, ReadDirectory, FindLong, ThumbAt, GpsAt, ExifAt, Representable;
    TiffStart(a, thumb);
    MainExact(a, thumb);
  }

  /** A TIFF part of less than 4 GB reads back as the record's four directories exactly when the 0th IFD's strings do,
      the Exif IFD being the 22 fields that were written. */
  lemma TiffExact(a: Attributes, thumb: seq<byte>, details: seq<Entry>)
    requires Representable(a) && |Tiff(a, thumb)| < 0x1_0000_0000
    ensures ReadTiff(Tiff(a, thumb)) == Some(Reading(a, thumb, details))
            <==> AllSpelled(Ifd0(a), ValuesAt(Ifd0(a), 8)) && details == Meanings(ExifFields(a))
  {
    hide Tiff, ReadTiff, AllSpelled, Meanings, Ifd0, Representable, ExifFields, GpsFields, ThumbFields;
    if AllSpelled(Ifd0(a), ValuesAt(Ifd0(a), 8)) {
      TiffReads(a, thumb);
    } else {
      TiffMisread(a, thumb, details);
    }
  }

  /** The APP1 segment is exactly the TIFF part up to 65527 bytes; above, its 16-bit length has wrapped. */
  lemma SegmentExact(a: Attributes, thumb: seq<byte>)
    requires Representable(a)
    ensures Segment(File(true, a, thumb)) == Some(Tiff(a, thumb)) <==> |Tiff(a, thumb)| <= 65527
  {
    hide Tiff, Segment;
    SegmentOf(Tiff(a, thumb));
  }

  lemma SegmentOf(t: seq<byte>)
    ensures Segment(Head(true, |t|) + t) == Some(t) <==> |t| <= 65527
    ensures |t| > 65527 && Segment(Head(true, |t|) + t).Some? ==> |Segment(Head(true, |t|) + t).value| < |t|
  {
    HeadParts(t);
    hide Head, Be2, FromBe2;
    var file := Head(true, |t|) + t;
    if |t| <= 65527 {
      assert file[12..|file|] == t;
    }
  }

  lemma HeadParts(t: seq<byte>)
    ensures var file := Head(true, |t|) + t;
      && |Head(true, |t|)| == 12 && file[..2] == SOI && file[2..4] == APP1 && file[6..12] == EXIF_HEADER
      && FromBe2(file[4..6]) == (8 + |t|) % 0x1_0000
  {
    var head := Head(true, |t|);
    var file := head + t;
    assert file[..2] == head[..2] == SOI && file[2..4] == head[2..4] == APP1;
    assert file[4..6] == head[4..6] == Be2(8 + |t|) && file[6..12] == head[6..12] == EXIF_HEADER;
    SizeBytes(8 + |t|);
  }

  lemma SizeBytes(n: nat)
    ensures FromBe2(Be2(n)) == n % 0x1_0000
  {
    OneQuotient(n, 0x1_0000, n / 256 / 256, n / 256 % 256 * 256 + n % 256);
  }

  // ----- When the strings read back -----

  /** A name of at least four characters is long enough to be stored behind an offset. A shorter one reads back
      only if it is the single character that its offset happens to spell. */
  predicate NameReads(name: seq<byte>, offset: nat)
    requires |name| == 32
  {
    StrLen(name) >= 4 || (StrLen(name) == 1 && name[0] == offset)
  }

  /** The maker's, the model's and the software's name, at the offsets their predecessors leave them. */
  predicate NamesRead(a: Attributes)
    requires |a.maker| == |a.model| == |a.software| == 32
  {
    var maker := 14 + IFD_SIZE * Ifd0Count(a);
    var model := maker + StrLen(a.maker) + 1;
    var software := model + StrLen(a.model) + 1;
    NameReads(a.maker, maker) && NameReads(a.model, model) && NameReads(a.software, software)
  }

  lemma NameExact(tag: nat, name: seq<byte>, offset: nat)
    requires |name| == 32 && 0 in name && 0 < offset < 256
    ensures Spelled(Long(tag, ASCII, CString(name)), offset) <==> NameReads(name, offset)
    ensures |CString(name)| == StrLen(name) + 1
  {
    StrLenTerminated(name);
    var n := StrLen(name);
    assert Le4(offset) == [offset, 0, 0, 0];
    if n < 4 {
      assert CString(name)[0] == name[0] && CString(name)[n] == 0;
      if n > 1 {
        assert CString(name)[1] == name[1] != 0 == Le4(offset)[..n + 1][1];
      }
      assert Le4(offset)[..n + 1][0] == offset;
      if n == 1 && name[0] == offset {
        assert CString(name) == Le4(offset)[..2];
      }
    }
  }

  lemma SpelledStep(fs: seq<Field>, i: nat, offset: nat)
    requires i < |fs|
    ensures AllSpelled(fs[..i + 1], offset)
            <==> AllSpelled(fs[..i], offset) && Spelled(fs[i], offset + |Payloads(fs[..i])|)
    ensures |Payloads(fs[..i + 1])| == |Payloads(fs[..i])| + |Payload(fs[i])|
    ensures fs[i].Word? ==> Spelled(fs[i], offset + |Payloads(fs[..i])|) && Payload(fs[i]) == []
    ensures i == 0 ==> AllSpelled(fs[..i], offset) && Payloads(fs[..i]) == []
  {
    assert fs[..i + 1][..i] == fs[..i];
    hide Payload;
  }

  lemma MainSpelled(a: Attributes)
    requires Representable(a)
    ensures AllSpelled(Ifd0(a), ValuesAt(Ifd0(a), 8)) <==> NamesRead(a)
  {
    hide AllSpelled, Payloads, StrLen, Spelled, ExifAt, GpsAt, CString, NameReads, BlockSize;
    var fs, base := Ifd0(a), ValuesAt(Ifd0(a), 8);
    var model := base + StrLen(a.maker) + 1;
    var software := model + StrLen(a.model) + 1;
    HeadSpelled(a, fs, base);
    SpelledStep(fs, 6, base);
    assert Spelled(fs[6], software + StrLen(a.software) + 1) by {
      SpelledAll([fs[6]], software + StrLen(a.software) + 1);
      SpelledStep([fs[6]], 0, software + StrLen(a.software) + 1);
    }
    SpelledStep(fs, 7, base);
    SpelledStep(fs, 8, base);
    if a.enableGps {
      SpelledStep(fs, 9, base);
      assert fs[..10] == fs;
    } else {
      assert fs[..9] == fs;
    }
  }

  lemma MakerModelSpelled(a: Attributes, fs: seq<Field>, base: nat)
    requires Representable(a) && fs == Ifd0(a) && base == ValuesAt(fs, 8)
    ensures AllSpelled(fs[..4], base) <==> NameReads(a.maker, base) && NameReads(a.model, base + StrLen(a.maker) + 1)
    ensures |Payloads(fs[..4])| == StrLen(a.maker) + StrLen(a.model) + 2
  {
    hide AllSpelled, Payloads, StrLen, Spelled, ExifAt, GpsAt, CString, NameReads;
    NameExact(0x010F, a.maker, base);
    NameExact(0x0110, a.model, base + StrLen(a.maker) + 1);
    SpelledStep(fs, 0, base);
    SpelledStep(fs, 1, base);
    SpelledStep(fs, 2, base);
    SpelledStep(fs, 3, base);
  }

  lemma HeadSpelled(a: Attributes, fs: seq<Field>, base: nat)
    requires Representable(a) && fs == Ifd0(a) && base == ValuesAt(fs, 8)
    ensures AllSpelled(fs[..6], base) <==> NamesRead(a)
    ensures |Payloads(fs[..6])| == StrLen(a.maker) + StrLen(a.model) + StrLen(a.software) + 3
  {
    hide AllSpelled, Payloads, StrLen, Spelled, ExifAt, GpsAt, CString, NameReads;
    MakerModelSpelled(a, fs, base);
    NameExact(0x0131, a.software, base + StrLen(a.maker) + StrLen(a.model) + 2);
    SpelledStep(fs, 4, base);
    SpelledStep(fs, 5, base);
  }

  lemma {:induction false} PayloadBound(fs: seq<Field>)
    requires forall i :: 0 <= i < |fs| ==> |Payload(fs[i])| <= 108
    ensures |Payloads(fs)| <= 108 * |fs|
  {
    hide Payload;
    if fs != [] {
      PayloadBound(fs[..|fs| - 1]);
      assert |Payload(fs[|fs| - 1])| <= 108;
    }
  }

  lemma HeadBound(a: Attributes)
    requires Representable(a)
    ensures |Payloads(Ifd0Head(a))| <= 864 && |Payloads(GpsFields(a))| <= 1080
  {
    hide Payloads, StrLen;
    PayloadBound(Ifd0Head(a));
    PayloadBound(GpsFields(a));
  }

  lemma DetailsBound(a: Attributes)
    requires Representable(a)
    ensures |Payloads(ExifFields(a))| <= 2376
  {
    hide Payloads, StrLen, Prefixed;
    PayloadBound(ExifFields(a));
  }

  /** Without a thumbnail the file is far below any limit. */
  lemma FrontBound(a: Attributes)
    requires Representable(a)
    ensures ThumbAt(a) < 8192
  {
    HeadBound(a);
    DetailsBound(a);
    hide Payloads, StrLen, ExifFields, GpsFields, Ifd0Head;
  }

  /** A segment cut short by the wrapped length does not read back. */
  lemma CutShort(a: Attributes, thumb: seq<byte>, t: seq<byte>, details: seq<Entry>)
    requires Representable(a) && thumb != [] && |t| < |Tiff(a, thumb)| < 0x1_0000_0000
    ensures ReadTiff(t) != Some(Reading(a, thumb, details))
  {
    hide Meanings, ReadDirectory, ThumbAt, GpsAt, ExifAt, Tiff, JpegAt,
      GpsFields, Ifd0, ThumbFields, Find, FindLong, ReadGps;
    OffsetsInRange(a, thumb);
    TiffSize(a, thumb);
    ThumbLinks(a, |thumb|);
  }

  /** The file reads back as the record's four directories if and only if its TIFF part is at most 65527 bytes long and
      the three names are ones that read back, as all of four characters or more are; and then the Exif IFD is the 22
      fields that were written. */
  lemma FileExact(a: Attributes, thumb: seq<byte>, details: seq<Entry>)
    requires Representable(a) && |Tiff(a, thumb)| < 0x1_0000_0000
    ensures Read(File(true, a, thumb)) == Some(Reading(a, thumb, details))
            <==> |Tiff(a, thumb)| <= 65527 && NamesRead(a) && details == Meanings(ExifFields(a))
  {
    hide Tiff, File, Reading, Segment, ReadTiff, NamesRead, AllSpelled, Ifd0, ThumbAt, Meanings, ExifFields;
    SegmentExact(a, thumb);
    TiffExact(a, thumb, details);
    MainSpelled(a);
    var segment := Segment(File(true, a, thumb));
    if |Tiff(a, thumb)| > 65527 && segment.Some? {
      SegmentShort(a, thumb);
      FrontBound(a);
      TiffSize(a, thumb);
      CutShort(a, thumb, segment.value, details);
    }
  }

  /** It reads back as the attribute record if and only if, beyond that, there is no comment. */
  lemma RoundTrip(a: Attributes, thumb: seq<byte>)
    requires Representable(a) && |Tiff(a, thumb)| < 0x1_0000_0000
    ensures Read(File(true, a, thumb)) == Some(Expected(a, thumb))
            <==> |Tiff(a, thumb)| <= 65527 && NamesRead(a) && a.userComment[0] == 0
  {
    hide Tiff, File, Reading, Read, NamesRead, Meanings, ExifFields, IntendedFields;
    FileExact(a, thumb, Meanings(IntendedFields(a)));
    DetailsExact(a);
  }

  /** A thumbnail that makes the TIFF part one byte longer than that is kept, and makes the file unreadable, whatever
      the Exif IFD is taken for. */
  lemma LengthWraps(a: Attributes, thumb: seq<byte>)
    requires Representable(a) && a.enableThumb && thumb != [] && JpegAt(a) + |thumb| == 65528
    ensures Kept(a, thumb) == thumb
    ensures forall details :: Read(File(true, a, thumb)) != Some(Reading(a, thumb, details))
  {
    hide Tiff, File, Reading, Read, JpegAt, NamesRead, Meanings, ExifFields;
    TiffSize(a, thumb);
    forall details ensures Read(File(true, a, thumb)) != Some(Reading(a, thumb, details)) {
      FileExact(a, thumb, details);
    }
  }

  /** A maker of two letters does not read back. */
  lemma ShortMaker(a: Attributes)
    requires Representable(a) && a.maker[..3] == [0x41, 0x42, 0x00]
    ensures forall details :: Read(File(true, a, [])) != Some(Reading(a, [], details))
  {
    hide File, Reading, Read, Representable, Meanings, ExifFields;
    assert |a.maker| == 32 by {
      MakerSize(a);
    }
    assert a.maker[1..][1..][0] == a.maker[..3][2];
    assert a.maker[1..][0] == a.maker[..3][1] && a.maker[0] == a.maker[..3][0];
    assert StrLen(a.maker) == 2;
    SmallTiff(a);
    forall details ensures Read(File(true, a, [])) != Some(Reading(a, [], details)) {
      FileExact(a, [], details);
    }
  }

  /** No comment of any length reads back: what reads back in its place is the code and the first byte. */
  lemma CommentLost(a: Attributes, thumb: seq<byte>)
    requires Representable(a) && a.userComment[0] != 0 && |Tiff(a, thumb)| < 0x1_0000_0000
    ensures Read(File(true, a, thumb)) != Some(Expected(a, thumb))
    ensures ExifFields(a)[15] == Long(0x9286, UNDEFINED, COMMENT_CODE + [a.userComment[0]])
  {
    hide File, Expected, Read, Tiff, NamesRead, StrLen, Representable, ExifFields;
    RoundTrip(a, thumb);
    CommentStored(a);
  }

  lemma CommentStored(a: Attributes)
    requires Representable(a)
    ensures ExifFields(a)[15] == Long(0x9286, UNDEFINED, COMMENT_CODE + [a.userComment[0]])
  {
    hide StrLen, Prefixed, PictureFields;
    assert ExifFields(a)[15] == CommentField(a);
  }

  /** The one every record is set up with, for instance: of its text only the U is stored. */
  lemma DefaultComment(a: Attributes)
    requires Representable(a) && a.userComment[..5] == [0x55, 0x73, 0x65, 0x72, 0x20]
    ensures Read(File(true, a, [])) != Some(Expected(a, []))
    ensures ExifFields(a)[15] == Long(0x9286, UNDEFINED, COMMENT_CODE + [0x55])
  {
    assert a.userComment[0] == a.userComment[..5][0];
    SmallTiff(a);
    hide File, Expected, Read, Tiff, Representable, ExifFields;
    CommentLost(a, []);
  }

  lemma SmallTiff(a: Attributes)
    requires Representable(a)
    ensures |Tiff(a, [])| < 8192
  {
    hide Tiff, ThumbAt;
    FrontBound(a);
    TiffSize(a, []);
  }

  lemma MakerSize(a: Attributes)
    requires Representable(a)
    ensures |a.maker| == |a.model| == |a.software| == 32
  {
  }

  lemma SegmentShort(a: Attributes, thumb: seq<byte>)
    requires Representable(a) && |Tiff(a, thumb)| > 65527 && Segment(File(true, a, thumb)).Some?
    ensures |Segment(File(true, a, thumb)).value| < |Tiff(a, thumb)|
  {
    hide Tiff, Segment;
    SegmentOf(Tiff(a, thumb));
  }

  // ----- Other exact results -----

  lemma DetailsFlagFree(a: Attributes)
    requires Representable(a)
    ensures var off := a.(enableThumb := false); Representable(off) && ExifFields(off) == ExifFields(a)
  {
    hide StrLen, Le4, FromLe4;
    var off := a.(enableThumb := false);
    assert Prefixed(off).width == Prefixed(a).width && Prefixed(off).height == Prefixed(a).height;
  }

  lemma PlacesFlagFree(a: Attributes)
    requires Representable(a)
    ensures var off := a.(enableThumb := false);
      && Representable(off) && ExifAt(off) == ExifAt(a) && GpsAt(off) == GpsAt(a)
      && Ifd0(off) == Ifd0(a) && GpsFields(off) == GpsFields(a)
  {
    DetailsFlagFree(a);
    hide Payloads, StrLen, CString, ExifFields, BlockSize;
    var off := a.(enableThumb := false);
    assert Ifd0Head(off) == Ifd0Head(a);
  }

  lemma ThumbFlagFree(a: Attributes)
    requires Representable(a)
    ensures var off := a.(enableThumb := false); Representable(off) && TiffFront(off, 0) == TiffFront(a, 0)
  {
    DetailsFlagFree(a);
    PlacesFlagFree(a);
    hide Payloads, Block, ExifFields, GpsFields, Ifd0, ExifAt, GpsAt, Representable;
  }

  /** When the thumbnail does not fit, the file is the one a record without a thumbnail gives. */
  lemma Fallback(hasDst: bool, a: Attributes, thumb: seq<byte>)
    requires Representable(a) && |Tiff(a, thumb)| > EXIF_LIMIT_SIZE
    ensures var off := a.(enableThumb := false);
            Representable(off) && File(hasDst, a, Kept(a, thumb)) == File(hasDst, off, Kept(off, thumb))
  {
    ThumbFlagFree(a);
    hide Representable, TiffFront, Head;
  }

  /** Serializing the same record again loses the comment: what it stores is the same only for an empty one. */
  lemma SecondRun(a: Attributes)
    requires Representable(a)
    ensures var again := Prefixed(a);
      && Representable(again)
      && (ExifFields(again) == ExifFields(a) <==> a.userComment[0] == 0)
  {
    var again := Prefixed(a);
    hide Prefixed;
    assert CommentField(again).bytes[8] == 0 && CommentField(a).bytes[8] == a.userComment[0];
    assert ExifFields(a)[15] == CommentField(a) && ExifFields(again)[15] == CommentField(again);
    if a.userComment[0] == 0 {
      EmptyText(a.userComment);
      PixelsKept(a);
      PixelsKept(again);
      assert a.userComment[..1] == [0] == again.userComment[..1];
      assert PictureFields(Prefixed(again)) == PictureFields(Prefixed(a));
    }
  }
}
