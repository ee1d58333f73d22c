/**
 What a reader finds under each tag of a written file: the tag numbers, types and counts are those of Exif 2.2,
 sections 4.6.4 to 4.6.6 (tables 4, 5, 7 and 12), and the values are decoded here, not by the layout's own functions.
 */
module ExifTags {
  import opened Bytes
  import opened ExifTiff
  import opened ExifLayout
  import opened ExifReader
  import opened Options

  // ----- Decoding a value -----

  /** A number, lowest byte first. */
  function Unsigned(b: seq<byte>): nat {
    if b == [] then 0 else b[0] as int + 256 * Unsigned(b[1..])
  }

  /** Numerators and denominators in turn. */
  function Ratios(b: seq<byte>): seq<(nat, nat)> {
    if |b| < 8 then [] else [(Unsigned(b[..4]), Unsigned(b[4..8]))] + Ratios(b[8..])
  }

  predicate HasNumber(es: seq<Entry>, tag: nat, typ: nat, value: nat) {
    match Find(es, tag)
    case Some(e) => e.typ == typ && e.count == 1 && |e.value| == TypeSize(typ) && Unsigned(e.value) == value
    case None => false
  }

  predicate HasBytes(es: seq<Entry>, tag: nat, typ: nat, value: seq<byte>) {
    match Find(es, tag)
    case Some(e) => e.typ == typ && e.count == |value| && e.value == value
    case None => false
  }

  /** A name of four characters or more, with its terminator. */
  predicate HasName(es: seq<Entry>, tag: nat, name: seq<byte>) {
    4 <= StrLen(name) < |name| ==> HasBytes(es, tag, 2, name[..StrLen(name) + 1])
  }

  predicate HasRatios(es: seq<Entry>, tag: nat, typ: nat, values: seq<Rational>) {
    match Find(es, tag)
    case Some(e) =>
      && e.typ == typ && e.count == |values| && |Ratios(e.value)| == |values|
      && forall i | 0 <= i < |values| :: Ratios(e.value)[i] == (values[i].num, values[i].den)
    case None => false
  }

  predicate HasRatio(es: seq<Entry>, tag: nat, typ: nat, value: Rational) {
    HasRatios(es, tag, typ, [value])
  }

  lemma UnsignedTail(b: seq<byte>, i: nat)
    requires i < |b|
    ensures Unsigned(b[i..]) == b[i] as int + 256 * Unsigned(b[i + 1..])
    ensures b[0..] == b && Unsigned(b[|b|..]) == 0
  {
    assert b[i..][1..] == b[i + 1..];
  }

  lemma UnsignedFour(b: seq<byte>)
    requires |b| == 4
    ensures Unsigned(b) == FromLe4(b)
  {
    hide Unsigned;
    UnsignedTail(b, 0);
    UnsignedTail(b, 1);
    UnsignedTail(b, 2);
    UnsignedTail(b, 3);
  }

  lemma UnsignedTwo(b: seq<byte>)
    requires |b| == 2
    ensures Unsigned(b) == b[0] as int + 256 * b[1] as int
  {
    hide Unsigned;
    UnsignedTail(b, 0);
    UnsignedTail(b, 1);
  }

  lemma UnsignedWord(v: nat, n: nat)
    requires v < 0x1_0000_0000 && (n == 4 || (n == 2 && v < 0x1_0000) || (n == 1 && v < 0x100))
    ensures Unsigned(Le4(v)[..n]) == v
  {
    if n == 4 {
      assert Le4(v)[..4] == Le4(v);
      UnsignedFour(Le4(v));
      Le4RoundTrip(v);
    } else if n == 2 {
      UnsignedTwo(Le4(v)[..2]);
    } else {
      UnsignedTail(Le4(v)[..1], 0);
    }
  }

  lemma {:induction false} RatiosAt(rs: seq<Rational>)
    ensures |Ratios(RatioBytes(rs))| == |rs|
    ensures forall i | 0 <= i < |rs| :: Ratios(RatioBytes(rs))[i] == (rs[i].num, rs[i].den)
  {
    hide Le4, FromLe4, Unsigned;
    if rs != [] {
      var front, last := rs[..|rs| - 1], rs[|rs| - 1];
      RatiosAt(front);
      var n, d := Le4(last.num), Le4(last.den);
      assert RatioBytes(rs) == RatioBytes(front) + (n + d);
      RatiosAppend(RatioBytes(front), |front|, n + d);
      assert (n + d)[..4] == n && (n + d)[4..8] == d && (n + d)[8..] == [];
      UnsignedFour(n);
      UnsignedFour(d);
      Le4RoundTrip(last.num);
      Le4RoundTrip(last.den);
      assert Ratios(n + d) == [(last.num as nat, last.den as nat)];
    }
  }

  lemma {:induction false} RatiosAppend(x: seq<byte>, n: nat, y: seq<byte>)
    requires |x| == 8 * n
    ensures Ratios(x + y) == Ratios(x) + Ratios(y)
    decreases n
  {
    hide Unsigned;
    if n == 0 {
      assert x + y == y;
    } else {
      assert (x + y)[..4] == x[..4] && (x + y)[4..8] == x[4..8] && (x + y)[8..] == x[8..] + y;
      RatiosAppend(x[8..], n - 1, y);
    }
  }

  // ----- Fields under their tags -----

  /** TIFF 6.0, section 2: the entries of an IFD stand in ascending order of their tags. */
  ghost predicate Ascending(fs: seq<Field>) {
    forall i, j | 0 <= i < j < |fs| :: fs[i].tag < fs[j].tag
  }

  /** Entries that were read for these fields: each under its tag, and each that is not too short for its offset with
      its meaning. */
  ghost predicate Close(es: seq<Entry>, fs: seq<Field>) {
    && |es| == |fs|
    && (forall i | 0 <= i < |fs| :: es[i].tag == fs[i].tag)
    && forall i | 0 <= i < |fs| && LongIsLong(fs[i]) :: es[i] == Meaning(fs[i])
  }

  lemma {:induction false} FindTag(es: seq<Entry>, k: nat)
    requires k < |es| && forall i | k < i < |es| :: es[i].tag != es[k].tag
    ensures Find(es, es[k].tag) == Some(es[k])
  {
    if k < |es| - 1 {
      FindTag(es[..|es| - 1], k);
    }
  }

  lemma FindField(es: seq<Entry>, fs: seq<Field>, k: nat)
    requires Ascending(fs) && Close(es, fs) && k < |fs| && LongIsLong(fs[k])
    ensures Find(es, fs[k].tag) == Some(Meaning(fs[k]))
  {
    hide LongIsLong, Meaning;
    FindTag(es, k);
  }

  lemma NumberThere(es: seq<Entry>, fs: seq<Field>, k: nat, tag: nat, typ: nat, value: nat)
    requires Ascending(fs) && Close(es, fs) && k < |fs| && fs[k] == Word(tag, typ, 1, value)
    requires value < 0x1_0000_0000
    requires typ == 4 || (typ == 3 && value < 0x1_0000) || (typ == 1 && value < 0x100)
    ensures HasNumber(es, tag, typ, value)
  {
    FindField(es, fs, k);
    UnsignedWord(value, TypeSize(typ));
  }

  lemma BytesThere(es: seq<Entry>, fs: seq<Field>, k: nat, tag: nat, typ: nat, value: seq<byte>)
    requires Ascending(fs) && Close(es, fs) && k < |fs|
    requires fs[k] == Short(tag, typ, value) || (fs[k] == Long(tag, typ, value) && |value| > 4)
    ensures HasBytes(es, tag, typ, value)
  {
    FindField(es, fs, k);
  }

  lemma RatiosThere(es: seq<Entry>, fs: seq<Field>, k: nat, tag: nat, typ: nat, values: seq<Rational>)
    requires Ascending(fs) && Close(es, fs) && k < |fs| && fs[k] == Ratio(tag, typ, values)
    ensures HasRatios(es, tag, typ, values)
  {
    FindField(es, fs, k);
    RatiosAt(values);
  }

  lemma {:induction false} MeaningsClose(fs: seq<Field>)
    ensures Close(Meanings(fs), fs)
  {
    forall i | 0 <= i < |fs| ensures Meanings(fs)[i] == Meaning(fs[i]) {
      MeaningsAt(fs, i);
    }
  }

  lemma MainAscending(a: Attributes)
    requires Representable(a)
    ensures Ascending(Ifd0(a))
  {
    hide StrLen, GpsAt, ExifAt;
  }

  /** The 0th IFD, however its three names are read. */
  lemma MainTags(a: Attributes, es: seq<Entry>)
    requires Representable(a) && GpsAt(a) < 0x1_0000_0000 && Close(es, Ifd0(a))
    ensures HasNumber(es, 0x0100, 4, a.width) && HasNumber(es, 0x0101, 4, a.height)
    ensures HasNumber(es, 0x0112, 3, a.orientation) && HasNumber(es, 0x0213, 3, a.ycbcrPositioning)
    ensures HasBytes(es, 0x0132, 2, a.dateTime)
  {
    MainAscending(a);
    hide StrLen, GpsAt, ExifAt, Close, HasNumber, HasBytes, Ascending;
    var fs := Ifd0(a);
    NumberThere(es, fs, 0, 0x0100, 4, a.width);
    NumberThere(es, fs, 1, 0x0101, 4, a.height);
    NumberThere(es, fs, 4, 0x0112, 3, a.orientation);
    BytesThere(es, fs, 6, 0x0132, 2, a.dateTime);
    NumberThere(es, fs, 7, 0x0213, 3, a.ycbcrPositioning);
  }

  lemma NameThere(es: seq<Entry>, fs: seq<Field>, k: nat, tag: nat, name: seq<byte>)
    requires Ascending(fs) && Close(es, fs) && k < |fs| && fs[k] == Long(tag, ASCII, CString(name)) && 0 in name
    ensures HasName(es, tag, name)
  {
    StrLenTerminated(name);
    hide StrLen, HasBytes, Close, Ascending;
    if StrLen(name) >= 4 {
      BytesThere(es, fs, k, tag, 2, name[..StrLen(name) + 1]);
    }
  }

  lemma NamesIn(a: Attributes)
    requires Representable(a)
    ensures var fs := Ifd0(a);
      && fs[2] == Long(0x010F, ASCII, CString(a.maker)) && fs[3] == Long(0x0110, ASCII, CString(a.model))
      && fs[5] == Long(0x0131, ASCII, CString(a.software))
      && 0 in a.maker && 0 in a.model && 0 in a.software
  {
    hide StrLen, CString, GpsAt, ExifAt;
  }

  /** The three names, if they have four characters or more. */
  lemma NameTags(a: Attributes, es: seq<Entry>)
    requires Representable(a) && Close(es, Ifd0(a))
    ensures HasName(es, 0x010F, a.maker)
    ensures HasName(es, 0x0110, a.model)
    ensures HasName(es, 0x0131, a.software)
  {
    MainAscending(a);
    NamesIn(a);
    hide StrLen, CString, Ifd0, Close, HasBytes, HasName, Ascending, Representable;
    NameThere(es, Ifd0(a), 2, 0x010F, a.maker);
    NameThere(es, Ifd0(a), 3, 0x0110, a.model);
    NameThere(es, Ifd0(a), 5, 0x0131, a.software);
  }

  lemma DetailsAscending(a: Attributes)
    requires Representable(a)
    ensures Ascending(ExifFields(a))
  {
    hide StrLen, Prefixed;
  }

  lemma PartsIn(a: Attributes)
    requires |a.userComment| == 150 && StrLen(a.userComment) < 150
    ensures var fs, p, q := ExifFields(a), ExposureFields(a), ApexFields(a);
      && fs[0] == p[0] && fs[1] == p[1] && fs[2] == p[2] && fs[3] == p[3] && fs[4] == p[4] && fs[5] == p[5]
      && fs[6] == p[6] && fs[7] == q[0] && fs[8] == q[1] && fs[9] == q[2] && fs[10] == q[3] && fs[11] == q[4]
      && fs[12] == q[5] && fs[13] == q[6] && fs[14] == q[7]
  {
    hide StrLen, Prefixed;
  }

  /** The Exif IFD. The comment is its code and one byte; the pixel dimensions are those behind the moved comment. */
  lemma ExposureTags(a: Attributes, es: seq<Entry>)
    requires Representable(a) && Close(es, ExifFields(a))
    ensures HasRatio(es, 0x829A, 5, a.exposureTime) && HasRatio(es, 0x829D, 5, a.fnumber)
    ensures HasNumber(es, 0x8822, 3, a.exposureProgram) && HasNumber(es, 0x8827, 3, a.isoSpeedRating)
  {
    DetailsAscending(a);
    PartsIn(a);
    hide StrLen, Close, Ascending, HasNumber, HasBytes, HasRatios, ExifFields;
    var fs := ExifFields(a);
    RatiosThere(es, fs, 0, 0x829A, 5, [a.exposureTime]);
    RatiosThere(es, fs, 1, 0x829D, 5, [a.fnumber]);
    NumberThere(es, fs, 2, 0x8822, 3, a.exposureProgram);
    NumberThere(es, fs, 3, 0x8827, 3, a.isoSpeedRating);
  }

  lemma DateTags(a: Attributes, es: seq<Entry>)
    requires Representable(a) && Close(es, ExifFields(a))
    ensures HasBytes(es, 0x9000, 7, a.exifVersion)
    ensures HasBytes(es, 0x9003, 2, a.dateTime) && HasBytes(es, 0x9004, 2, a.dateTime)
  {
    DetailsAscending(a);
    PartsIn(a);
    hide StrLen, Close, Ascending, HasNumber, HasBytes, HasRatios, ExifFields;
    var fs := ExifFields(a);
    BytesThere(es, fs, 4, 0x9000, 7, a.exifVersion);
    BytesThere(es, fs, 5, 0x9003, 2, a.dateTime);
    BytesThere(es, fs, 6, 0x9004, 2, a.dateTime);
  }

  lemma ApexTags(a: Attributes, es: seq<Entry>)
    requires Representable(a) && Close(es, ExifFields(a))
    ensures HasRatio(es, 0x9201, 10, a.shutterSpeed) && HasRatio(es, 0x9202, 5, a.aperture)
    ensures HasRatio(es, 0x9203, 10, a.brightness) && HasRatio(es, 0x9204, 10, a.exposureBias)
    ensures HasRatio(es, 0x9205, 5, a.maxAperture)
  {
    DetailsAscending(a);
    PartsIn(a);
    hide StrLen, Close, Ascending, HasNumber, HasBytes, HasRatios, ExifFields;
    var fs := ExifFields(a);
    RatiosThere(es, fs, 7, 0x9201, 10, [a.shutterSpeed]);
    RatiosThere(es, fs, 8, 0x9202, 5, [a.aperture]);
    RatiosThere(es, fs, 9, 0x9203, 10, [a.brightness]);
    RatiosThere(es, fs, 10, 0x9204, 10, [a.exposureBias]);
    RatiosThere(es, fs, 11, 0x9205, 5, [a.maxAperture]);
  }

  lemma LightTags(a: Attributes, es: seq<Entry>)
    requires Representable(a) && Close(es, ExifFields(a))
    ensures HasNumber(es, 0x9207, 3, a.meteringMode) && HasNumber(es, 0x9209, 3, a.flash)
    ensures HasRatio(es, 0x920A, 5, a.focalLength)
  {
    DetailsAscending(a);
    PartsIn(a);
    hide StrLen, Close, Ascending, HasNumber, HasBytes, HasRatios, ExifFields;
    var fs := ExifFields(a);
    NumberThere(es, fs, 12, 0x9207, 3, a.meteringMode);
    NumberThere(es, fs, 13, 0x9209, 3, a.flash);
    RatiosThere(es, fs, 14, 0x920A, 5, [a.focalLength]);
  }

  lemma PictureTags(a: Attributes, es: seq<Entry>)
    requires Representable(a) && Close(es, ExifFields(a))
    ensures HasBytes(es, 0x9286, 7, [0, 0, 0, 0x49, 0x49, 0x43, 0x53, 0x41, a.userComment[0]])
    ensures HasNumber(es, 0xA001, 3, a.colorSpace)
    ensures StrLen(a.userComment) <= 141 ==> HasNumber(es, 0xA002, 4, a.width) && HasNumber(es, 0xA003, 4, a.height)
    ensures HasNumber(es, 0xA402, 4, a.exposureMode) && HasNumber(es, 0xA403, 4, a.whiteBalance)
    ensures HasNumber(es, 0xA406, 4, a.sceneCaptureType)
  {
    DetailsAscending(a);
    PixelsKept(a);
    hide StrLen, Close, Ascending, HasNumber, HasBytes, HasRatios, Prefixed;
    var fs, b := ExifFields(a), Prefixed(a);
    BytesThere(es, fs, 15, 0x9286, 7, [0, 0, 0, 0x49, 0x49, 0x43, 0x53, 0x41, a.userComment[0]]);
    NumberThere(es, fs, 16, 0xA001, 3, a.colorSpace);
    NumberThere(es, fs, 17, 0xA002, 4, b.width);
    NumberThere(es, fs, 18, 0xA003, 4, b.height);
    NumberThere(es, fs, 19, 0xA402, 4, a.exposureMode);
    NumberThere(es, fs, 20, 0xA403, 4, a.whiteBalance);
    NumberThere(es, fs, 21, 0xA406, 4, a.sceneCaptureType);
  }

  lemma GpsAscending(a: Attributes)
    ensures Ascending(GpsFields(a))
  {
    hide StrLen;
  }

  /** The GPS IFD. */
  lemma PlaceTags(a: Attributes, es: seq<Entry>)
    requires Representable(a) && Close(es, GpsFields(a))
    ensures HasBytes(es, 0x0001, 2, a.gpsLatitudeRef) && HasRatios(es, 0x0002, 5, a.gpsLatitude)
    ensures HasBytes(es, 0x0003, 2, a.gpsLongitudeRef) && HasRatios(es, 0x0004, 5, a.gpsLongitude)
    ensures HasNumber(es, 0x0005, 1, a.gpsAltitudeRef) && HasRatio(es, 0x0006, 5, a.gpsAltitude)
  {
    GpsAscending(a);
    hide StrLen, Close, HasNumber, HasBytes, HasRatios, Find, Ascending;
    var fs := GpsFields(a);
    BytesThere(es, fs, 1, 0x0001, 2, a.gpsLatitudeRef);
    RatiosThere(es, fs, 2, 0x0002, 5, a.gpsLatitude);
    BytesThere(es, fs, 3, 0x0003, 2, a.gpsLongitudeRef);
    RatiosThere(es, fs, 4, 0x0004, 5, a.gpsLongitude);
    NumberThere(es, fs, 5, 0x0005, 1, a.gpsAltitudeRef);
    RatiosThere(es, fs, 6, 0x0006, 5, [a.gpsAltitude]);
  }

  lemma FixTags(a: Attributes, es: seq<Entry>)
    requires Representable(a) && Close(es, GpsFields(a))
    ensures HasBytes(es, 0x0000, 1, a.gpsVersionId)
    ensures HasRatios(es, 0x0007, 5, a.gpsTimestamp) && HasBytes(es, 0x001D, 2, a.gpsDatestamp)
    ensures var n := StrLen(a.gpsProcessingMethod);
            if n == 0 then Find(es, 0x001B) == None
            else HasBytes(es, 0x001B, 7, [0x41, 0x53, 0x43, 0x49, 0x49, 0, 0, 0] + a.gpsProcessingMethod[..n])
  {
    GpsAscending(a);
    hide StrLen, Close, HasNumber, HasBytes, HasRatios, Find, Ascending;
    var fs := GpsFields(a);
    BytesThere(es, fs, 0, 0x0000, 1, a.gpsVersionId);
    RatiosThere(es, fs, 7, 0x0007, 5, a.gpsTimestamp);
    BytesThere(es, fs, |fs| - 1, 0x001D, 2, a.gpsDatestamp);
    var n := StrLen(a.gpsProcessingMethod);
    if n == 0 {
      NotThere(es, fs, 0x001B);
    } else {
      BytesThere(es, fs, 8, 0x001B, 7, [0x41, 0x53, 0x43, 0x49, 0x49, 0, 0, 0] + a.gpsProcessingMethod[..n]);
    }
  }

  lemma NotThere(es: seq<Entry>, fs: seq<Field>, tag: nat)
    requires Close(es, fs) && forall i | 0 <= i < |fs| :: fs[i].tag != tag
    ensures Find(es, tag) == None
  {
    FindNone(es, tag);
  }

  lemma {:induction false} FindNone(es: seq<Entry>, tag: nat)
    requires forall i | 0 <= i < |es| :: es[i].tag != tag
    ensures Find(es, tag) == None
  {
    if es != [] {
      FindNone(es[..|es| - 1], tag);
    }
  }

  /** The IFD of the thumbnail. */
  lemma ThumbTags(a: Attributes, size: nat, es: seq<Entry>)
    requires Representable(a) && JpegAt(a) < 0x1_0000_0000 && size < 0x1_0000_0000 && Close(es, ThumbFields(a, size))
    ensures HasNumber(es, 0x0100, 4, a.widthThumb) && HasNumber(es, 0x0101, 4, a.heightThumb)
    ensures HasNumber(es, 0x0103, 3, a.compressionScheme) && HasNumber(es, 0x0112, 3, a.orientation)
    ensures HasRatio(es, 0x011A, 5, a.xResolution) && HasRatio(es, 0x011B, 5, a.yResolution)
    ensures HasNumber(es, 0x0128, 3, a.resolutionUnit) && HasNumber(es, 0x0202, 4, size)
  {
    hide JpegAt, Close, HasNumber, HasBytes, HasRatios, StrLen;
    var fs := ThumbFields(a, size);
    assert Ascending(fs);
    hide Ascending;
    NumberThere(es, fs, 0, 0x0100, 4, a.widthThumb);
    NumberThere(es, fs, 1, 0x0101, 4, a.heightThumb);
    NumberThere(es, fs, 2, 0x0103, 3, a.compressionScheme);
    NumberThere(es, fs, 3, 0x0112, 3, a.orientation);
    RatiosThere(es, fs, 4, 0x011A, 5, [a.xResolution]);
    RatiosThere(es, fs, 5, 0x011B, 5, [a.yResolution]);
    NumberThere(es, fs, 6, 0x0128, 3, a.resolutionUnit);
    NumberThere(es, fs, 8, 0x0202, 4, size);
  }

  // ----- What is read at all is read close to the record -----

  lemma ReadEntryClose(t: seq<byte>, at: nat, f: Field, offset: nat)
    requires Typed(f) && Holds(t, at, EntryBytes(f, offset))
    requires offset < 0x1_0000_0000 && Holds(t, offset, Payload(f))
    ensures ReadEntry(t, at).Some? && ReadEntry(t, at).value.tag == f.tag
    ensures LongIsLong(f) ==> ReadEntry(t, at).value == Meaning(f)
  {
    hide EntryBytes, ReadEntry, Payload, ValueSize, Seen, Holds;
    SeenExact(f, offset);
    ReadsSlot(t, at, f, offset, ValueSize(f));
    ReadEntryExact(t, at, f, offset);
  }

  lemma {:induction false} ReadEntriesClose(t: seq<byte>, at: nat, fs: seq<Field>, offset: nat)
    requires AllWritable(fs) && AllTyped(fs) && |t| < 0x1_0000_0000
    requires Holds(t, at, Entries(fs, offset)) && Holds(t, offset, Payloads(fs))
    ensures ReadEntries(t, at, |fs|).Some? && Close(ReadEntries(t, at, |fs|).value, fs)
  {
    hide Holds, Entries, Payloads, Typed, EntryBytes, ReadEntry, Meaning, Payload, AllTyped, LongIsLong;
    if fs != [] {
      var front, last := fs[..|fs| - 1], fs[|fs| - 1];
      LastEntryParts(t, at, fs, offset);
      ReadEntriesClose(t, at, front, offset);
      ReadEntryClose(t, at + IFD_SIZE * |front|, last, offset + |Payloads(front)|);
      CloseMore(ReadEntries(t, at, |front|).value, ReadEntry(t, at + IFD_SIZE * |front|).value, fs);
    }
  }

  lemma CloseMore(es: seq<Entry>, e: Entry, fs: seq<Field>)
    requires fs != [] && Close(es, fs[..|fs| - 1]) && e.tag == fs[|fs| - 1].tag
    requires LongIsLong(fs[|fs| - 1]) ==> e == Meaning(fs[|fs| - 1])
    ensures Close(es + [e], fs)
  {
    hide LongIsLong, Meaning;
    var front := fs[..|fs| - 1];
    forall i | 0 <= i < |fs| ensures i < |front| ==> fs[i] == front[i] {
    }
  }

  lemma ReadBlockClose(t: seq<byte>, at: nat, fs: seq<Field>, next: nat)
    requires AllWritable(fs) && AllTyped(fs)
    requires |t| < 0x1_0000_0000 && |fs| < 0x1_0000 && next < 0x1_0000_0000
    requires Holds(t, at, Block(fs, at, next))
    ensures ReadDirectory(t, at).Some? && ReadDirectory(t, at).value.next == next
    ensures Close(ReadDirectory(t, at).value.entries, fs)
  {
    hide Entries, Payloads, AllTyped, AllWritable, ReadEntries, Close;
    var values := ValuesAt(fs, at);
    HoldsParts(t, at, Le2(|fs|) + Entries(fs, values) + Le4(next), Payloads(fs));
    HoldsParts(t, at, Le2(|fs|) + Entries(fs, values), Le4(next));
    HoldsParts(t, at, Le2(|fs|), Entries(fs, values));
    Le2RoundTrip(|fs|);
    Le4RoundTrip(next);
    ReadEntriesClose(t, at + 2, fs, values);
  }

  lemma MainClose(a: Attributes, thumb: seq<byte>)
    requires Representable(a) && |Tiff(a, thumb)| < 0x1_0000_0000
    ensures var main := ReadDirectory(Tiff(a, thumb), 8);
      && main.Some? && Close(main.value.entries, Ifd0(a))
      && main.value.next == if thumb == [] then 0 else ThumbAt(a)
  {
    hide Block, Holds, AllTyped, Close, ReadDirectory, ThumbAt, GpsAt, ExifAt, Ifd0, Tiff;
    BlocksInPlace(a, thumb);
    OffsetsInRange(a, thumb);
    MainTyped(a);
    ReadBlockClose(Tiff(a, thumb), 8, Ifd0(a), if thumb == [] then 0 else ThumbAt(a));
  }

  lemma LinksClose(a: Attributes, es: seq<Entry>)
    requires Representable(a) && GpsAt(a) < 0x1_0000_0000 && Close(es, Ifd0(a))
    ensures FindLong(es, EXIF_IFD_POINTER) == Some(ExifAt(a))
    ensures Find(es, GPS_IFD_POINTER) == Find(Meanings(Ifd0(a)), GPS_IFD_POINTER)
  {
    var fs := Ifd0(a);
    MainAscending(a);
    MeaningsClose(fs);
    LongMeaning(EXIF_IFD_POINTER, ExifAt(a));
    hide Close, Find, Meanings, Meaning, GpsAt, ExifAt, StrLen, Ascending;
    FindField(es, fs, 8);
    if a.enableGps {
      FindField(es, fs, 9);
      FindField(Meanings(fs), fs, 9);
    } else {
      NotThere(es, fs, GPS_IFD_POINTER);
      NotThere(Meanings(fs), fs, GPS_IFD_POINTER);
    }
  }

  lemma GpsByPointer(t: seq<byte>, x: seq<Entry>, y: seq<Entry>)
    requires Find(x, GPS_IFD_POINTER) == Find(y, GPS_IFD_POINTER)
    ensures ReadGps(t, x) == ReadGps(t, y)
  {
  }

  /** Whatever its names, the TIFF part of a record is read, and apart from them it is read as the record. */
  lemma TiffClose(a: Attributes, thumb: seq<byte>)
    requires Representable(a) && |Tiff(a, thumb)| < 0x1_0000_0000
    ensures ReadTiff(Tiff(a, thumb)).Some?
    ensures var e := ReadTiff(Tiff(a, thumb)).value;
      Close(e.main, Ifd0(a)) && e == Reading(a, thumb, Meanings(ExifFields(a))).(main := e.main)
  {
    hide Block, Holds, ExifFields, IntendedFields, GpsFields, Ifd0, ThumbFields, JpegAt, Tiff, ReadGps, ReadThumb,
      Close, Meanings, ReadDirectory, FindLong, Find, ThumbAt, GpsAt, ExifAt, Representable;
    TiffStart(a, thumb);
    MainClose(a, thumb);
    var main := ReadDirectory(Tiff(a, thumb), 8).value.entries;
    LinksClose(a, main);
    GpsByPointer(Tiff(a, thumb), main, Meanings(Ifd0(a)));
    DetailsBack(a, thumb);
    GpsBack(a, thumb);
    ThumbBack(a, thumb);
  }

  // ----- A segment cut short shows nothing else -----

  lemma {:induction false} EntriesOfPrefix(s: seq<byte>, t: seq<byte>, at: nat, n: nat)
    requires s <= t && ReadEntries(s, at, n).Some?
    ensures ReadEntries(t, at, n) == ReadEntries(s, at, n)
  {
    hide ReadEntry;
    if n > 0 {
      EntriesOfPrefix(s, t, at, n - 1);
      EntryOfPrefix(s, t, at + IFD_SIZE * (n - 1));
    }
  }

  lemma EntryOfPrefix(s: seq<byte>, t: seq<byte>, at: nat)
    requires s <= t && ReadEntry(s, at).Some?
    ensures ReadEntry(t, at) == ReadEntry(s, at)
  {
    PrefixSlices(s, t);
    hide FromLe2, FromLe4, TypeSize;
  }

  lemma PrefixSlices(s: seq<byte>, t: seq<byte>)
    requires s <= t
    ensures forall i: nat, j: nat | i <= j <= |s| :: s[i..j] == t[i..j]
  {
  }

  lemma DirectoryOfPrefix(s: seq<byte>, t: seq<byte>, at: nat)
    requires s <= t && ReadDirectory(s, at).Some?
    ensures ReadDirectory(t, at) == ReadDirectory(s, at)
  {
    PrefixSlices(s, t);
    hide FromLe2, FromLe4, ReadEntries;
    EntriesOfPrefix(s, t, at + 2, FromLe2(s[at..at + 2]));
  }

  lemma ThumbOfPrefix(s: seq<byte>, t: seq<byte>, at: nat)
    requires s <= t && ReadThumb(s, at).Some?
    ensures ReadThumb(t, at) == ReadThumb(s, at)
  {
    hide ReadDirectory, FindLong;
    PrefixSlices(s, t);
    if at != 0 {
      DirectoryOfPrefix(s, t, at);
    }
  }

  lemma GpsOfPrefix(s: seq<byte>, t: seq<byte>, main: seq<Entry>)
    requires s <= t && ReadGps(s, main).Some?
    ensures ReadGps(t, main) == ReadGps(s, main)
  {
    hide ReadDirectory, FindLong, Find;
    if Find(main, GPS_IFD_POINTER).Some? {
      DirectoryOfPrefix(s, t, FindLong(main, GPS_IFD_POINTER).value);
    }
  }

  lemma TiffOfPrefix(s: seq<byte>, t: seq<byte>)
    requires s <= t && ReadTiff(s).Some?
    ensures ReadTiff(t) == ReadTiff(s)
  {
    hide ReadDirectory, FindLong, ReadGps, ReadThumb, FromLe4;
    assert s[..4] == t[..4] && s[4..8] == t[4..8];
    var main := ReadDirectory(s, FromLe4(s[4..8])).value;
    DirectoryOfPrefix(s, t, FromLe4(s[4..8]));
    DirectoryOfPrefix(s, t, FindLong(main.entries, EXIF_IFD_POINTER).value);
    GpsOfPrefix(s, t, main.entries);
    ThumbOfPrefix(s, t, main.next);
  }

  /** What is read of a file is read of its TIFF part, wrapped length or not. */
  lemma FileIsTiff(a: Attributes, thumb: seq<byte>)
    requires Representable(a) && Read(File(true, a, thumb)).Some?
    ensures Read(File(true, a, thumb)) == ReadTiff(Tiff(a, thumb))
  {
    hide Tiff, ReadTiff;
    var t := Tiff(a, thumb);
    HeadParts(t);
    var file := File(true, a, thumb);
    hide Head;
    var s := Segment(file).value;
    assert file[12..] == t;
    assert s == t[..|s|];
    TiffOfPrefix(s, t);
  }

  /** A file starts with SOI and APP1, and behind the length with the signature and the header of a TIFF part whose
      first IFD is at 8. */
  lemma FileStart(a: Attributes, thumb: seq<byte>)
    requires Representable(a)
    ensures var file := File(true, a, thumb);
      && |file| >= 20 && file[..4] == [0xFF, 0xD8, 0xFF, 0xE1]
      && file[6..20] == [0x45, 0x78, 0x69, 0x66, 0, 0, 0x49, 0x49, 0x2A, 0, 8, 0, 0, 0]
  {
    hide Tiff, Block, Holds, ExifFields, GpsFields, Ifd0, ThumbFields;
    BlocksInPlace(a, thumb);
    var t, file := Tiff(a, thumb), File(true, a, thumb);
    HeadParts(t);
    hide Head;
    assert file[12..] == t;
    assert file[12..20] == t[..8];
    assert file[..4] == file[..2] + file[2..4] && file[6..20] == file[6..12] + file[12..20];
  }

  lemma DetailsClose(a: Attributes)
    requires Representable(a)
    ensures Close(Meanings(ExifFields(a)), ExifFields(a))
  {
    MeaningsClose(ExifFields(a));
  }

  /** Whatever a reader makes of a written file, each attribute of the 0th and of the Exif IFD is under its tag. */
  lemma FileTags(a: Attributes, thumb: seq<byte>, e: Exif)
    requires Representable(a) && |Tiff(a, thumb)| < 0x1_0000_0000 && Read(File(true, a, thumb)) == Some(e)
    // the 0th IFD
    ensures HasNumber(e.main, 0x0100, 4, a.width) && HasNumber(e.main, 0x0101, 4, a.height)
    ensures HasName(e.main, 0x010F, a.maker)
    ensures HasName(e.main, 0x0110, a.model)
    ensures HasNumber(e.main, 0x0112, 3, a.orientation)
    ensures HasName(e.main, 0x0131, a.software)
    ensures HasBytes(e.main, 0x0132, 2, a.dateTime) && HasNumber(e.main, 0x0213, 3, a.ycbcrPositioning)
    // the Exif IFD
    ensures HasRatio(e.details, 0x829A, 5, a.exposureTime) && HasRatio(e.details, 0x829D, 5, a.fnumber)
    ensures HasNumber(e.details, 0x8822, 3, a.exposureProgram) && HasNumber(e.details, 0x8827, 3, a.isoSpeedRating)
    ensures HasBytes(e.details, 0x9000, 7, a.exifVersion)
    ensures HasBytes(e.details, 0x9003, 2, a.dateTime) && HasBytes(e.details, 0x9004, 2, a.dateTime)
    ensures HasRatio(e.details, 0x9201, 10, a.shutterSpeed) && HasRatio(e.details, 0x9202, 5, a.aperture)
    ensures HasRatio(e.details, 0x9203, 10, a.brightness) && HasRatio(e.details, 0x9204, 10, a.exposureBias)
    ensures HasRatio(e.details, 0x9205, 5, a.maxAperture) && HasNumber(e.details, 0x9207, 3, a.meteringMode)
    ensures HasNumber(e.details, 0x9209, 3, a.flash) && HasRatio(e.details, 0x920A, 5, a.focalLength)
    ensures HasBytes(e.details, 0x9286, 7, [0, 0, 0, 0x49, 0x49, 0x43, 0x53, 0x41, a.userComment[0]])
    ensures HasNumber(e.details, 0xA001, 3, a.colorSpace)
    ensures StrLen(a.userComment) <= 141 ==>
              HasNumber(e.details, 0xA002, 4, a.width) && HasNumber(e.details, 0xA003, 4, a.height)
    ensures HasNumber(e.details, 0xA402, 4, a.exposureMode) && HasNumber(e.details, 0xA403, 4, a.whiteBalance)
    ensures HasNumber(e.details, 0xA406, 4, a.sceneCaptureType)
  {
    hide Tiff, File, Read, ReadTiff, Representable, HasNumber, HasBytes, HasName, HasRatios, Close, Meanings,
      ExifFields, GpsFields, Ifd0, ThumbFields, GpsAt, StrLen;
    FileIsTiff(a, thumb);
    TiffStart(a, thumb);
    TiffClose(a, thumb);
    MainTags(a, e.main);
    NameTags(a, e.main);
    DetailsClose(a);
    ExposureTags(a, e.details);
    DateTags(a, e.details);
    ApexTags(a, e.details);
    LightTags(a, e.details);
    PictureTags(a, e.details);
  }

  /** And each attribute of the GPS IFD and of the thumbnail's. */
  lemma FileOptions(a: Attributes, thumb: seq<byte>, e: Exif)
    requires Representable(a) && |Tiff(a, thumb)| < 0x1_0000_0000 && Read(File(true, a, thumb)) == Some(e)
    // the GPS IFD
    ensures e.gps.Some? <==> a.enableGps
    ensures a.enableGps ==>
      && HasBytes(e.gps.value, 0x0000, 1, a.gpsVersionId)
      && HasBytes(e.gps.value, 0x0001, 2, a.gpsLatitudeRef) && HasRatios(e.gps.value, 0x0002, 5, a.gpsLatitude)
      && HasBytes(e.gps.value, 0x0003, 2, a.gpsLongitudeRef) && HasRatios(e.gps.value, 0x0004, 5, a.gpsLongitude)
      && HasNumber(e.gps.value, 0x0005, 1, a.gpsAltitudeRef) && HasRatio(e.gps.value, 0x0006, 5, a.gpsAltitude)
      && HasRatios(e.gps.value, 0x0007, 5, a.gpsTimestamp) && HasBytes(e.gps.value, 0x001D, 2, a.gpsDatestamp)
      && var n := StrLen(a.gpsProcessingMethod);
         if n == 0 then Find(e.gps.value, 0x001B) == None
         else HasBytes(e.gps.value, 0x001B, 7, [0x41, 0x53, 0x43, 0x49, 0x49, 0, 0, 0] + a.gpsProcessingMethod[..n])
    // the thumbnail's IFD
    ensures e.thumb.Some? <==> thumb != []
    ensures thumb != [] ==>
      && e.thumb.value.jpeg == thumb && HasNumber(e.thumb.value.entries, 0x0202, 4, |thumb|)
      && HasNumber(e.thumb.value.entries, 0x0100, 4, a.widthThumb)
      && HasNumber(e.thumb.value.entries, 0x0101, 4, a.heightThumb)
      && HasNumber(e.thumb.value.entries, 0x0103, 3, a.compressionScheme)
      && HasNumber(e.thumb.value.entries, 0x0112, 3, a.orientation)
      && HasRatio(e.thumb.value.entries, 0x011A, 5, a.xResolution)
      && HasRatio(e.thumb.value.entries, 0x011B, 5, a.yResolution)
      && HasNumber(e.thumb.value.entries, 0x0128, 3, a.resolutionUnit)
  {
    hide Tiff, File, Read, ReadTiff, Representable, HasNumber, HasBytes, HasRatios, Close, Meanings, ExifFields,
      GpsFields, Ifd0, ThumbFields, GpsAt, ThumbAt, JpegAt, Find, StrLen;
    FileIsTiff(a, thumb);
    TiffClose(a, thumb);
    OffsetsInRange(a, thumb);
    if a.enableGps {
      MeaningsClose(GpsFields(a));
      PlaceTags(a, e.gps.value);
      FixTags(a, e.gps.value);
    }
    if thumb != [] {
      MeaningsClose(ThumbFields(a, |thumb|));
      ThumbTags(a, |thumb|, e.thumb.value.entries);
    }
  }
}
