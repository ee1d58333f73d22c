/** processExif: the four IFDs, the patched pointers, the thumbnail fallback and the APP1 length. */
module ExifProcessor {
  import opened Bytes
  import opened ExifTiff
  import opened ExifLayout
  import opened ExifWriter

  class Processor {
    var exif: Attributes
    const hasDst: bool
    const thumbnail: seq<byte>     // ThumbnailBuffer, ThumbnailJpegSize bytes of it
    const outBuffer: array<byte>
    var outSize: nat

    constructor (exif: Attributes, hasDst: bool, thumbnail: seq<byte>, outBuffer: array<byte>)
      ensures this.exif == exif && this.hasDst == hasDst && this.thumbnail == thumbnail && this.outBuffer == outBuffer
    {
      this.exif, this.hasDst, this.thumbnail, this.outBuffer := exif, hasDst, thumbnail, outBuffer;
      outSize := 0;
    }

    method WriteCamera(c: Cursor)
      requires Representable(exif) && c.Valid() && |c.fields| + 4 <= c.slots
      requires c.start + c.longer + 64 <= c.out.Length
      modifies c, c.out
      ensures c.Valid() && c.lead == old(c.lead) && c.slots == old(c.slots)
      ensures c.fields == old(c.fields) + Ifd0Head(exif)[..4] && c.longer <= old(c.longer) + 64
    {
      hide Cursor.Valid, CString, Representable;
      NameSizes(exif);
      c.WriteWord(0x0100, LONG, 1, exif.width);
      c.WriteWord(0x0101, LONG, 1, exif.height);
      c.WriteLong(0x010F, ASCII, CString(exif.maker));
      c.WriteLong(0x0110, ASCII, CString(exif.model));
    }

    method WriteMaking(c: Cursor)
      requires Representable(exif) && c.Valid() && |c.fields| + 4 <= c.slots
      requires c.start + c.longer + 52 <= c.out.Length
      modifies c, c.out
      ensures c.Valid() && c.lead == old(c.lead) && c.slots == old(c.slots)
      ensures c.fields == old(c.fields) + Ifd0Head(exif)[4..] && c.longer <= old(c.longer) + 52
    {
      hide Cursor.Valid, CString, Representable;
      NameSizes(exif);
      c.WriteWord(0x0112, SHORT, 1, exif.orientation);
      c.WriteLong(0x0131, ASCII, CString(exif.software));
      c.WriteLong(0x0132, ASCII, exif.dateTime);
      c.WriteWord(0x0213, SHORT, 1, exif.ycbcrPositioning);
    }

    lemma NameSizes(a: Attributes)
      requires Representable(a)
      ensures |CString(a.maker)| <= 32 && |CString(a.model)| <= 32 && |CString(a.software)| <= 32
      ensures |a.dateTime| == 20
    {
      hide StrLen;
    }

    method WriteIfd0(c: Cursor)
      requires Representable(exif) && c.Valid() && c.fields == [] && c.slots == Ifd0Count(exif)
      requires c.start + c.longer + 116 <= c.out.Length
      modifies c, c.out
      ensures c.Valid() && c.lead == old(c.lead) && c.slots == old(c.slots)
      ensures c.fields == Ifd0Head(exif) + [ExifPointer(c.longer)] && c.longer <= old(c.longer) + 116
    {
      hide Cursor.Valid, Ifd0Head, Representable;
      WriteCamera(c);
      WriteMaking(c);
      c.WriteWord(EXIF_IFD_POINTER, LONG, 1, c.longer);
    }

    method WriteExposure(c: Cursor)
      requires Representable(exif) && c.Valid() && |c.fields| + 7 <= c.slots
      requires c.start + c.longer + 56 <= c.out.Length
      modifies c, c.out
      ensures c.Valid() && c.lead == old(c.lead) && c.slots == old(c.slots)
      ensures c.fields == old(c.fields) + ExposureFields(exif) && c.longer == old(c.longer) + 56
    {
      hide Cursor.Valid, StrLen;
      c.WriteRatio(0x829A, RATIONAL, [exif.exposureTime]);
      c.WriteRatio(0x829D, RATIONAL, [exif.fnumber]);
      c.WriteWord(0x8822, SHORT, 1, exif.exposureProgram);
      c.WriteWord(0x8827, SHORT, 1, exif.isoSpeedRating);
      c.WriteShort(0x9000, UNDEFINED, exif.exifVersion);
      c.WriteLong(0x9003, ASCII, exif.dateTime);
      c.WriteLong(0x9004, ASCII, exif.dateTime);
    }

    method WriteApex(c: Cursor)
      requires c.Valid() && |c.fields| + 8 <= c.slots
      requires c.start + c.longer + 48 <= c.out.Length
      modifies c, c.out
      ensures c.Valid() && c.lead == old(c.lead) && c.slots == old(c.slots)
      ensures c.fields == old(c.fields) + ApexFields(exif) && c.longer == old(c.longer) + 48
    {
      hide Cursor.Valid;
      c.WriteRatio(0x9201, SRATIONAL, [exif.shutterSpeed]);
      c.WriteRatio(0x9202, RATIONAL, [exif.aperture]);
      c.WriteRatio(0x9203, SRATIONAL, [exif.brightness]);
      c.WriteRatio(0x9204, SRATIONAL, [exif.exposureBias]);
      c.WriteRatio(0x9205, RATIONAL, [exif.maxAperture]);
      c.WriteWord(0x9207, SHORT, 1, exif.meteringMode);
      c.WriteWord(0x9209, SHORT, 1, exif.flash);
      c.WriteRatio(0x920A, RATIONAL, [exif.focalLength]);
    }

    /** The comment is edited in the caller's record: code in front, text moved back. */
    method WriteComment(c: Cursor)
      requires Representable(exif) && c.Valid() && |c.fields| < c.slots
      requires c.start + c.longer + 9 <= c.out.Length
      modifies this`exif, c, c.out
      ensures c.Valid() && c.lead == old(c.lead) && c.slots == old(c.slots)
      ensures c.fields == old(c.fields) + [CommentField(old(exif))] && c.longer == old(c.longer) + 9
      ensures exif == Prefixed(old(exif))
    {
      hide Cursor.Valid;
      exif := Prefixed(exif);
      assert exif.userComment[0] == 0;
      var n := StrLen(exif.userComment);
      c.WriteLong(0x9286, UNDEFINED, exif.userComment[..n + 1 + |COMMENT_CODE|]);
    }

    method WritePicture(c: Cursor)
      requires c.Valid() && |c.fields| + 6 <= c.slots
      modifies c, c.out
      ensures c.Valid() && c.lead == old(c.lead) && c.slots == old(c.slots)
      ensures c.fields == old(c.fields) + PictureFields(exif) && c.longer == old(c.longer)
    {
      hide Cursor.Valid;
      c.WriteWord(0xA001, SHORT, 1, exif.colorSpace);
      c.WriteWord(0xA002, LONG, 1, exif.width);
      c.WriteWord(0xA003, LONG, 1, exif.height);
      c.WriteWord(0xA402, LONG, 1, exif.exposureMode);
      c.WriteWord(0xA403, LONG, 1, exif.whiteBalance);
      c.WriteWord(0xA406, LONG, 1, exif.sceneCaptureType);
    }

    method WriteExifIfd(c: Cursor)
      requires Representable(exif) && c.Valid() && c.fields == [] && c.slots == NUM_0TH_IFD_EXIF
      requires c.start + c.longer + 113 <= c.out.Length
      modifies this`exif, c, c.out
      ensures c.Valid() && c.lead == old(c.lead) && c.slots == old(c.slots) && c.gap == Le4(0)
      ensures c.fields == ExifFields(old(exif)) && c.longer == old(c.longer) + 113
      ensures exif == Prefixed(old(exif))
    {
      hide Cursor.Valid, StrLen, Le4;
      WriteExposure(c);
      WriteApex(c);
      WriteComment(c);
      WritePicture(c);
      c.WriteLink(0);
    }

    method WriteGpsPosition(c: Cursor)
      requires Representable(exif) && c.Valid() && |c.fields| + 8 <= c.slots
      requires c.start + c.longer + 80 <= c.out.Length
      modifies c, c.out
      ensures c.Valid() && c.lead == old(c.lead) && c.slots == old(c.slots)
      ensures c.fields == old(c.fields) + GpsHead(exif) && c.longer == old(c.longer) + 80
    {
      hide Cursor.Valid, StrLen;
      c.WriteShort(0x0000, BYTE, exif.gpsVersionId);
      c.WriteShort(0x0001, ASCII, exif.gpsLatitudeRef);
      c.WriteRatio(0x0002, RATIONAL, exif.gpsLatitude);
      c.WriteShort(0x0003, ASCII, exif.gpsLongitudeRef);
      c.WriteRatio(0x0004, RATIONAL, exif.gpsLongitude);
      c.WriteWord(0x0005, BYTE, 1, exif.gpsAltitudeRef);
      c.WriteRatio(0x0006, RATIONAL, [exif.gpsAltitude]);
      c.WriteRatio(0x0007, RATIONAL, exif.gpsTimestamp);
    }

    method WriteGpsIfd(c: Cursor)
      requires Representable(exif) && c.Valid() && c.fields == [] && c.slots == |GpsFields(exif)|
      requires c.start + c.longer + 199 <= c.out.Length
      modifies c, c.out
      ensures c.Valid() && c.lead == old(c.lead) && c.slots == old(c.slots) && c.gap == Le4(0)
      ensures c.fields == GpsFields(exif) && c.longer <= old(c.longer) + 199
    {
      hide Cursor.Valid, StrLen, Le4;
      WriteGpsPosition(c);
      var n := StrLen(exif.gpsProcessingMethod);
      if n > 0 {
        n := if n > 100 then 100 else n;
        c.WriteLong(0x001B, UNDEFINED, ASCII_PREFIX + exif.gpsProcessingMethod[..n]);
      }
      c.WriteLong(0x001D, ASCII, exif.gpsDatestamp);
      c.WriteLink(0);
    }

    method WriteThumbIfd(c: Cursor)
      requires Representable(exif) && c.Valid() && c.fields == [] && c.slots == NUM_1TH_IFD_TIFF
      requires c.start + c.longer + 16 <= c.out.Length
      modifies c, c.out
      ensures c.Valid() && c.lead == old(c.lead) && c.slots == old(c.slots) && c.gap == Le4(0)
      ensures c.fields == ThumbHead(exif) + [Word(JPEG_FORMAT, LONG, 1, c.longer)]
                          + [Word(JPEG_FORMAT_LEN, LONG, 1, |thumbnail|)]
      ensures c.longer == old(c.longer) + 16
    {
      hide Cursor.Valid, Le4;
      c.WriteWord(0x0100, LONG, 1, exif.widthThumb);
      c.WriteWord(0x0101, LONG, 1, exif.heightThumb);
      c.WriteWord(0x0103, SHORT, 1, exif.compressionScheme);
      c.WriteWord(0x0112, SHORT, 1, exif.orientation);
      c.WriteRatio(0x011A, RATIONAL, [exif.xResolution]);
      c.WriteRatio(0x011B, RATIONAL, [exif.yResolution]);
      c.WriteWord(0x0128, SHORT, 1, exif.resolutionUnit);
      c.WriteWord(JPEG_FORMAT, LONG, 1, c.longer);
      c.WriteWord(JPEG_FORMAT_LEN, LONG, 1, |thumbnail|);
      c.WriteLink(0);
    }

    /** The 0th IFD, all but its link and the GPS pointer, for which room is left. Returns the places of that pointer
        and of the link; `open` is what the buffer holds there. */
    method WriteMainIfd(c: Cursor) returns (gpsPointer: nat, next: nat, ghost open: seq<byte>)
      requires Representable(exif) && c.Valid() && c.fields == [] && c.slots == Ifd0Count(exif)
      requires |c.lead| == c.start + 10 && c.start + 1000 <= c.out.Length
      modifies c, c.out
      ensures c.Valid() && |c.Written()| == c.start + c.longer && c.longer == ExifAt(exif) <= 250
      ensures gpsPointer == |old(c.lead)| + IFD_SIZE * (NUM_0TH_IFD_TIFF - 1)
      ensures next == |old(c.lead)| + IFD_SIZE * Ifd0Count(exif) && |open| == next - gpsPointer + 4
      ensures c.Written()
              == old(c.lead) + Entries(Ifd0Main(exif), ValuesAt(Ifd0(exif), 8)) + open + Payloads(Ifd0Main(exif))
    {
      hide Cursor.Valid, Entries, Payloads, Ifd0Head, Representable, StrLen;
      c.Extent();
      NoPayloads();
      WriteIfd0(c);
      c.Extent();
      PayloadsOfWord(Ifd0Head(exif), ExifPointer(c.longer));
      gpsPointer, next, open := c.cur, c.cur, c.gap;
      if exif.enableGps {
        next := next + IFD_SIZE;
      }
    }

    /** The 0th IFD and, behind it, the Exif IFD it points to. */
    method WriteMain(c: Cursor) returns (gpsPointer: nat, next: nat, ghost open: seq<byte>)
      requires Representable(exif) && c.Valid() && c.fields == [] && c.slots == Ifd0Count(exif)
      requires |c.lead| == c.start + 10 && c.start + 1000 <= c.out.Length
      modifies this`exif, c, c.out
      ensures c.Valid() && |c.Written()| == c.start + c.longer && c.longer == GpsAt(old(exif)) <= 700
      ensures gpsPointer == |old(c.lead)| + IFD_SIZE * (NUM_0TH_IFD_TIFF - 1) && next + 4 <= |c.lead|
      ensures next == |old(c.lead)| + IFD_SIZE * Ifd0Count(old(exif))
      ensures |open| == next - gpsPointer + 4
      ensures c.Written() == old(c.lead) + MainBody(old(exif), open)
      ensures exif == Prefixed(old(exif))
    {
      hide Cursor.Valid, Entries, Payloads, Le2, Le4, ExifFields, Ifd0Main, Ifd0, Representable, StrLen, Prefixed;
      hide ExifAt, Block;
      ghost var a := exif;
      gpsPointer, next, open := WriteMainIfd(c);
      ghost var front := c.Written();
      c.BeginDirectory(NUM_0TH_IFD_EXIF);
      WriteExifIfd(c);
      c.Extent();
      c.Closed(front, ExifAt(a));
    }

    /** Everything in front of the thumbnail's IFD. */
    method WriteFront(c: Cursor) returns (next: nat, ghost link: seq<byte>)
      requires Representable(exif) && c.Valid() && c.fields == [] && c.slots == Ifd0Count(exif)
      requires |c.lead| == c.start + 10 && c.start + 1100 <= c.out.Length
      modifies this`exif, c, c.out
      ensures c.Valid() && |c.Written()| == c.start + c.longer && c.longer == ThumbAt(old(exif)) <= 1030
      ensures |link| == 4 && next == |old(c.lead)| + IFD_SIZE * Ifd0Count(old(exif)) && next + 4 <= |c.lead|
      ensures c.Written() == old(c.lead) + FrontBody(old(exif), link)
      ensures exif == Prefixed(old(exif))
    {
      hide Cursor.Valid, Entries, Payloads, Le2, Le4, EntryBytes, Block, StrLen;
      ghost var a, lead := exif, c.lead;
      ghost var open;
      var gpsPointer: nat;
      gpsPointer, next, open := WriteMain(c);
      link := open;
      if exif.enableGps {
        assert exif.userComment[0] == 0;
        link := open[IFD_SIZE..];
        assert open == open[..IFD_SIZE] + link;
        CloseMain(a, lead, open[..IFD_SIZE], link);
        c.PatchEntry(gpsPointer, GPS_IFD_POINTER, LONG, 1, c.longer);
        ghost var front := c.Written();
        var count := if exif.gpsProcessingMethod[0] == 0 then NUM_0TH_IFD_GPS - 1 else NUM_0TH_IFD_GPS;
        assert (exif.gpsProcessingMethod[0] == 0) == (StrLen(exif.gpsProcessingMethod) == 0);
        assert count == GpsCount(exif);
        c.BeginDirectory(count);
        WriteGpsIfd(c);
        assert GpsFields(exif) == GpsFields(a);
        c.Closed(front, GpsAt(a));
      }
    }

    /** Markers, signatures and the first entry count. The APP1 marker and length are filled in at the end. */
    method WriteHead(count: nat) returns (app1: nat, ghost hole: seq<byte>)
      requires outBuffer.Length >= 22
      modifies outBuffer
      ensures app1 == |First()| && |hole| == 4
      ensures outBuffer[..app1 + 20] == First() + hole + EXIF_HEADER + TIFF_HEADER + Le2(count)
    {
      app1 := 0;
      if hasDst {
        MemCpy(outBuffer, 0, SOI);
        app1 := app1 + 2;
      }
      hole := outBuffer[app1..app1 + 4];
      ghost var buf := outBuffer[..];
      assert buf[..app1 + 4] == First() + hole;
      hide Le2, Put;
      MemCpy(outBuffer, app1 + 4, EXIF_HEADER);
      MemCpy(outBuffer, app1 + 10, TIFF_HEADER);
      PutAdjacent(buf, app1 + 4, EXIF_HEADER, TIFF_HEADER);
      MemCpy(outBuffer, app1 + 18, Le2(count));
      PutAdjacent(buf, app1 + 4, EXIF_HEADER + TIFF_HEADER, Le2(count));
      PutFront(buf, app1 + 4, EXIF_HEADER + TIFF_HEADER + Le2(count));
      assert outBuffer[..app1 + 20] == outBuffer[..][..app1 + 20];
      assert First() + hole + (EXIF_HEADER + TIFF_HEADER + Le2(count))
          == First() + hole + EXIF_HEADER + TIFF_HEADER + Le2(count);
    }

    /** The SOI marker, for a destination handle only. */
    function First(): seq<byte> {
      if hasDst then SOI else []
    }

    lemma ThumbFieldsWritten(a: Attributes, fields: seq<Field>, longer: nat)
      requires Representable(a) && exif == Prefixed(a)
      requires fields
               == ThumbHead(exif) + [Word(JPEG_FORMAT, LONG, 1, longer)]
                  + [Word(JPEG_FORMAT_LEN, LONG, 1, |thumbnail|)]
      requires longer == ThumbAt(a) + BlockSize(fields)
      ensures fields == ThumbFields(a, |thumbnail|)
    {
      hide Payloads;
      PayloadsOfWord(ThumbHead(a), Word(JPEG_FORMAT, LONG, 1, longer));
      PayloadsOfWord(ThumbHead(a) + [Word(JPEG_FORMAT, LONG, 1, longer)], Word(JPEG_FORMAT_LEN, LONG, 1, |thumbnail|));
    }

    /** The thumbnail's IFD, and the thumbnail behind it. */
    method AppendThumbnail(c: Cursor, ghost a: Attributes) returns (longer: nat)
      requires Representable(a) && exif == Prefixed(a) && Representable(exif)
      requires c.Valid() && |c.Written()| == c.start + c.longer && c.longer == ThumbAt(a)
      requires c.out == outBuffer && thumbnail != [] && c.out.Length >= c.start + c.longer + 130 + |thumbnail|
      modifies c, c.out
      ensures longer == |Tiff(a, thumbnail)| && c.start + longer <= c.out.Length
      ensures c.out[..] == old(c.Written()) + ThumbPart(a, thumbnail) + c.out[c.start + longer..]
    {
      hide Cursor.Valid, Entries, Payloads, Le2, Le4, Block, StrLen, Representable, Put, Tiff, ThumbFields;
      ghost var front := c.Written();
      c.BeginDirectory(NUM_1TH_IFD_TIFF);
      WriteThumbIfd(c);
      c.Closed(front, ThumbAt(a));
      ThumbFieldsWritten(a, c.fields, c.longer);
      c.Extent();
      longer := c.longer;
      PutLast(front, Block(ThumbFields(a, |thumbnail|), ThumbAt(a), 0), thumbnail, c.rest);
      MemCpy(outBuffer, c.start + longer, thumbnail);
      longer := longer + |thumbnail|;
      assert outBuffer[c.start + longer..] == outBuffer[..][c.start + longer..];
      TiffSize(a, thumbnail);
      LayoutSizes(a, |thumbnail|);
    }

    /** The thumbnail is kept unless it exceeds the limit; then the link to its IFD is taken back. */
    method WriteThumbnail(c: Cursor, next: nat, ghost a: Attributes, ghost lead: seq<byte>, ghost link: seq<byte>)
      returns (longer: nat)
      requires Representable(a) && exif == Prefixed(a) && Representable(exif)
      requires c.Valid() && |c.Written()| == c.start + c.longer && c.longer == ThumbAt(a) <= 1030
      requires |link| == 4 && next == |lead| + IFD_SIZE * Ifd0Count(a) && next + 4 <= |c.lead|
      requires c.Written() == lead + FrontBody(a, link)
      requires c.out == outBuffer && thumbnail != [] && c.out.Length >= c.start + 1160 + |thumbnail|
      modifies c, c.out
      ensures longer == if |Tiff(a, thumbnail)| <= EXIF_LIMIT_SIZE then |Tiff(a, thumbnail)| else ThumbAt(a)
      ensures c.start + longer <= c.out.Length
      ensures |Tiff(a, thumbnail)| <= EXIF_LIMIT_SIZE ==>
        c.out[..c.start + longer] == lead + FrontBody(a, Le4(ThumbAt(a))) + ThumbPart(a, thumbnail)
      ensures |Tiff(a, thumbnail)| > EXIF_LIMIT_SIZE ==>
        c.out[..c.start + longer] == lead + FrontBody(a, Le4(0))
    {
      hide Cursor.Valid, Entries, Payloads, Le2, Le4, FrontBody, Block, Tiff, StrLen, Representable, ThumbPart;
      var exceptThumb := c.longer;
      SetLink(a, lead, link, [], exceptThumb);
      assert lead + FrontBody(a, link) + [] == lead + FrontBody(a, link);
      c.Patch(next, Le4(exceptThumb));
      ghost var front := c.Written();
      assert front == lead + FrontBody(a, Le4(exceptThumb));
      longer := AppendThumbnail(c, a);
      if longer > EXIF_LIMIT_SIZE {
        ghost var more := ThumbPart(a, thumbnail) + outBuffer[c.start + longer..];
        assert outBuffer[..] == front + more;
        longer := exceptThumb;
        SetLink(a, lead, Le4(exceptThumb), more, 0);
        MemCpy(outBuffer, next, Le4(0));
      }
    }

    /** The TIFF part, with the thumbnail if there is one and it fits. */
    method WriteTiff(app1: nat, count: nat, ghost lead: seq<byte>) returns (longer: nat)
      requires Representable(exif) && count == Ifd0Count(exif) && app1 <= 2
      requires outBuffer.Length >= EXIF_FILE_SIZE + if exif.enableThumb then |thumbnail| else 0
      requires outBuffer[..app1 + 20] == lead
      modifies this`exif, outBuffer
      ensures exif == Prefixed(old(exif))
      ensures var a := old(exif);
        && longer == |Tiff(a, Kept(a, thumbnail))| && app1 + 10 + longer <= outBuffer.Length
        && outBuffer[..app1 + 10 + longer]
           == lead + FrontBody(a, Le4(if Kept(a, thumbnail) == [] then 0 else ThumbAt(a)))
               + ThumbPart(a, Kept(a, thumbnail))
    {
      hide Cursor.Valid, Entries, Payloads, Le2, Le4, FrontBody, TiffFront, Tiff, ThumbAt, StrLen, Prefixed;
      ghost var a := exif;
      var c := new Cursor(outBuffer, app1 + 10, count);
      ghost var link;
      var next: nat;
      next, link := WriteFront(c);
      longer := c.longer;
      TiffSize(a, thumbnail);
      assert exif.userComment[0] == 0;
      if exif.enableThumb && |thumbnail| > 0 {
        longer := WriteThumbnail(c, next, a, lead, link);
      } else {
        WriteNoThumbnail(c, next, a, lead, link);
      }
    }

    /** Without a thumbnail the 0th IFD has no successor. */
    method WriteNoThumbnail(c: Cursor, next: nat, ghost a: Attributes, ghost lead: seq<byte>, ghost link: seq<byte>)
      requires Representable(a) && c.Valid() && |c.Written()| == c.start + c.longer
      requires |link| == 4 && next == |lead| + IFD_SIZE * Ifd0Count(a) && c.Written() == lead + FrontBody(a, link)
      requires c.out == outBuffer
      modifies outBuffer
      ensures c.start + c.longer <= outBuffer.Length
      ensures outBuffer[..c.start + c.longer] == lead + FrontBody(a, Le4(0))
    {
      hide Cursor.Valid, Cursor.Written, Le4, FrontBody, Representable, Put;
      c.Extent();
      SetLink(a, lead, link, c.rest, 0);
      ghost var rest := c.rest;
      MemCpy(outBuffer, next, Le4(0));
      assert outBuffer[..c.start + c.longer] == (lead + FrontBody(a, Le4(0)) + rest)[..c.start + c.longer];
    }

    /** The whole file is in the buffer, whatever the buffer held before, and the size is what a file with an
        SOI marker in front has. Every write is inside EXIF_FILE_SIZE bytes plus the thumbnail. */
    method ProcessExif()
      requires Representable(exif) && |thumbnail| < 0x8000_0000
      requires outBuffer.Length >= EXIF_FILE_SIZE + if exif.enableThumb then |thumbnail| else 0
      modifies this, outBuffer
      ensures exif == Prefixed(old(exif))
      ensures var file := File(hasDst, old(exif), Kept(old(exif), thumbnail));
        && |file| <= outBuffer.Length && outBuffer[..|file|] == file
        && outSize == |file| + if hasDst then 0 else |SOI|
    {
      hide Payloads, Le2, Le4, FrontBody, TiffFront, Tiff, ThumbAt, StrLen, Be2, Kept, ThumbPart, Prefixed;
      ghost var a := exif;
      var count := if exif.enableGps then NUM_0TH_IFD_TIFF else NUM_0TH_IFD_TIFF - 1;
      ghost var hole;
      var app1: nat;
      app1, hole := WriteHead(count);
      ghost var lead := outBuffer[..app1 + 20];
      var longer := WriteTiff(app1, count, lead);
      Seal(app1, longer, a, hole);
    }

    /** The APP1 marker and its length go into the four bytes that were left for them. */
    method Seal(app1: nat, longer: nat, ghost a: Attributes, ghost hole: seq<byte>)
      requires Representable(a) && app1 == |First()| && |hole| == 4
      requires longer == |Tiff(a, Kept(a, thumbnail))| && app1 + 10 + longer <= outBuffer.Length
      requires outBuffer[..app1 + 10 + longer]
            == First() + hole + EXIF_HEADER + TIFF_HEADER + Le2(Ifd0Count(a))
               + FrontBody(a, Le4(if Kept(a, thumbnail) == [] then 0 else ThumbAt(a)))
               + ThumbPart(a, Kept(a, thumbnail))
      modifies this`outSize, outBuffer
      ensures outBuffer[..app1 + 10 + longer]
           == First() + APP1 + Be2(8 + longer) + EXIF_HEADER + Tiff(a, Kept(a, thumbnail))
      ensures outSize == 12 + longer
    {
      hide Le2, Le4, FrontBody, Tiff, ThumbAt, Be2, Kept, ThumbPart, Representable, Put;
      ghost var buf := outBuffer[..];
      MemCpy(outBuffer, app1, APP1);
      MemCpy(outBuffer, app1 + 2, Be2(10 + longer - 2));
      outSize := 2 + 2 + 2 + 6 + longer;
      Sealed(a, buf, First(), hole, Be2(8 + longer), Kept(a, thumbnail));
      PutAdjacent(buf, app1, APP1, Be2(8 + longer));
    }
  }

  lemma PutLast(front: seq<byte>, block: seq<byte>, thumb: seq<byte>, rest: seq<byte>)
    requires |thumb| <= |rest|
    ensures var at := |front| + |block|;
      var after := Put(front + block + rest, at, thumb);
      after == front + (block + thumb) + rest[|thumb|..] && after[at + |thumb|..] == rest[|thumb|..]
  {
  }

  /** The TIFF part behind the signature, with the APP1 marker and length put into the four bytes in front. */
  lemma Sealed(a: Attributes, buf: seq<byte>, first: seq<byte>, hole: seq<byte>, size: seq<byte>, thumb: seq<byte>)
    requires Representable(a) && |hole| == 4 && |size| == 2
    requires |first| + 10 + |Tiff(a, thumb)| <= |buf|
    requires buf[..|first| + 10 + |Tiff(a, thumb)|]
          == first + hole + EXIF_HEADER + TIFF_HEADER + Le2(Ifd0Count(a))
             + FrontBody(a, Le4(if thumb == [] then 0 else ThumbAt(a))) + ThumbPart(a, thumb)
    ensures Put(buf, |first|, APP1 + size)[..|first| + 10 + |Tiff(a, thumb)|]
         == first + APP1 + size + EXIF_HEADER + Tiff(a, thumb)
  {
    hide Le2, Le4, FrontBody, TiffFront, ThumbAt, StrLen, ThumbPart, Representable;
    var next := if thumb == [] then 0 else ThumbAt(a);
    FrontIsTiff(a, next);
    var n, body, last, tiff := Le2(Ifd0Count(a)), FrontBody(a, Le4(next)), ThumbPart(a, thumb), Tiff(a, thumb);
    assert tiff == TIFF_HEADER + n + body + last;
    assert first + hole + EXIF_HEADER + TIFF_HEADER + n + body + last
        == first + hole + EXIF_HEADER + (TIFF_HEADER + n + body + last);
    SealedBytes(buf, first, hole, size, tiff);
  }

  lemma SealedBytes(buf: seq<byte>, first: seq<byte>, hole: seq<byte>, size: seq<byte>, tiff: seq<byte>)
    requires |hole| == 4 && |size| == 2 && |first| + 10 + |tiff| <= |buf|
    requires buf[..|first| + 10 + |tiff|] == first + hole + EXIF_HEADER + tiff
    ensures Put(buf, |first|, APP1 + size)[..|first| + 10 + |tiff|] == first + APP1 + size + EXIF_HEADER + tiff
  {
    var tail := EXIF_HEADER + tiff + buf[|first| + 10 + |tiff|..];
    assert buf == first + hole + tail;
    PutMiddle(first, hole, tail, APP1 + size);
  }
}
