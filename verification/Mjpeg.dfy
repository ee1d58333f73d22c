/** Putting the missing Huffman tables into a motion-JPEG frame (jpeg_encode_mjpeg in lib_jpeg/libnxjpeg.c). Markers
    and segments are those of ITU-T T.81, sections B.1.1.4 and B.2.4.2. */
module Mjpeg {
  import opened Bytes
  import opened Options

  const DHT_SIZE := 420
  const SOI: byte := 0xD8
  const DHT: byte := 0xC4
  const SOS: byte := 0xDA

  // ----- The tables that are put in -----

  /** huffman_table, given what stands behind its marker and length: the walk never looks further. */
  function Tables(body: seq<byte>): (s: seq<byte>)
    requires |body| == 416
    ensures |s| == DHT_SIZE && s[..4] == [0xFF, DHT, 0x01, 0xA2]
  {
    [0xFF, DHT, 0x01, 0xA2] + body
  }

  // ----- The repair -----

  datatype Scan = HasDht | SosAt(at: nat) | Invalid

  function Size(src: seq<byte>, ptr: nat): nat
    requires ptr + 4 <= |src|
  {
    (src[ptr + 2] as int) * 256 + src[ptr + 3] as int
  }

  /** The walk over the segments never leaves the frame; it may well end at something that is no marker. */
  ghost predicate Readable(src: seq<byte>, ptr: nat)
    decreases |src| - ptr
  {
    && ptr < |src|
    && (src[ptr] == 0xFF ==>
        && ptr + 2 <= |src|
        && (src[ptr + 1] != SOS ==>
            && ptr + 4 <= |src| && ptr + 2 + Size(src, ptr) <= |src|
            && (src[ptr + 1] != DHT ==> Readable(src, ptr + 2 + Size(src, ptr)))))
  }

  /** Where the walk ends. */
  function ScanFrom(src: seq<byte>, ptr: nat): (r: Scan)
    requires Readable(src, ptr)
    ensures r.SosAt? ==> ptr <= r.at && r.at + 2 <= |src| && src[r.at] == 0xFF && src[r.at + 1] == SOS
    decreases |src| - ptr
  {
    if src[ptr] != 0xFF then Invalid
    else if src[ptr + 1] == DHT then HasDht
    else if src[ptr + 1] == SOS then SosAt(ptr)
    else ScanFrom(src, ptr + 2 + Size(src, ptr))
  }

  ghost predicate Accessible(src: seq<byte>) {
    |src| >= 2 && (src[0] == 0xFF || src[1] == SOI ==> Readable(src, 2))
  }

  /** The frame that comes out, if any. */
  function Repaired(src: seq<byte>, body: seq<byte>): Option<seq<byte>>
    requires Accessible(src) && |body| == 416
  {
    if src[0] != 0xFF && src[1] != SOI then None
    else
      match ScanFrom(src, 2)
      case HasDht => Some(src)
      case SosAt(at) => Some(src[..at] + Tables(body) + src[at..])
      case Invalid => None
  }

  /** jpeg_encode_mjpeg; len is the length that is left as it was when the frame is not taken. */
  method Encode(src: array<byte>, dst: array<byte>, len: nat, body: seq<byte>) returns (newLen: nat)
    requires |body| == 416 && src != dst && Accessible(src[..]) && dst.Length >= src.Length + DHT_SIZE
    modifies dst
    ensures Repaired(src[..], body).None? ==> newLen == len
    ensures Repaired(src[..], body).Some? ==> newLen <= dst.Length && dst[..newLen] == Repaired(src[..], body).value
  {
    hide Tables, Size;
    ghost var s := src[..];
    if src[0] != 0xFF && src[1] != SOI {
      return len;
    }
    Copy(dst, src, 0, 2);
    var ptr, hasDht := 2, false;
    while !hasDht
      invariant 2 <= ptr <= src.Length && dst[..ptr] == s[..ptr]
      invariant if hasDht then ScanFrom(s, 2) == HasDht else Readable(s, ptr) && ScanFrom(s, 2) == ScanFrom(s, ptr)
      decreases src.Length - ptr, !hasDht
    {
      if src[ptr] != 0xFF {
        return len;
      }
      if src[ptr + 1] == DHT {
        hasDht := true;
      } else if src[ptr + 1] == SOS {
        break;
      }
      var size := Size(src[..], ptr);
      Copy(dst, src, ptr, ptr + 2 + size);
      ptr := ptr + 2 + size;
    }
    if !hasDht {
      Insert(dst, src, ptr, Tables(body));
      newLen := ptr + (DHT_SIZE + src.Length - ptr);
    } else {
      Copy(dst, src, ptr, src.Length);
      newLen := src.Length;
    }
  }

  /** The next piece of the frame is copied to where it was. */
  method Copy(dst: array<byte>, src: array<byte>, from: nat, to: nat)
    requires src != dst && from <= to <= src.Length <= dst.Length && dst[..from] == src[..from]
    modifies dst
    ensures dst[..to] == src[..to]
  {
    MemCpy(dst, from, src[from..to]);
  }

  method Insert(dst: array<byte>, src: array<byte>, at: nat, tables: seq<byte>)
    requires src != dst && at <= src.Length && src.Length + |tables| <= dst.Length && dst[..at] == src[..at]
    modifies dst
    ensures dst[..src.Length + |tables|] == src[..at] + tables + src[at..]
  {
    MemCpy(dst, at, tables);
    MemCpy(dst, at + |tables|, src[at..]);
  }

  // ----- Frames by construction -----

  /** A marker segment with a length; the length counts itself. */
  datatype Segment = Segment(marker: byte, body: seq<byte>)

  ghost predicate Fits(s: Segment) {
    s.marker != SOS && |s.body| + 2 < 0x1_0000
  }

  function SegmentBytes(s: Segment): (b: seq<byte>)
    requires Fits(s)
    ensures |b| == |s.body| + 4
  {
    [0xFF, s.marker, (|s.body| + 2) / 256, (|s.body| + 2) % 256] + s.body
  }

  function Written(segments: seq<Segment>): seq<byte>
    requires forall s | s in segments :: Fits(s)
  {
    if segments == [] then [] else SegmentBytes(segments[0]) + Written(segments[1..])
  }

  /** SOI, the segments, SOS, and whatever follows it. */
  function Frame(segments: seq<Segment>, scan: seq<byte>): seq<byte>
    requires forall s | s in segments :: Fits(s)
  {
    [0xFF, SOI] + Written(segments) + ([0xFF, SOS] + scan)
  }

  predicate HasTables(segments: seq<Segment>) {
    exists s :: s in segments && s.marker == DHT
  }

  lemma OneSegment(src: seq<byte>, ptr: nat, s: Segment, rest: seq<byte>)
    requires Fits(s) && ptr <= |src| && src[ptr..] == SegmentBytes(s) + rest
    ensures ptr + 4 + |s.body| <= |src| && src[ptr] == 0xFF && src[ptr + 1] == s.marker
    ensures Size(src, ptr) == |s.body| + 2 && src[ptr + 4 + |s.body|..] == rest
  {
    var n, b := |s.body| + 2, SegmentBytes(s);
    assert n == n / 256 * 256 + n % 256;
    assert forall k | 0 <= k < |b| :: src[ptr + k] == src[ptr..][k] == b[k];
    assert src[ptr + |b|..] == src[ptr..][|b|..];
  }

  lemma WrittenNone()
    ensures Written([]) == [] && !HasTables([])
  {
  }

  lemma WrittenFirst(segments: seq<Segment>)
    requires segments != [] && forall s | s in segments :: Fits(s)
    ensures Written(segments) == SegmentBytes(segments[0]) + Written(segments[1..])
  {
  }

  lemma TablesFirst(segments: seq<Segment>)
    requires segments != []
    ensures HasTables(segments) <==> segments[0].marker == DHT || HasTables(segments[1..])
  {
    assert segments == [segments[0]] + segments[1..];
  }

  lemma {:induction false} ScanWritten(src: seq<byte>, ptr: nat, segments: seq<Segment>, scan: seq<byte>)
    requires forall s | s in segments :: Fits(s)
    requires ptr <= |src| && src[ptr..] == Written(segments) + ([0xFF, SOS] + scan)
    ensures Readable(src, ptr)
    ensures ScanFrom(src, ptr) == if HasTables(segments) then HasDht else SosAt(ptr + |Written(segments)|)
    decreases |segments|
  {
    hide SegmentBytes, Size, Written, HasTables;
    var end := [0xFF, SOS] + scan;
    if segments == [] {
      WrittenNone();
      assert src[ptr..][0] == 0xFF && src[ptr..][1] == SOS;
    } else {
      var s, others := segments[0], segments[1..];
      WrittenFirst(segments);
      assert Written(segments) + end == SegmentBytes(s) + (Written(others) + end);
      OneSegment(src, ptr, s, Written(others) + end);
      ScanWritten(src, ptr + 4 + |s.body|, others, scan);
      TablesFirst(segments);
    }
  }

  lemma {:induction false} WrittenAppend(segments: seq<Segment>, last: Segment)
    requires Fits(last) && forall s | s in segments :: Fits(s)
    ensures Written(segments + [last]) == Written(segments) + SegmentBytes(last)
  {
    if segments == [] {
      assert segments + [last] == [last];
    } else {
      assert (segments + [last])[1..] == segments[1..] + [last];
      WrittenAppend(segments[1..], last);
    }
  }

  function TablesSegment(body: seq<byte>): (s: Segment)
    requires |body| == 416
    ensures Fits(s) && s.marker == DHT && SegmentBytes(s) == Tables(body)
  {
    Segment(DHT, body)
  }

  /** A well-formed frame comes out as it was if it has tables before its scan, and else with them as its last
      segment. */
  lemma RepairsFrame(segments: seq<Segment>, scan: seq<byte>, body: seq<byte>)
    requires |body| == 416 && forall s | s in segments :: Fits(s)
    ensures Accessible(Frame(segments, scan))
    ensures var whole := if HasTables(segments) then segments else segments + [TablesSegment(body)];
            HasTables(whole) && Repaired(Frame(segments, scan), body) == Some(Frame(whole, scan))
  {
    hide Written, SegmentBytes, Tables, TablesSegment, ScanFrom, Readable;
    var src := Frame(segments, scan);
    assert src[2..] == Written(segments) + ([0xFF, SOS] + scan);
    ScanWritten(src, 2, segments, scan);
    if !HasTables(segments) {
      var t, at := TablesSegment(body), 2 + |Written(segments)|;
      WrittenAppend(segments, t);
      assert src[..at] == [0xFF, SOI] + Written(segments) && src[at..] == [0xFF, SOS] + scan;
      assert (segments + [t])[|segments|] == t;
      assert Frame(segments + [t], scan) == src[..at] + Tables(body) + src[at..];
    }
  }

  // ----- Once is enough -----

  lemma {:induction false} ScanAgain(src: seq<byte>, ptr: nat, at: nat, body: seq<byte>)
    requires |body| == 416 && Readable(src, ptr) && ScanFrom(src, ptr) == SosAt(at)
    ensures var out := src[..at] + Tables(body) + src[at..]; Readable(out, ptr) && ScanFrom(out, ptr) == HasDht
    decreases |src| - ptr
  {
    hide Tables;
    var out := src[..at] + Tables(body) + src[at..];
    if ptr < at {
      ScanAgain(src, ptr + 2 + Size(src, ptr), at, body);
      assert out[ptr] == src[ptr] && out[ptr + 1] == src[ptr + 1];
      assert ptr + 4 <= at;
      assert Size(out, ptr) == Size(src, ptr);
    } else {
      assert out[ptr..][..4] == Tables(body)[..4];
    }
  }

  /** Whatever the frame, what comes out is left alone the second time. */
  lemma Idempotent(src: seq<byte>, body: seq<byte>)
    requires |body| == 416 && Accessible(src) && Repaired(src, body).Some?
    ensures Accessible(Repaired(src, body).value)
    ensures Repaired(Repaired(src, body).value, body) == Repaired(src, body)
  {
    hide Tables;
    if ScanFrom(src, 2).SosAt? {
      ScanAgain(src, 2, ScanFrom(src, 2).at, body);
    }
  }

  // ----- What is refused -----

  /** A frame is taken exactly when one of its first two bytes is right and the walk does not end at a byte that is no
      marker. */
  lemma TakenExact(src: seq<byte>, body: seq<byte>)
    requires |body| == 416 && Accessible(src)
    ensures Repaired(src, body).Some? <==> (src[0] == 0xFF || src[1] == SOI) && !ScanFrom(src, 2).Invalid?
  {
    hide Tables, ScanFrom, Readable;
  }

  /** From one marker, neither of tables nor of the scan, to the next, as far as the two bytes behind it say, whatever
      they say. */
  predicate WalkStep(src: seq<byte>, p: nat, q: nat) {
    && p + 4 <= |src| && src[p] == 0xFF && src[p + 1] != 0xC4 && src[p + 1] != 0xDA
    && q == p + 2 + 256 * (src[p + 2] as int) + src[p + 3] as int < |src|
  }

  /** A byte that is no marker, or the marker of tables or of the scan. */
  predicate WalkEnd(src: seq<byte>, p: nat) {
    && p < |src|
    && (src[p] == 0xFF ==>
          && p + 2 <= |src| && (src[p + 1] == 0xC4 || src[p + 1] == 0xDA)
          && (src[p + 1] == 0xC4 ==>
                p + 4 <= |src| && p + 2 + 256 * (src[p + 2] as int) + src[p + 3] as int <= |src|))
  }

  ghost predicate Walk(src: seq<byte>, places: seq<nat>) {
    && places != [] && WalkEnd(src, places[|places| - 1])
    && forall i: nat | i < |places| - 1 :: WalkStep(src, places[i], places[i + 1])
  }

  /** Where a walk ends decides. */
  lemma {:induction false} WalkEnds(src: seq<byte>, places: seq<nat>)
    requires Walk(src, places)
    ensures Readable(src, places[0])
    ensures var last := places[|places| - 1];
      ScanFrom(src, places[0]) == if src[last] != 0xFF then Invalid else if src[last + 1] == 0xC4 then HasDht
                                  else SosAt(last)
    decreases |places|
  {
    if |places| > 1 {
      assert WalkStep(src, places[0], places[1]);
      assert forall i: nat | i < |places| - 2 :: WalkStep(src, places[1..][i], places[1..][i + 1]);
      WalkEnds(src, places[1..]);
    }
  }

  ghost predicate WalkFrom(src: seq<byte>, ptr: nat, places: seq<nat>) {
    Walk(src, places) && places[0] == ptr
  }

  /** A frame has a walk exactly if the program never leaves it. */
  lemma {:induction false} HasWalk(src: seq<byte>, ptr: nat)
    ensures Readable(src, ptr) <==> exists places :: WalkFrom(src, ptr, places)
    decreases |src| - ptr
  {
    if exists places :: WalkFrom(src, ptr, places) {
      var places :| WalkFrom(src, ptr, places);
      WalkEnds(src, places);
    }
    if Readable(src, ptr) {
      if src[ptr] == 0xFF && src[ptr + 1] != SOS && src[ptr + 1] != DHT {
        var next := ptr + 2 + Size(src, ptr);
        HasWalk(src, next);
        var rest :| WalkFrom(src, next, rest);
        var all := [ptr] + rest;
        assert forall i: nat | i < |all| - 1 :: i > 0 ==> WalkStep(src, rest[i - 1], rest[i]);
        assert WalkFrom(src, ptr, all);
      } else {
        assert WalkFrom(src, ptr, [ptr]);
      }
    }
  }

  /** Any frame, segment lengths of nothing included: what comes out of it once its walk is known. */
  lemma WalkDecides(src: seq<byte>, places: seq<nat>, body: seq<byte>)
    requires |body| == 416 && |src| >= 2 && Walk(src, places) && places[0] == 2
    ensures Accessible(src)
    ensures var last := places[|places| - 1];
      Repaired(src, body) ==
        if (src[0] != 0xFF && src[1] != 0xD8) || src[last] != 0xFF then None
        else if src[last + 1] == 0xC4 then Some(src)
        else Some(src[..last] + ([0xFF, 0xC4, 0x01, 0xA2] + body) + src[last..])
  {
    hide Walk, ScanFrom, Readable;
    WalkEnds(src, places);
    LastThere(src, places);
  }

  lemma LastThere(src: seq<byte>, places: seq<nat>)
    requires Walk(src, places)
    ensures var last := places[|places| - 1]; last < |src| && (src[last] == 0xFF ==> last + 2 <= |src|)
  {
  }

  /** Segments without tables, and then a byte that is no marker. */
  lemma {:induction false} ScanBroken(src: seq<byte>, ptr: nat, segments: seq<Segment>, rest: seq<byte>)
    requires forall s | s in segments :: Fits(s)
    requires !HasTables(segments) && rest != [] && rest[0] != 0xFF
    requires ptr <= |src| && src[ptr..] == Written(segments) + rest
    ensures Readable(src, ptr) && ScanFrom(src, ptr).Invalid?
    decreases |segments|
  {
    hide SegmentBytes, Size, Written, HasTables;
    if segments == [] {
      WrittenNone();
      assert src[ptr..][0] == rest[0];
    } else {
      var s, others := segments[0], segments[1..];
      WrittenFirst(segments);
      assert Written(segments) + rest == SegmentBytes(s) + (Written(others) + rest);
      OneSegment(src, ptr, s, Written(others) + rest);
      TablesFirst(segments);
      ScanBroken(src, ptr + 4 + |s.body|, others, rest);
    }
  }

  /** A break in the segments is noticed, unless tables come before it, and whatever the start of the frame. */
  lemma BreakRefused(start: seq<byte>, segments: seq<Segment>, rest: seq<byte>, body: seq<byte>)
    requires |body| == 416 && |start| == 2 && forall s | s in segments :: Fits(s)
    requires !HasTables(segments) && rest != [] && rest[0] != 0xFF
    ensures var src := start + Written(segments) + rest; Accessible(src) && Repaired(src, body).None?
  {
    hide Written, Tables, ScanFrom, Readable, HasTables;
    var src := start + Written(segments) + rest;
    assert src[2..] == Written(segments) + rest;
    ScanBroken(src, 2, segments, rest);
  }

  /** A wrong start is noticed only if both of its bytes are wrong: the start of an otherwise well-formed frame is
      judged as it should be exactly when its two bytes are both right or both wrong. */
  lemma StartExact(start: seq<byte>, segments: seq<Segment>, scan: seq<byte>, body: seq<byte>)
    requires |body| == 416 && |start| == 2 && forall s | s in segments :: Fits(s)
    ensures var src := start + Written(segments) + ([0xFF, SOS] + scan);
            && Accessible(src)
            && (Repaired(src, body).None? <==> start[0] != 0xFF && start[1] != SOI)
            && ((Repaired(src, body).None? <==> start != [0xFF, SOI])
                <==> (start[0] == 0xFF <==> start[1] == SOI))
  {
    hide Written, Tables, ScanFrom, Readable, HasTables;
    var src := start + Written(segments) + ([0xFF, SOS] + scan);
    assert src[2..] == Written(segments) + ([0xFF, SOS] + scan);
    ScanWritten(src, 2, segments, scan);
  }

  /** A frame that does not start with SOI, and is taken. */
  lemma WrongStart()
    ensures var odd: seq<byte> := [0xFF, 0x00, 0xFF, DHT, 0x00, 0x02];
            Accessible(odd) && forall body | |body| == 416 :: Repaired(odd, body) == Some(odd)
  {
  }
}
