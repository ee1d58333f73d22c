/**
 The TIFF layout that the EXIF serializer produces, as an ordered concatenation of blocks,
 and an independent reader for it (TIFF 6.0 section 2, Exif 2.2 section 4.6.2).
 A block is one IFD: its entry count, its 12-byte entries, the offset of the next IFD, and
 then the values that do not sit inside their entries.
 */
module ExifTiff {
  import opened Bytes
  import opened Options

  type word = x: int | 0 <= x < 0x1_0000_0000

  /** Both rational types; a signed number is held as its 32-bit pattern. */
  datatype Rational = Rational(num: word, den: word)

  /** What one writeExifIfd call is asked to write; one constructor per overload. */
  datatype Field =
    | Word(tag: nat, typ: nat, count: nat, value: nat)
    | Short(tag: nat, typ: nat, bytes: seq<byte>)
    | Long(tag: nat, typ: nat, bytes: seq<byte>)
    | Ratio(tag: nat, typ: nat, values: seq<Rational>)

  const BYTE := 1
  const ASCII := 2
  const SHORT := 3
  const LONG := 4
  const RATIONAL := 5
  const UNDEFINED := 7
  const SRATIONAL := 10

  const IFD_SIZE := 12

  function RatioBytes(rs: seq<Rational>): (b: seq<byte>)
    ensures |b| == 8 * |rs|
  {
    if rs == [] then [] else RatioBytes(rs[..|rs| - 1]) + Le4(rs[|rs| - 1].num) + Le4(rs[|rs| - 1].den)
  }

  /** The bytes a field stores outside its entry. */
  function Payload(f: Field): seq<byte> {
    match f
    case Word(_, _, _, _) => []
    case Short(_, _, _) => []
    case Long(_, _, bytes) => bytes
    case Ratio(_, _, values) => RatioBytes(values)
  }

  function Count(f: Field): nat {
    match f
    case Word(_, _, count, _) => count
    case Short(_, _, bytes) => |bytes|
    case Long(_, _, bytes) => |bytes|
    case Ratio(_, _, values) => |values|
  }

  /** The last four bytes of a field's entry, when its outside bytes start at `offset`. */
  function Slot(f: Field, offset: nat): (b: seq<byte>)
    requires f.Short? ==> |f.bytes| <= 4
    ensures |b| == 4
  {
    match f
    case Word(_, _, _, value) => Le4(value)
    case Short(_, _, bytes) => bytes + Zeros(4 - |bytes|)
    case Long(_, _, _) => Le4(offset)
    case Ratio(_, _, _) => Le4(offset)
  }

  ghost predicate Writable(f: Field) {
    f.Short? ==> |f.bytes| <= 4
  }

  ghost predicate AllWritable(fs: seq<Field>) {
    forall i :: 0 <= i < |fs| ==> Writable(fs[i])
  }

  function EntryBytes(f: Field, offset: nat): (b: seq<byte>)
    requires f.Short? ==> |f.bytes| <= 4
    ensures |b| == IFD_SIZE
  {
    Le2(f.tag) + Le2(f.typ) + Le4(Count(f)) + Slot(f, offset)
  }

  ghost function Payloads(fs: seq<Field>): seq<byte> {
    if fs == [] then [] else Payloads(fs[..|fs| - 1]) + Payload(fs[|fs| - 1])
  }

  ghost function Entries(fs: seq<Field>, offset: nat): (b: seq<byte>)
    requires AllWritable(fs)
    ensures |b| == IFD_SIZE * |fs|
  {
    if fs == [] then []
    else
      var front := fs[..|fs| - 1];
      Entries(front, offset) + EntryBytes(fs[|fs| - 1], offset + |Payloads(front)|)
  }

  lemma Snoc(fs: seq<Field>, f: Field, offset: nat)
    requires AllWritable(fs) && Writable(f)
    ensures AllWritable(fs + [f])
    ensures Payloads(fs + [f]) == Payloads(fs) + Payload(f)
    ensures Entries(fs + [f], offset) == Entries(fs, offset) + EntryBytes(f, offset + |Payloads(fs)|)
  {
    hide EntryBytes, Payload, Writable;
    assert (fs + [f])[..|fs|] == fs;
  }

  /** One IFD at TIFF offset `at`, with its outside values behind it. */
  ghost function Block(fs: seq<Field>, at: nat, next: nat): (b: seq<byte>)
    requires AllWritable(fs)
    ensures |b| == BlockSize(fs)
  {
    Le2(|fs|) + Entries(fs, ValuesAt(fs, at)) + Le4(next) + Payloads(fs)
  }

  ghost function ValuesAt(fs: seq<Field>, at: nat): nat {
    at + 2 + IFD_SIZE * |fs| + 4
  }

  ghost function BlockSize(fs: seq<Field>): nat {
    2 + IFD_SIZE * |fs| + 4 + |Payloads(fs)|
  }

  // ----- The reader -----

  datatype Entry = Entry(tag: nat, typ: nat, count: nat, value: seq<byte>)

  datatype Directory = Directory(entries: seq<Entry>, next: nat)

  /** Bytes per element; 0 for a type the reader does not know. */
  function TypeSize(typ: nat): nat {
    if typ == BYTE || typ == ASCII || typ == UNDEFINED then 1
    else if typ == SHORT then 2
    else if typ == LONG then 4
    else if typ == RATIONAL || typ == SRATIONAL then 8
    else 0
  }

  /** TIFF 6.0: a value of at most four bytes sits in the entry, a longer one behind an offset. */
  function ReadEntry(t: seq<byte>, at: nat): Option<Entry> {
    if at + IFD_SIZE > |t| then None
    else
      var typ := FromLe2(t[at + 2..at + 4]);
      var count := FromLe4(t[at + 4..at + 8]);
      var size := TypeSize(typ) * count;
      var from := if size <= 4 then at + 8 else FromLe4(t[at + 8..at + 12]);
      if TypeSize(typ) == 0 || from + size > |t| then None
      else Some(Entry(FromLe2(t[at..at + 2]), typ, count, t[from..from + size]))
  }

  function ReadEntries(t: seq<byte>, at: nat, n: nat): Option<seq<Entry>> {
    if n == 0 then Some([])
    else
      var front := ReadEntries(t, at, n - 1);
      var last := ReadEntry(t, at + IFD_SIZE * (n - 1));
      if front.None? || last.None? then None else Some(front.value + [last.value])
  }

  function ReadDirectory(t: seq<byte>, at: nat): Option<Directory> {
    if at + 2 > |t| then None
    else
      var n := FromLe2(t[at..at + 2]);
      var end := at + 2 + IFD_SIZE * n;
      if end + 4 > |t| then None
      else
        var entries := ReadEntries(t, at + 2, n);
        if entries.None? then None
        else Some(Directory(entries.value, FromLe4(t[end..end + 4])))
  }

  /** What a reader should see of a field. */
  function Meaning(f: Field): Entry {
    Entry(f.tag, f.typ, Count(f),
          match f
          case Word(_, typ, count, value) =>
            if TypeSize(typ) * count <= 4 then Le4(value)[..TypeSize(typ) * count] else []
          case Short(_, _, bytes) => bytes
          case Long(_, _, bytes) => bytes
          case Ratio(_, _, values) => RatioBytes(values))
  }

  function Meanings(fs: seq<Field>): (es: seq<Entry>)
    ensures |es| == |fs|
  {
    if fs == [] then [] else Meanings(fs[..|fs| - 1]) + [Meaning(fs[|fs| - 1])]
  }

  /** The field is one the writer's overloads are meant for: the type matches the form. */
  ghost predicate Typed(f: Field) {
    && f.tag < 0x1_0000 && f.typ < 0x1_0000 && Count(f) < 0x1_0000_0000
    && match f
       case Word(_, typ, count, value) => value < 0x1_0000_0000 && TypeSize(typ) != 0 && TypeSize(typ) * count <= 4
       case Short(_, typ, bytes) => TypeSize(typ) == 1 && |bytes| <= 4
       case Long(_, typ, _) => TypeSize(typ) == 1
       case Ratio(_, typ, values) => (typ == RATIONAL || typ == SRATIONAL) && values != []
  }

  ghost predicate AllTyped(fs: seq<Field>) {
    forall i :: 0 <= i < |fs| ==> Typed(fs[i])
  }

  /** TIFF forbids storing four bytes or fewer behind an offset: a reader then takes the offset for the value,
      which is right only if it happens to spell the same bytes. */
  predicate Spelled(f: Field, offset: nat) {
    f.Long? && |f.bytes| <= 4 ==> f.bytes == Le4(offset)[..|f.bytes|]
  }

  ghost predicate AllSpelled(fs: seq<Field>, offset: nat) {
    fs != [] ==>
      var front, last := fs[..|fs| - 1], fs[|fs| - 1];
      AllSpelled(front, offset) && Spelled(last, offset + |Payloads(front)|)
  }

  /** `t` holds `b` at `at`. */
  ghost predicate Holds(t: seq<byte>, at: nat, b: seq<byte>) {
    at + |b| <= |t| && t[at..at + |b|] == b
  }

  lemma HoldsParts(t: seq<byte>, at: nat, x: seq<byte>, y: seq<byte>)
    requires Holds(t, at, x + y)
    ensures Holds(t, at, x) && Holds(t, at + |x|, y)
    ensures at + |x| + |y| <= |t|
  {
    assert t[at..at + |x|] == (x + y)[..|x|];
    assert t[at + |x|..at + |x| + |y|] == (x + y)[|x|..];
  }

  lemma SliceOfSlice(t: seq<byte>, at: nat, n: nat, i: nat, j: nat)
    requires at + n <= |t| && i <= j <= n
    ensures t[at..at + n][i..j] == t[at + i..at + j]
  {
    var left, right := t[at..at + n][i..j], t[at + i..at + j];
    assert forall k :: 0 <= k < j - i ==> left[k] == t[at + i + k] == right[k];
  }

  lemma EntryHeader(t: seq<byte>, at: nat, f: Field, offset: nat)
    requires Typed(f) && Holds(t, at, EntryBytes(f, offset))
    ensures FromLe2(t[at..at + 2]) == f.tag
    ensures FromLe2(t[at + 2..at + 4]) == f.typ
    ensures FromLe4(t[at + 4..at + 8]) == Count(f)
    ensures t[at + 8..at + 12] == Slot(f, offset)
  {
    var e := EntryBytes(f, offset);
    SliceOfSlice(t, at, IFD_SIZE, 0, 2);
    SliceOfSlice(t, at, IFD_SIZE, 2, 4);
    SliceOfSlice(t, at, IFD_SIZE, 4, 8);
    SliceOfSlice(t, at, IFD_SIZE, 8, 12);
    assert e[..2] == Le2(f.tag) && e[2..4] == Le2(f.typ);
    assert e[4..8] == Le4(Count(f)) && e[8..12] == Slot(f, offset);
    Le2RoundTrip(f.tag);
    Le2RoundTrip(f.typ);
    Le4RoundTrip(Count(f));
  }

  function ValueSize(f: Field): int {
    TypeSize(f.typ) * Count(f)
  }

  lemma SizeOfForm(f: Field)
    requires Typed(f)
    ensures match f
            case Word(_, _, _, _) => 0 <= ValueSize(f) <= 4
            case Short(_, _, bytes) => ValueSize(f) == |bytes| <= 4
            case Long(_, _, bytes) => ValueSize(f) == |bytes|
            case Ratio(_, _, values) => ValueSize(f) == 8 * |values| > 4
    ensures TypeSize(f.typ) != 0
  {
  }

  /** What a reader takes for the value of a field. */
  function Seen(f: Field, offset: nat): seq<byte>
    requires f.Short? ==> |f.bytes| <= 4
    requires 0 <= ValueSize(f)
  {
    if ValueSize(f) <= 4 then Slot(f, offset)[..ValueSize(f)] else Payload(f)
  }

  /** The header of the entry at a place, and its last four bytes. */
  ghost predicate Header(t: seq<byte>, at: nat, tag: nat, typ: nat, count: nat, slot: seq<byte>) {
    && at + IFD_SIZE <= |t| && TypeSize(typ) != 0
    && FromLe2(t[at..at + 2]) == tag && FromLe2(t[at + 2..at + 4]) == typ && FromLe4(t[at + 4..at + 8]) == count
    && t[at + 8..at + 12] == slot && |slot| == 4
  }

  lemma ReadsInside(t: seq<byte>, at: nat, tag: nat, typ: nat, count: nat, slot: seq<byte>, size: nat)
    requires Header(t, at, tag, typ, count, slot) && size == TypeSize(typ) * count <= 4
    ensures ReadEntry(t, at) == Some(Entry(tag, typ, count, slot[..size]))
  {
    hide FromLe2, FromLe4, TypeSize;
    SliceOfSlice(t, at + 8, 4, 0, size);
    assert slot[..size] == slot[0..size];
  }

  lemma ReadsOutside(t: seq<byte>, at: nat, tag: nat, typ: nat, count: nat, slot: seq<byte>, size: nat, from: nat)
    requires Header(t, at, tag, typ, count, slot) && size == TypeSize(typ) * count > 4
    requires FromLe4(slot) == from && from + size <= |t|
    ensures ReadEntry(t, at) == Some(Entry(tag, typ, count, t[from..from + size]))
  {
    hide FromLe2, FromLe4, TypeSize;
  }

  lemma HeaderInPlace(t: seq<byte>, at: nat, f: Field, offset: nat)
    requires Typed(f) && Holds(t, at, EntryBytes(f, offset))
    ensures Header(t, at, f.tag, f.typ, Count(f), Slot(f, offset))
  {
    EntryHeader(t, at, f, offset);
    SizeOfForm(f);
    hide EntryBytes, Slot, FromLe2, FromLe4, TypeSize, Typed;
  }

  lemma ReadsSlot(t: seq<byte>, at: nat, f: Field, offset: nat, size: nat)
    requires Typed(f) && Holds(t, at, EntryBytes(f, offset)) && size == ValueSize(f)
    requires offset < 0x1_0000_0000 && Holds(t, offset, Payload(f))
    requires size > 4 ==> (f.Long? || f.Ratio?) && |Payload(f)| == size
    ensures ReadEntry(t, at) == Some(Entry(f.tag, f.typ, Count(f), Seen(f, offset)))
  {
    HeaderInPlace(t, at, f, offset);
    assert size > 4 ==> offset + size <= |t| && t[offset..offset + size] == Payload(f);
    hide Header, Holds, EntryBytes, Slot, FromLe4, TypeSize, Payload, ReadEntry, Typed;
    if size <= 4 {
      ReadsInside(t, at, f.tag, f.typ, Count(f), Slot(f, offset), size);
    } else {
      SlotIsOffset(f, offset);
      ReadsOutside(t, at, f.tag, f.typ, Count(f), Slot(f, offset), size, offset);
    }
  }

  lemma SlotIsOffset(f: Field, offset: nat)
    requires (f.Long? || f.Ratio?) && offset < 0x1_0000_0000
    ensures FromLe4(Slot(f, offset)) == offset
  {
    Le4RoundTrip(offset);
  }

  lemma SeenExact(f: Field, offset: nat)
    requires Typed(f)
    ensures 0 <= ValueSize(f) && (Seen(f, offset) == Meaning(f).value <==> Spelled(f, offset))
    ensures ValueSize(f) > 4 ==> (f.Long? || f.Ratio?) && |Payload(f)| == ValueSize(f)
  {
    SizeOfForm(f);
    hide Typed, Le4, RatioBytes, TypeSize, ValueSize;
    if f.Short? {
      assert Slot(f, offset)[..|f.bytes|] == f.bytes;
    } else if f.Word? {
      WordSeen(f);
    }
  }

  lemma WordSeen(f: Field)
    requires f.Word? && Typed(f)
    ensures 0 <= ValueSize(f) <= 4 && Meaning(f).value == Le4(f.value)[..ValueSize(f)]
  {
    hide Le4, TypeSize;
  }

  /** An entry in place together with its outside bytes reads back as the field, exactly when TIFF's size
      rule agrees with the form the writer chose or the offset happens to spell the value. */
  lemma ReadEntryExact(t: seq<byte>, at: nat, f: Field, offset: nat)
    requires Typed(f) && Holds(t, at, EntryBytes(f, offset))
    requires offset < 0x1_0000_0000 && Holds(t, offset, Payload(f))
    ensures ReadEntry(t, at) == Some(Meaning(f)) <==> Spelled(f, offset)
    ensures ReadEntry(t, at).Some?
  {
    hide EntryBytes, ReadEntry, Typed, Payload, ValueSize, Seen, Holds, Spelled;
    SeenExact(f, offset);
    ReadsSlot(t, at, f, offset, ValueSize(f));
    assert Meaning(f) == Entry(f.tag, f.typ, Count(f), Meaning(f).value);
  }

  lemma LastEntryParts(t: seq<byte>, at: nat, fs: seq<Field>, offset: nat)
    requires fs != [] && AllWritable(fs) && AllTyped(fs)
    requires Holds(t, at, Entries(fs, offset)) && Holds(t, offset, Payloads(fs))
    ensures AllWritable(fs[..|fs| - 1]) && AllTyped(fs[..|fs| - 1])
    ensures Typed(fs[|fs| - 1])
    ensures offset + |Payloads(fs[..|fs| - 1])| <= |t|
    ensures var front, last := fs[..|fs| - 1], fs[|fs| - 1];
      && Holds(t, at, Entries(front, offset)) && Holds(t, offset, Payloads(front))
      && var from := offset + |Payloads(front)|;
         Holds(t, at + IFD_SIZE * |front|, EntryBytes(last, from)) && Holds(t, from, Payload(last))
  {
    hide Holds, Typed, EntryBytes, Payload;
    var front, last := fs[..|fs| - 1], fs[|fs| - 1];
    HoldsParts(t, at, Entries(front, offset), EntryBytes(last, offset + |Payloads(front)|));
    HoldsParts(t, offset, Payloads(front), Payload(last));
  }

  lemma LastOfEqual<T>(xs: seq<T>, x: T, ys: seq<T>, y: T)
    requires |xs| == |ys|
    ensures xs + [x] == ys + [y] <==> xs == ys && x == y
  {
    if xs + [x] == ys + [y] {
      assert xs == (xs + [x])[..|xs|] && ys == (ys + [y])[..|ys|];
      assert x == (xs + [x])[|xs|] && y == (ys + [y])[|ys|];
    }
  }

  lemma {:induction false} ReadEntriesExact(t: seq<byte>, at: nat, fs: seq<Field>, offset: nat)
    requires AllWritable(fs) && AllTyped(fs) && |t| < 0x1_0000_0000
    requires Holds(t, at, Entries(fs, offset)) && Holds(t, offset, Payloads(fs))
    ensures ReadEntries(t, at, |fs|) == Some(Meanings(fs)) <==> AllSpelled(fs, offset)
    ensures ReadEntries(t, at, |fs|).Some? && |ReadEntries(t, at, |fs|).value| == |fs|
  {
    hide Holds, Entries, Payloads, Typed, EntryBytes, ReadEntry, Meaning, Payload, AllTyped, Spelled;
    if fs != [] {
      var front, last := fs[..|fs| - 1], fs[|fs| - 1];
      LastEntryParts(t, at, fs, offset);
      ReadEntriesExact(t, at, front, offset);
      ReadEntryExact(t, at + IFD_SIZE * |front|, last, offset + |Payloads(front)|);
      LastOfEqual(ReadEntries(t, at, |front|).value, ReadEntry(t, at + IFD_SIZE * |front|).value,
                  Meanings(front), Meaning(last));
    }
  }

  /** A whole IFD reads back as the fields it was written from, with its link, exactly when each of them does. */
  lemma ReadBlockExact(t: seq<byte>, at: nat, fs: seq<Field>, next: nat)
    requires AllWritable(fs) && AllTyped(fs)
    requires |t| < 0x1_0000_0000 && |fs| < 0x1_0000 && next < 0x1_0000_0000
    requires Holds(t, at, Block(fs, at, next))
    ensures ReadDirectory(t, at) == Some(Directory(Meanings(fs), next)) <==> AllSpelled(fs, ValuesAt(fs, at))
    ensures ReadDirectory(t, at).Some? && ReadDirectory(t, at).value.next == next
  {
    hide Entries, Payloads, AllTyped, AllWritable, Meanings, ReadEntries, AllSpelled;
    var values := ValuesAt(fs, at);
    HoldsParts(t, at, Le2(|fs|) + Entries(fs, values) + Le4(next), Payloads(fs));
    HoldsParts(t, at, Le2(|fs|) + Entries(fs, values), Le4(next));
    HoldsParts(t, at, Le2(|fs|), Entries(fs, values));
    Le2RoundTrip(|fs|);
    Le4RoundTrip(next);
    ReadEntriesExact(t, at + 2, fs, values);
  }
}
