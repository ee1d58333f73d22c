/**
 The serializer: one cursor fills the entries of the current IFD while a second offset
 appends the values behind it, into one buffer (camera/NXExifProcessor.cpp, .h).
 */
module ExifWriter {
  import opened Bytes
  import opened ExifTiff
  import opened ExifLayout

  /** Writing an entry at the first cursor and its values at the second moves both boundaries of the gap
      between them, and disturbs nothing else. */
  lemma Advance(done: seq<byte>, entry: seq<byte>, gap: seq<byte>, values: seq<byte>, payload: seq<byte>,
                rest: seq<byte>)
    requires |entry| <= |gap| && |payload| <= |rest|
    ensures var buf := done + gap + values + rest;
      Put(Put(buf, |done|, entry), |done| + |gap| + |values|, payload)
      == (done + entry) + gap[|entry|..] + (values + payload) + rest[|payload|..]
  {
    var buf := done + gap + values + rest;
    var tail := gap[|entry|..] + values;
    assert buf == done + gap[..|entry|] + (tail + rest);
    PutMiddle(done, gap[..|entry|], tail + rest, entry);
    var front := done + entry + tail;
    assert Put(buf, |done|, entry) == front + rest[..|payload|] + rest[|payload|..];
    PutMiddle(front, rest[..|payload|], rest[|payload|..], payload);
  }

  /** A buffer holding an unfinished IFD: what precedes its entries, the entries written so far, a gap for
      the missing ones and the link, the values written so far, and the rest. */
  ghost function Layout(lead: seq<byte>, fields: seq<Field>, base: nat, gap: seq<byte>, rest: seq<byte>): seq<byte>
    requires AllWritable(fields)
  {
    lead + Entries(fields, base) + gap + Payloads(fields) + rest
  }

  /** One writeExifIfd call, as two writes into the buffer, extends the IFD by one field. */
  lemma LayoutStep(lead: seq<byte>, fields: seq<Field>, base: nat, gap: seq<byte>, rest: seq<byte>, f: Field)
    requires AllWritable(fields) && Writable(f)
    requires |gap| >= IFD_SIZE && |Payload(f)| <= |rest|
    ensures AllWritable(fields + [f]) && |Payloads(fields + [f])| == |Payloads(fields)| + |Payload(f)|
    ensures var at := |lead| + IFD_SIZE * |fields|;
      var values := |Payloads(fields)|;
      Put(Put(Layout(lead, fields, base, gap, rest), at, EntryBytes(f, base + values)), at + |gap| + values, Payload(f))
      == Layout(lead, fields + [f], base, gap[IFD_SIZE..], rest[|Payload(f)|..])
  {
    hide EntryBytes, Entries, Payloads, Payload, Put, AllWritable;
    Snoc(fields, f, base);
    var entry := EntryBytes(f, base + |Payloads(fields)|);
    Advance(lead + Entries(fields, base), entry, gap, Payloads(fields), Payload(f), rest);
    assert lead + Entries(fields, base) + entry == lead + (Entries(fields, base) + entry);
  }

  /** An entry count written behind a finished part opens an IFD with no entries yet. */
  lemma OpenLayout(front: seq<byte>, rest: seq<byte>, count: seq<byte>, size: nat, base: nat)
    requires |count| == 2 && 2 + size <= |rest|
    ensures Payloads([]) == []
    ensures Put(front + rest, |front|, count) == Layout(front + count, [], base, rest[2..][..size], rest[2..][size..])
  {
    var tail := rest[2..];
    assert front + rest == front + rest[..2] + tail;
    PutMiddle(front, rest[..2], tail, count);
    assert tail[..size] + tail[size..] == tail;
  }

  class Cursor {
    const out: array<byte>
    const start: nat     // pIfdStart: where the TIFF part begins
    var cur: nat         // pCur
    var longer: nat      // LongerTagOffset, counted from `start`

    ghost var lead: seq<byte>
    ghost var slots: nat
    ghost var fields: seq<Field>
    ghost var gap: seq<byte>
    ghost var rest: seq<byte>

    ghost function Base(): int
      reads this
    {
      |lead| - start + IFD_SIZE * slots + 4
    }

    ghost predicate Valid()
      reads this, out
    {
      && AllWritable(fields) && |fields| <= slots
      && start + 2 <= |lead|
      && |gap| == IFD_SIZE * (slots - |fields|) + 4
      && cur == |lead| + IFD_SIZE * |fields|
      && longer == Base() + |Payloads(fields)|
      && out[..] == Layout(lead, fields, Base(), gap, rest)
    }

    lemma Room()
      requires Valid()
      ensures start + longer + |rest| == out.Length
      ensures cur + |gap| <= start + longer
    {
      hide EntryBytes, AllWritable;
      assert |out[..]| == out.Length;
    }

    lemma Extent()
      requires Valid()
      ensures longer == Base() + |Payloads(fields)| && cur == |lead| + IFD_SIZE * |fields|
      ensures |gap| == IFD_SIZE * (slots - |fields|) + 4
      ensures |Written()| == start + longer && out[..] == Written() + rest
    {
      hide EntryBytes, AllWritable;
      assert |out[..]| == out.Length;
    }

    /** Opens the first IFD: everything up to the entry count is already in the buffer. */
    constructor (out: array<byte>, start: nat, count: nat)
      requires start + 14 + IFD_SIZE * count <= out.Length
      ensures this.out == out && this.start == start
      ensures Valid() && fields == [] && slots == count
      ensures lead == out[..start + 10] && longer == 14 + IFD_SIZE * count
    {
      this.out := out;
      this.start := start;
      cur := start + 10;
      longer := 8 + 2 + IFD_SIZE * count + 4;
      lead := out[..start + 10];
      slots := count;
      fields := [];
      gap := out[start + 10..start + 14 + IFD_SIZE * count];
      rest := out[start + 14 + IFD_SIZE * count..];
    }

    /** The twelve bytes of an entry, word by word. */
    method PutEntry(tag: nat, typ: nat, count: nat, slot: seq<byte>)
      requires cur + IFD_SIZE <= out.Length && |slot| == 4
      modifies this`cur, out
      ensures cur == old(cur) + IFD_SIZE
      ensures out[..] == Put(old(out[..]), old(cur), Le2(tag) + Le2(typ) + Le4(count) + slot)
    {
      ghost var buf, at := out[..], cur;
      MemCpy(out, cur, Le2(tag));
      cur := cur + 2;
      MemCpy(out, cur, Le2(typ));
      PutAdjacent(buf, at, Le2(tag), Le2(typ));
      cur := cur + 2;
      MemCpy(out, cur, Le4(count));
      PutAdjacent(buf, at, Le2(tag) + Le2(typ), Le4(count));
      cur := cur + 4;
      MemCpy(out, cur, slot);
      PutAdjacent(buf, at, Le2(tag) + Le2(typ) + Le4(count), slot);
      cur := cur + 4;
    }

    /** writeExifIfd with an immediate value. */
    method WriteWord(tag: nat, typ: nat, count: nat, value: nat)
      requires Valid() && |fields| < slots
      modifies this, out
      ensures Valid() && fields == old(fields) + [Word(tag, typ, count, value)]
      ensures lead == old(lead) && slots == old(slots) && longer == old(longer)
    {
      hide Layout, Entries, Payloads, AllWritable, Le2, Le4, Put;
      Room();
      ghost var f := Word(tag, typ, count, value);
      LayoutStep(lead, fields, Base(), gap, rest, f);
      PutEntry(tag, typ, count, Le4(value));
      PutNothing(out[..], start + longer);
      gap, fields := gap[IFD_SIZE..], fields + [f];
    }

    /** writeExifIfd with up to four bytes kept in the entry; a longer value is dropped. */
    method WriteShort(tag: nat, typ: nat, bytes: seq<byte>)
      requires Valid() && |fields| < slots
      modifies this, out
      ensures Valid() && lead == old(lead) && slots == old(slots) && longer == old(longer)
      ensures fields == if |bytes| > 4 then old(fields) else old(fields) + [Short(tag, typ, bytes)]
    {
      hide Layout, Entries, Payloads, AllWritable, Le2, Le4, Put, Zeros;
      if |bytes| > 4 {
        return;
      }
      Room();
      ghost var f := Short(tag, typ, bytes);
      LayoutStep(lead, fields, Base(), gap, rest, f);
      PutEntry(tag, typ, |bytes|, bytes + Zeros(4 - |bytes|));
      PutNothing(out[..], start + longer);
      gap, fields := gap[IFD_SIZE..], fields + [f];
    }

    /** writeExifIfd with bytes behind an offset. */
    method WriteLong(tag: nat, typ: nat, bytes: seq<byte>)
      requires Valid() && |fields| < slots && start + longer + |bytes| <= out.Length
      modifies this, out
      ensures Valid() && fields == old(fields) + [Long(tag, typ, bytes)]
      ensures lead == old(lead) && slots == old(slots) && longer == old(longer) + |bytes|
    {
      hide Layout, Entries, Payloads, AllWritable, Le2, Le4, Put;
      Room();
      ghost var f := Long(tag, typ, bytes);
      LayoutStep(lead, fields, Base(), gap, rest, f);
      PutEntry(tag, typ, |bytes|, Le4(longer));
      MemCpy(out, start + longer, bytes);
      longer := longer + |bytes|;
      gap, rest, fields := gap[IFD_SIZE..], rest[|bytes|..], fields + [f];
    }

    /** writeExifIfd with rationals behind an offset. */
    method WriteRatio(tag: nat, typ: nat, values: seq<Rational>)
      requires Valid() && |fields| < slots && start + longer + 8 * |values| <= out.Length
      modifies this, out
      ensures Valid() && fields == old(fields) + [Ratio(tag, typ, values)]
      ensures lead == old(lead) && slots == old(slots) && longer == old(longer) + 8 * |values|
    {
      hide Layout, Entries, Payloads, AllWritable, Le2, Le4, RatioBytes, Put;
      Room();
      ghost var f := Ratio(tag, typ, values);
      LayoutStep(lead, fields, Base(), gap, rest, f);
      PutEntry(tag, typ, |values|, Le4(longer));
      MemCpy(out, start + longer, RatioBytes(values));
      longer := longer + 8 * |values|;
      gap, rest, fields := gap[IFD_SIZE..], rest[8 * |values|..], fields + [f];
    }

    /** The contents up to the end of the values. */
    ghost function Written(): seq<byte>
      requires Valid()
      reads this, out
    {
      lead + Entries(fields, Base()) + gap + Payloads(fields)
    }

    /** The link that closes a directory whose entries are all written; the cursor is not used again before
        it is moved to the next directory. */
    method WriteLink(next: nat)
      requires Valid() && |fields| == slots
      modifies this, out
      ensures Valid() && gap == Le4(next)
      ensures fields == old(fields) && lead == old(lead) && slots == old(slots) && longer == old(longer)
    {
      hide Entries, Payloads, AllWritable, Le4;
      Room();
      ghost var buf, front := out[..], lead + Entries(fields, Base());
      MemCpy(out, cur, Le4(next));
      assert buf == front + gap + (Payloads(fields) + rest);
      PutMiddle(front, gap, Payloads(fields) + rest, Le4(next));
      assert Put(buf, cur, Le4(next)) == front + Le4(next) + Payloads(fields) + rest;
      gap := Le4(next);
    }

    /** Starts the next directory right behind the values of the last one. */
    method BeginDirectory(count: nat)
      requires Valid() && start + longer + 6 + IFD_SIZE * count <= out.Length
      modifies this, out
      ensures Valid() && fields == [] && slots == count
      ensures lead == old(Written()) + Le2(count) && |lead| == start + old(longer) + 2
      ensures longer == old(longer) + 6 + IFD_SIZE * count
    {
      hide Entries, Payloads, Le2, Written, Layout;
      Extent();
      ghost var front := Written();
      cur := start + longer;
      MemCpy(out, cur, Le2(count));
      cur := cur + 2;
      longer := longer + 2 + IFD_SIZE * count + 4;
      OpenLayout(front, rest, Le2(count), IFD_SIZE * count + 4, |front| + 2 - start + IFD_SIZE * count + 4);
      lead, slots, fields := front + Le2(count), count, [];
      gap, rest := rest[2..][..IFD_SIZE * count + 4], rest[2..][IFD_SIZE * count + 4..];
    }

    /** A finished directory is a block of the TIFF part. */
    lemma Closed(front: seq<byte>, at: nat)
      requires Valid() && |fields| == slots && gap == Le4(0)
      requires lead == front + Le2(slots) && |front| == start + at
      ensures Written() == front + Block(fields, at, 0) && longer == at + BlockSize(fields)
    {
      hide Entries, Payloads, AllWritable, Le2, Le4;
      var e, p := Entries(fields, Base()), Payloads(fields);
      assert front + Le2(slots) + e + Le4(0) + p == front + (Le2(slots) + e + Le4(0) + p);
    }

    /** Fills a hole left in an earlier directory. */
    method Patch(at: nat, bytes: seq<byte>)
      requires Valid() && at + |bytes| <= |lead|
      modifies this, out
      ensures Valid() && lead == Put(old(lead), at, bytes)
      ensures at + |bytes| <= |old(Written())| && Written() == Put(old(Written()), at, bytes)
      ensures cur == old(cur) && longer == old(longer)
      ensures fields == old(fields) && slots == old(slots) && gap == old(gap)
    {
      hide Entries, Payloads, AllWritable, Put;
      Room();
      ghost var buf, body := out[..], Entries(fields, Base()) + gap + Payloads(fields);
      assert Written() == lead + body && buf == lead + (body + rest);
      MemCpy(out, at, bytes);
      PutFirst(lead, body, at, bytes);
      PutFirst(lead, body + rest, at, bytes);
      assert Put(lead, at, bytes) + (body + rest) == Put(lead, at, bytes) + body + rest;
      lead := Put(lead, at, bytes);
    }

    /** writeExifIfd with an immediate value at a remembered place. */
    method PatchEntry(at: nat, tag: nat, typ: nat, count: nat, value: nat)
      requires Valid() && at + IFD_SIZE <= |lead|
      modifies this, out
      ensures Valid() && lead == Put(old(lead), at, EntryBytes(Word(tag, typ, count, value), 0))
      ensures at + IFD_SIZE <= |old(Written())|
      ensures Written() == Put(old(Written()), at, EntryBytes(Word(tag, typ, count, value), 0))
      ensures cur == old(cur) && longer == old(longer)
      ensures fields == old(fields) && slots == old(slots) && gap == old(gap)
    {
      hide Valid, Written, Le2, Le4;
      Patch(at, Le2(tag) + Le2(typ) + Le4(count) + Le4(value));
    }
  }
}
