/** Writing boot images to the flash (spi_update/update.c), and a boot reader that checks them. */
module FlashUpdate {
  import opened Octets
  import opened Flash
  import opened Options
  import C = Crc

  const SECBOOT := 1
  const UBOOT := 2
  const EINVAL := 22
  const SECBOOT_SIZE := 16 * 1024
  const SECBOOT_CRC := SECBOOT_SIZE - 16
  const UBOOT_OFFSET := 64 * 1024
  const HEADER := 512
  const TEXT_BASE := 0x40c0_0000
  const ADDRESS_STEP: bv8 := 3
  const SIGNATURE: seq<bv8> := [0x4E, 0x53, 0x49, 0x48]

  // ----- The header in front of the second image -----

  function Ones(n: nat): (s: seq<bv8>)
    ensures |s| == n
  {
    seq(n, _ => 0xFF)
  }

  function Header(size: nat, crc: bv32): (s: seq<bv8>)
    ensures |s| == HEADER
  {
    Ones(0x44) + NumberBytes(size) + NumberBytes(TEXT_BASE) + NumberBytes(TEXT_BASE)
    + [ADDRESS_STEP] + Ones(7) + WordBytes(crc) + Ones(0x1A0) + SIGNATURE
  }

  method Put(head: array<bv8>, at: nat, bytes: seq<bv8>)
    requires at + |bytes| <= head.Length
    modifies head
    ensures head[..] == Overwritten(old(head[..]), at, bytes)
  {
    forall k | 0 <= k < |bytes| {
      head[at + k] := bytes[k];
    }
  }

  function Filled(size: nat, crc: bv32): (s: seq<bv8>)
    ensures |s| == HEADER
  {
    var s1 := Overwritten(Ones(HEADER), 0x48, NumberBytes(TEXT_BASE));
    var s2 := Overwritten(s1, 0x4C, NumberBytes(TEXT_BASE));
    var s3 := Overwritten(s2, 0x44, NumberBytes(size));
    var s4 := Overwritten(s3, 0x1FC, SIGNATURE);
    Overwritten(Overwritten(s4, 0x50, [ADDRESS_STEP]), 0x58, WordBytes(crc))
  }

  lemma OverMiddle(front: seq<bv8>, middle: seq<bv8>, rest: seq<bv8>, bytes: seq<bv8>)
    requires |middle| == |bytes|
    ensures Overwritten(front + middle + rest, |front|, bytes) == front + bytes + rest
  {
  }

  lemma OnesSplit(m: nat, n: nat, k: nat)
    ensures Ones(m + n + k) == Ones(m) + Ones(n) + Ones(k)
  {
  }

  lemma FilledIsHeader(size: nat, crc: bv32)
    ensures Filled(size, crc) == Header(size, crc)
  {
    hide NumberBytes, WordBytes, Overwritten, Ones;
    var text, n, w := NumberBytes(TEXT_BASE), NumberBytes(size), WordBytes(crc);
    OnesSplit(0x48, 4, 0x1B4);
    OverMiddle(Ones(0x48), Ones(4), Ones(0x1B4), text);
    OnesSplit(0, 4, 0x1B0);
    OverMiddle(Ones(0x48) + text, Ones(4), Ones(0x1B0), text);
    assert Ones(0) + Ones(4) == Ones(4);
    assert Ones(0x48) + text + Ones(0x1B4) == Ones(0x48) + text + Ones(4) + Ones(0x1B0);
    OnesSplit(0x44, 4, 0);
    assert Ones(0x48) + text + text + Ones(0x1B0) == Ones(0x44) + Ones(4) + (text + text + Ones(0x1B0));
    OverMiddle(Ones(0x44), Ones(4), text + text + Ones(0x1B0), n);
    OnesSplit(0x1AC, 4, 0);
    var s3 := Ones(0x44) + n + text + text;
    assert Ones(0x44) + n + (text + text + Ones(0x1B0)) == s3 + Ones(0x1AC) + Ones(4) + [];
    OverMiddle(s3 + Ones(0x1AC), Ones(4), [], SIGNATURE);
    OnesSplit(1, 7, 0x1A4);
    OnesSplit(4, 0x1A0, 0);
    assert Ones(0x1AC) == Ones(1) + Ones(7) + (Ones(4) + Ones(0x1A0));
    assert s3 + Ones(0x1AC) + SIGNATURE + [] == s3 + Ones(1) + (Ones(7) + (Ones(4) + Ones(0x1A0)) + SIGNATURE);
    OverMiddle(s3, Ones(1), Ones(7) + (Ones(4) + Ones(0x1A0)) + SIGNATURE, [ADDRESS_STEP]);
    var s5 := s3 + [ADDRESS_STEP] + Ones(7);
    assert s3 + [ADDRESS_STEP] + (Ones(7) + (Ones(4) + Ones(0x1A0)) + SIGNATURE)
        == s5 + Ones(4) + (Ones(0x1A0) + SIGNATURE);
    OverMiddle(s5, Ones(4), Ones(0x1A0) + SIGNATURE, w);
    assert s5 + w + (Ones(0x1A0) + SIGNATURE) == Header(size, crc);
  }

  method MakeHeader(size: nat, crc: bv32) returns (head: array<bv8>)
    ensures fresh(head) && head[..] == Header(size, crc)
  {
    hide NumberBytes, WordBytes, Overwritten, Header;
    head := new bv8[HEADER](_ => 0xFF);
    assert head[..] == Ones(HEADER);
    Put(head, 0x48, NumberBytes(TEXT_BASE));
    Put(head, 0x4C, NumberBytes(TEXT_BASE));
    Put(head, 0x44, NumberBytes(size));
    Put(head, 0x1FC, SIGNATURE);
    Put(head, 0x50, [ADDRESS_STEP]);
    Put(head, 0x58, WordBytes(crc));
    FilledIsHeader(size, crc);
  }

  // ----- The boot reader -----

  datatype Boot = Boot(image: seq<bv8>, load: nat, jump: nat, step: bv8)

  /** What a boot reader makes of the flash: it goes by the signature, the size and the checksum it finds there. */
  function BootImage(flash: seq<bv8>): Option<Boot> {
    if |flash| < UBOOT_OFFSET + HEADER then None
    else
      var head := flash[UBOOT_OFFSET..UBOOT_OFFSET + HEADER];
      var start, size := UBOOT_OFFSET + HEADER, Number(head[0x44..0x48]);
      if head[0x1FC..] != SIGNATURE || start + size > |flash| then None
      else if C.Crc(flash[start..start + size]) != Word(head[0x58..0x5C]) then None
      else Some(Boot(flash[start..start + size], Number(head[0x48..0x4C]), Number(head[0x4C..0x50]), head[0x50]))
  }

  /** The first-stage image, checked by the word in its last sixteen bytes. */
  function SecondBoot(flash: seq<bv8>): Option<seq<bv8>> {
    if |flash| < SECBOOT_SIZE || C.Crc(flash[..SECBOOT_CRC]) != Word(flash[SECBOOT_CRC..SECBOOT_CRC + 4]) then None
    else Some(flash[..SECBOOT_CRC])
  }

  // ----- The update -----

  method Checksum(mem: array<bv8>, size: nat) returns (crc: bv32)
    requires size <= mem.Length
    ensures crc == C.Crc(mem[..size])
  {
    hide C.Fcs;
    crc := 0;
    for i := 0 to size
      invariant crc == C.Crc(mem[..i])
    {
      assert mem[..i + 1][..i] == mem[..i];
      crc := C.GetFcs(crc, mem[i]);
    }
  }

  lemma NextPart(mem: seq<bv8>, at: nat, buf: seq<bv8>, done: nat, more: nat)
    requires done + more <= |buf| && at + done + more <= |mem|
    ensures Overwritten(Overwritten(mem, at, buf[..done]), at + done, buf[done..][..more])
         == Overwritten(mem, at, buf[..done + more])
  {
  }

  /** The chip after data were stored at a place, and the last command has cleared the enable latch. */
  ghost function Rewritten(chip: Chip, at: nat, data: seq<bv8>): (r: Chip)
    requires at + |data| <= |chip.mem|
    ensures |r.mem| == |chip.mem|
  {
    chip.(mem := Overwritten(chip.mem, at, data), wel := false)
  }

  /** Whole erase blocks that hold so many bytes. */
  function Blocks(size: nat): (n: nat)
    ensures n * BLOCK >= size && (size > 0 ==> (n - 1) * BLOCK < size)
  {
    (size + BLOCK - 1) / BLOCK
  }

  /** One turn of the loop: the block at offset is replaced in full, whether or not it was erased before. */
  method WriteBlock(nor: Nor, offset: nat, data: seq<bv8>)
    requires Sound(nor.chip) && |data| >= BLOCK && offset % BLOCK == 0 && offset + BLOCK <= |nor.chip.mem|
    modifies nor
    ensures nor.chip == Rewritten(old(nor.chip), offset, data[..BLOCK])
  {
    hide Cleared, Erased, Overwritten;
    EepromWriteEnable(nor);
    EepromBlkErase(nor, offset);
    EepromWriteEnable(nor);
    EepromWrite(nor, offset, data, BLOCK);
    EraseThenProgram(old(nor.chip).mem, offset / BLOCK, data[..BLOCK]);
    assert data[..BLOCK] + Ones(0) == data[..BLOCK];
  }

  /** The erase and program loop: all blocks that hold the first count bytes are replaced, in full. */
  method WriteBlocks(nor: Nor, wbuf: seq<bv8>, count: nat)
    requires Sound(nor.chip) && 0 < count && Blocks(count) * BLOCK <= |wbuf|
    requires UBOOT_OFFSET + Blocks(count) * BLOCK <= |nor.chip.mem|
    modifies nor
    ensures nor.chip == Rewritten(old(nor.chip), UBOOT_OFFSET, wbuf[..Blocks(count) * BLOCK])
  {
    hide Overwritten, Blocks, Cleared, Erased;
    var wSize, offset, size := 0, UBOOT_OFFSET, count;
    ghost var before, done := nor.chip, 0;
    OverwrittenNone(before.mem, UBOOT_OFFSET, wbuf);
    while true
      invariant 0 < size == count - wSize && wSize == done * BLOCK && offset == UBOOT_OFFSET + wSize
      invariant Replaced(before, nor.chip, wbuf, wSize)
      decreases size
    {
      MoreBlocks(count, done);
      WriteNext(nor, offset, wbuf, wSize, before, done);
      wSize, offset, size := wSize + BLOCK, offset + BLOCK, size - BLOCK;
      done := done + 1;
      if size <= 0 {
        LastBlock(count, done);
        break;
      }
    }
  }

  /** Flash from 64K on holds the first bytes of the buffer, and is else as it was. */
  ghost predicate Replaced(before: Chip, now: Chip, wbuf: seq<bv8>, size: nat) {
    && size <= |wbuf| && UBOOT_OFFSET + size <= |before.mem|
    && now.(wel := false) == Rewritten(before, UBOOT_OFFSET, wbuf[..size])
    && (size > 0 ==> !now.wel)
  }

  method WriteNext(nor: Nor, offset: nat, wbuf: seq<bv8>, wSize: nat, ghost before: Chip, ghost done: nat)
    requires Sound(before) && Replaced(before, nor.chip, wbuf, wSize)
    requires wSize == done * BLOCK && offset == UBOOT_OFFSET + wSize
    requires wSize + BLOCK <= |wbuf| && offset + BLOCK <= |before.mem|
    modifies nor
    ensures Replaced(before, nor.chip, wbuf, wSize + BLOCK)
  {
    hide Overwritten, Blocks;
    NextOffset(done);
    WriteBlock(nor, offset, wbuf[wSize..]);
    NextPart(before.mem, UBOOT_OFFSET, wbuf, wSize, BLOCK);
  }

  lemma NextOffset(done: nat)
    ensures (UBOOT_OFFSET + done * BLOCK) % BLOCK == 0
  {
  }

  lemma MoreBlocks(size: nat, done: nat)
    requires done * BLOCK < size
    ensures (done + 1) * BLOCK <= Blocks(size) * BLOCK
  {
    hide Blocks;
  }

  lemma LastBlock(size: nat, done: nat)
    requires 0 < done && (done - 1) * BLOCK < size <= done * BLOCK
    ensures Blocks(size) == done
  {
    hide Blocks;
  }

  lemma OverwrittenNone(mem: seq<bv8>, at: nat, buf: seq<bv8>)
    requires at <= |mem|
    ensures Overwritten(mem, at, buf[..0]) == mem
  {
  }

  function Padded(front: seq<bv8>, beyond: seq<bv8>): (s: seq<bv8>)
    requires |beyond| >= BLOCK
    ensures |s| == Blocks(|front|) * BLOCK && front <= s
  {
    (front + beyond)[..Blocks(|front|) * BLOCK]
  }

  /** Header and image, and the bytes that happen to lie behind the buffer up to the end of the last block. */
  function Stored(image: seq<bv8>, beyond: seq<bv8>): (s: seq<bv8>)
    requires |beyond| >= BLOCK
    ensures |s| == Blocks(HEADER + |image|) * BLOCK
  {
    Padded(Header(|image|, C.Crc(image)) + image, beyond)
  }

  method UpdateUboot(nor: Nor, mem: array<bv8>, imgSize: nat, beyond: seq<bv8>)
    requires Sound(nor.chip) && imgSize <= mem.Length && |beyond| >= BLOCK
    requires UBOOT_OFFSET + Blocks(HEADER + imgSize) * BLOCK <= |nor.chip.mem|
    modifies nor
    ensures nor.chip == Rewritten(old(nor.chip), UBOOT_OFFSET, Stored(mem[..imgSize], beyond))
  {
    hide Overwritten, Header, C.Crc, Blocks;
    var crc := Checksum(mem, imgSize);
    var head := MakeHeader(imgSize, crc);
    var wbuf := head[..] + mem[..imgSize] + beyond;
    WriteBlocks(nor, wbuf, imgSize + HEADER);
  }

  /** The first 16K of the buffer once the checksum is in place. */
  function Patched(mem: seq<bv8>): (s: seq<bv8>)
    requires |mem| >= SECBOOT_SIZE
    ensures |s| == |mem|
  {
    Overwritten(mem, SECBOOT_CRC, WordBytes(C.Crc(mem[..SECBOOT_CRC])))
  }

  /** The first-stage image goes out a page at a time. */
  method WritePages(nor: Nor, buf: seq<bv8>)
    requires Sound(nor.chip) && |buf| == SECBOOT_SIZE <= |nor.chip.mem|
    modifies nor
    ensures nor.chip == old(nor.chip).(mem := Cleared(old(nor.chip).mem, 0, buf), wel := false)
  {
    hide Cleared;
    var wSize := 0;
    ghost var before := nor.chip;
    assert buf[..wSize] == [];
    ClearedNone(before.mem, 0);
    while true
      invariant 0 <= wSize < SECBOOT_SIZE && wSize % PAGE_SIZE == 0
      invariant nor.chip.(wel := false) == before.(mem := Cleared(before.mem, 0, buf[..wSize]), wel := false)
      decreases SECBOOT_SIZE - wSize
    {
      EepromWrite(nor, wSize, buf[wSize..], PAGE_SIZE);
      ClearedTwice(before.mem, 0, buf[..wSize], buf[wSize..][..PAGE_SIZE]);
      assert buf[..wSize] + buf[wSize..][..PAGE_SIZE] == buf[..wSize + PAGE_SIZE];
      wSize := wSize + PAGE_SIZE;
      if wSize >= SECBOOT_SIZE {
        assert buf[..wSize] == buf;
        break;
      }
    }
  }

  method UpdateSecboot(nor: Nor, mem: array<bv8>)
    requires Sound(nor.chip) && mem.Length >= SECBOOT_SIZE
    modifies nor, mem
    ensures mem[..] == Patched(old(mem[..]))
    ensures nor.chip == Rewritten(old(nor.chip), 0, mem[..SECBOOT_SIZE] + Ones(BLOCK - SECBOOT_SIZE))
  {
    hide Overwritten, Cleared, Erased, C.Crc, WordBytes;
    assert mem[..SECBOOT_CRC] == mem[..][..SECBOOT_CRC];
    var crc := Checksum(mem, SECBOOT_CRC);
    Put(mem, SECBOOT_CRC, WordBytes(crc));
    EepromWriteEnable(nor);
    EepromBlkErase(nor, 0);
    EepromWriteEnable(nor);
    WritePages(nor, mem[..SECBOOT_SIZE]);
    EraseThenProgram(old(nor.chip).mem, 0, mem[..SECBOOT_SIZE]);
  }

  // ----- What the update promises -----

  lemma HeaderFields(size: nat, crc: bv32)
    ensures var h := Header(size, crc);
            && h[0x44..0x48] == NumberBytes(size) && h[0x48..0x4C] == h[0x4C..0x50] == NumberBytes(TEXT_BASE)
            && h[0x50] == ADDRESS_STEP && h[0x58..0x5C] == WordBytes(crc) && h[0x1FC..] == SIGNATURE
  {
    hide NumberBytes, WordBytes, Ones;
  }

  /** Whatever was in the flash and whatever lay behind the buffer, a boot reader finds exactly the image. */
  lemma UbootReadBack(flash: seq<bv8>, image: seq<bv8>, beyond: seq<bv8>)
    requires |beyond| >= BLOCK && UBOOT_OFFSET + Blocks(HEADER + |image|) * BLOCK <= |flash| <= ADDRESSES
    ensures BootImage(Overwritten(flash, UBOOT_OFFSET, Stored(image, beyond)))
         == Some(Boot(image, TEXT_BASE, TEXT_BASE, ADDRESS_STEP))
  {
    hide NumberBytes, WordBytes, Number, Word, Header, Padded, Blocks, C.Crc;
    var stored, crc := Stored(image, beyond), C.Crc(image);
    var after, head := Overwritten(flash, UBOOT_OFFSET, stored), Header(|image|, C.Crc(image));
    var start := UBOOT_OFFSET + HEADER;
    assert stored[..HEADER] == head && stored[HEADER..HEADER + |image|] == image;
    assert after[UBOOT_OFFSET..start] == stored[..HEADER];
    assert after[start..start + |image|] == stored[HEADER..HEADER + |image|];
    HeaderFields(|image|, crc);
    NumberBack(|image|);
    NumberBack(TEXT_BASE);
    WordBack(crc);
  }

  lemma SecbootReadBack(flash: seq<bv8>, mem: seq<bv8>)
    requires |mem| >= SECBOOT_SIZE && BLOCK <= |flash|
    ensures SecondBoot(Overwritten(flash, 0, Patched(mem)[..SECBOOT_SIZE] + Ones(BLOCK - SECBOOT_SIZE)))
         == Some(mem[..SECBOOT_CRC])
  {
    hide C.Crc, WordBytes, Word;
    var patched := Patched(mem);
    var after := Overwritten(flash, 0, patched[..SECBOOT_SIZE] + Ones(BLOCK - SECBOOT_SIZE));
    assert after[..SECBOOT_CRC] == patched[..SECBOOT_CRC] == mem[..SECBOOT_CRC];
    assert after[SECBOOT_CRC..SECBOOT_CRC + 4]
        == patched[SECBOOT_CRC..SECBOOT_CRC + 4] == WordBytes(C.Crc(mem[..SECBOOT_CRC]));
    WordBack(C.Crc(mem[..SECBOOT_CRC]));
  }

  /** The two images do not get in each other's way. */
  lemma SecbootSparesUboot(flash: seq<bv8>, first: seq<bv8>)
    requires |first| <= UBOOT_OFFSET && |first| <= |flash|
    ensures BootImage(Overwritten(flash, 0, first)) == BootImage(flash)
  {
    hide Number, Word, C.Crc;
    var f := Overwritten(flash, 0, first);
    if |flash| >= UBOOT_OFFSET {
      assert f[UBOOT_OFFSET..] == flash[UBOOT_OFFSET..];
      SameBoot(f, flash);
    }
  }

  lemma UbootSparesSecboot(flash: seq<bv8>, second: seq<bv8>)
    requires UBOOT_OFFSET + |second| <= |flash|
    ensures SecondBoot(Overwritten(flash, UBOOT_OFFSET, second)) == SecondBoot(flash)
  {
    hide Word, C.Crc;
    var s := Overwritten(flash, UBOOT_OFFSET, second);
    assert s[..SECBOOT_CRC] == flash[..SECBOOT_CRC];
    assert s[SECBOOT_CRC..SECBOOT_CRC + 4] == flash[SECBOOT_CRC..SECBOOT_CRC + 4];
  }

  lemma SameBoot(x: seq<bv8>, y: seq<bv8>)
    requires |x| == |y| >= UBOOT_OFFSET && x[UBOOT_OFFSET..] == y[UBOOT_OFFSET..]
    ensures BootImage(x) == BootImage(y)
  {
    hide Number, Word, C.Crc;
    forall lo, hi | UBOOT_OFFSET <= lo <= hi <= |x| ensures x[lo..hi] == y[lo..hi] {
      assert x[lo..hi] == x[UBOOT_OFFSET..][lo - UBOOT_OFFSET..hi - UBOOT_OFFSET];
      assert y[lo..hi] == y[UBOOT_OFFSET..][lo - UBOOT_OFFSET..hi - UBOOT_OFFSET];
    }
  }

  /** Damage to an accepted image that stays within 26 consecutive bits of it is always noticed. */
  lemma BurstRejected(flash: seq<bv8>, damaged: seq<bv8>, from: nat)
    requires |damaged| == |flash| && BootImage(flash).Some?
    requires var start, size := UBOOT_OFFSET + HEADER, |BootImage(flash).value.image|;
      && damaged[..start] == flash[..start] && damaged[start + size..] == flash[start + size..]
      && C.Burst(flash[start..start + size], damaged[start..start + size], from, 26)
    ensures BootImage(damaged).Some? <==> damaged == flash
  {
    hide Number, Word, C.Crc, C.Burst;
    var start, size := UBOOT_OFFSET + HEADER, |BootImage(flash).value.image|;
    SamePart(flash, damaged, UBOOT_OFFSET, start);
    var good, bad := flash[start..start + size], damaged[start..start + size];
    C.DetectsBurst(good, bad, from);
    assert flash == flash[..start] + good + flash[start + size..];
    assert damaged == flash[..start] + bad + flash[start + size..];
  }

  lemma SamePart(x: seq<bv8>, y: seq<bv8>, from: nat, to: nat)
    requires from <= to <= |x| == |y| && x[..to] == y[..to]
    ensures x[from..to] == y[from..to]
  {
    assert x[from..to] == x[..to][from..] && y[from..to] == y[..to][from..];
  }

  // ----- The whole update -----

  /** The first-stage image is in flash, its checksum in the caller's buffer; a boot reader finds it, and the other
      image as it was. */
  ghost predicate SecbootStored(before: Chip, after: Chip, given: seq<bv8>, now: seq<bv8>)
    requires Sound(before) && |given| >= SECBOOT_SIZE
  {
    && now == Patched(given)
    && after == Rewritten(before, 0, now[..SECBOOT_SIZE] + Ones(BLOCK - SECBOOT_SIZE))
    && SecondBoot(after.mem) == Some(given[..SECBOOT_CRC])
    && BootImage(after.mem) == BootImage(before.mem)
  }

  /** The second-stage image is in flash behind its header; a boot reader finds it, and the other image as it was. */
  ghost predicate UbootStored(before: Chip, after: Chip, image: seq<bv8>, beyond: seq<bv8>)
    requires |beyond| >= BLOCK && UBOOT_OFFSET + Blocks(HEADER + |image|) * BLOCK <= |before.mem|
  {
    && after == Rewritten(before, UBOOT_OFFSET, Stored(image, beyond))
    && BootImage(after.mem) == Some(Boot(image, TEXT_BASE, TEXT_BASE, ADDRESS_STEP))
    && SecondBoot(after.mem) == SecondBoot(before.mem)
  }

  method ReplaceSecboot(nor: Nor, mem: array<bv8>)
    requires Sound(nor.chip) && mem.Length >= SECBOOT_SIZE
    modifies nor, mem
    ensures SecbootStored(old(nor.chip), nor.chip, old(mem[..]), mem[..])
  {
    hide Overwritten, Stored, Patched, BootImage, SecondBoot;
    ghost var flash, given := nor.chip.mem, mem[..];
    UpdateSecboot(nor, mem);
    SecbootReadBack(flash, given);
    assert Patched(given)[..SECBOOT_SIZE] == mem[..SECBOOT_SIZE];
    SecbootSparesUboot(flash, mem[..SECBOOT_SIZE] + Ones(BLOCK - SECBOOT_SIZE));
  }

  method ReplaceUboot(nor: Nor, mem: array<bv8>, imgSize: nat, beyond: seq<bv8>)
    requires Sound(nor.chip) && imgSize <= mem.Length && |beyond| >= BLOCK
    requires UBOOT_OFFSET + Blocks(HEADER + imgSize) * BLOCK <= |nor.chip.mem|
    modifies nor
    ensures UbootStored(old(nor.chip), nor.chip, mem[..imgSize], beyond)
  {
    hide Overwritten, Stored, BootImage, SecondBoot;
    ghost var flash := nor.chip.mem;
    UpdateUboot(nor, mem, imgSize, beyond);
    UbootReadBack(flash, mem[..imgSize], beyond);
    UbootSparesSecboot(flash, Stored(mem[..imgSize], beyond));
  }

  /** update_eeprom_from_mem; isOpen says whether the device could be opened, beyond is what lies behind the buffer. */
  method UpdateFromMem(nor: Nor, kind: int, mem: array<bv8>, imgSize: nat, isOpen: bool, beyond: seq<bv8>)
    returns (ret: int)
    requires Sound(nor.chip)
    requires kind == SECBOOT ==> mem.Length >= SECBOOT_SIZE
    requires kind == UBOOT ==> imgSize <= mem.Length && |beyond| >= BLOCK
                               && UBOOT_OFFSET + Blocks(HEADER + imgSize) * BLOCK <= |nor.chip.mem|
    modifies nor, mem
    ensures ret == if isOpen then 0 else -EINVAL
    ensures !isOpen || (kind != SECBOOT && kind != UBOOT) ==> nor.chip == old(nor.chip)
    ensures !(isOpen && kind == SECBOOT) ==> mem[..] == old(mem[..])
    ensures isOpen && kind == SECBOOT ==> SecbootStored(old(nor.chip), nor.chip, old(mem[..]), mem[..])
    ensures isOpen && kind == UBOOT ==> UbootStored(old(nor.chip), nor.chip, old(mem[..imgSize]), beyond)
  {
    hide SecbootStored, UbootStored, Blocks;
    if !isOpen {
      return -EINVAL;
    }
    if kind == SECBOOT {
      ReplaceSecboot(nor, mem);
    } else if kind == UBOOT {
      ReplaceUboot(nor, mem, imgSize, beyond);
    }
    return 0;
  }
}
