/** What an update leaves in the flash, byte by byte and at literal addresses (spi_update/update.c). */
module FlashBytes {
  import opened Octets
  import opened Flash
  import opened FlashUpdate
  import C = Crc

  predicate NumberAt(s: seq<bv8>, at: nat, n: nat) {
    at + 4 <= |s| && Number(s[at..at + 4]) == n
  }

  predicate WordAt(s: seq<bv8>, at: nat, w: bv32) {
    at + 4 <= |s| && Word(s[at..at + 4]) == w
  }

  /** The fields of the header: size, load and jump address, address step, checksum and signature. */
  lemma HeaderNumbers(size: nat, crc: bv32, h: seq<bv8>)
    requires size < 0x1_0000_0000 && h == Header(size, crc)
    ensures |h| == 512 && NumberAt(h, 0x44, size)
    ensures NumberAt(h, 0x48, 0x40C0_0000) && NumberAt(h, 0x4C, 0x40C0_0000) && h[0x50] == 3
  {
    HeaderFields(size, crc);
    hide NumberBytes, WordBytes, Ones, Header, Number;
    NumberBack(size);
    NumberBack(TEXT_BASE);
  }

  lemma HeaderChecks(size: nat, crc: bv32, h: seq<bv8>)
    requires h == Header(size, crc)
    ensures |h| == 512 && WordAt(h, 0x58, crc) && h[0x1FC..] == [0x4E, 0x53, 0x49, 0x48]
  {
    HeaderFields(size, crc);
    hide NumberBytes, WordBytes, Ones, Header, Word;
    WordBack(crc);
  }

  /** All else of it is ones. */
  lemma HeaderOnes(size: nat, crc: bv32)
    ensures var h := Header(size, crc);
      forall i | 0 <= i < 0x44 || 0x51 <= i < 0x58 || 0x5C <= i < 0x1FC :: h[i] == 0xFF
  {
    hide NumberBytes, WordBytes;
  }

  /** The second image: its header at 64K, itself behind it, then what lay behind the buffer up to the end of the 32K
      block, and nothing else changes. */
  lemma UbootAt(flash: seq<bv8>, image: seq<bv8>, beyond: seq<bv8>, i: nat)
    requires |beyond| >= 32768 && i < |flash|
    requires UBOOT_OFFSET + Blocks(HEADER + |image|) * BLOCK <= |flash|
    ensures var after := Overwritten(flash, UBOOT_OFFSET, Stored(image, beyond));
      var end := 65536 + (512 + |image| + 32767) / 32768 * 32768;
      after[i] == if i < 65536 || i >= end then flash[i]
                  else if i < 66048 then Header(|image|, C.Crc(image))[i - 65536]
                  else if i < 66048 + |image| then image[i - 66048]
                  else beyond[i - 66048 - |image|]
  {
    hide Header, C.Crc, Blocks, Stored, Overwritten;
    var stored := Stored(image, beyond);
    BlocksAre(512 + |image|);
    if 65536 <= i < 65536 + |stored| {
      StoredAt(image, beyond, i - 65536);
    }
    OverwrittenAt(flash, UBOOT_OFFSET, stored, i);
  }

  lemma BlocksAre(size: nat)
    ensures Blocks(size) * BLOCK == (size + 32767) / 32768 * 32768
  {
  }

  lemma StoredAt(image: seq<bv8>, beyond: seq<bv8>, k: nat)
    requires |beyond| >= BLOCK && k < |Stored(image, beyond)|
    ensures Stored(image, beyond)[k] == if k < 512 then Header(|image|, C.Crc(image))[k]
                                        else if k < 512 + |image| then image[k - 512]
                                        else beyond[k - 512 - |image|]
  {
    hide Header, C.Crc, Blocks;
    var head := Header(|image|, C.Crc(image));
    var all := head + image + beyond;
    assert Stored(image, beyond) == all[..|Stored(image, beyond)|];
    assert Stored(image, beyond)[k] == all[k];
    if k < 512 {
      assert all[k] == (head + image)[k] == head[k];
    } else if k < 512 + |image| {
      assert all[k] == (head + image)[k] == image[k - 512];
    } else {
      assert all[k] == beyond[k - 512 - |image|];
    }
  }

  lemma OverwrittenAt(mem: seq<bv8>, at: nat, data: seq<bv8>, i: nat)
    requires at + |data| <= |mem| && i < |mem|
    ensures Overwritten(mem, at, data)[i] == if at <= i < at + |data| then data[i - at] else mem[i]
  {
    assert Overwritten(mem, at, data) == mem[..at] + data + mem[at + |data|..];
  }

  lemma OverwrittenPart(mem: seq<bv8>, at: nat, data: seq<bv8>, from: nat, to: nat)
    requires from <= to <= |data| && at + |data| <= |mem|
    ensures Overwritten(mem, at, data)[at + from..at + to] == data[from..to]
  {
    hide Overwritten;
    var r := Overwritten(mem, at, data);
    forall k | from <= k < to ensures r[at + k] == data[k] {
      OverwrittenAt(mem, at, data, at + k);
    }
  }

  /** The first image: the first 16368 bytes of the buffer, their checksum, the rest of 16K, then ones up to 32K. */
  lemma SecbootAt(flash: seq<bv8>, mem: seq<bv8>, i: nat)
    requires |mem| >= 16384 && 32768 <= |flash| && i < |flash|
    ensures var after := Overwritten(flash, 0, Patched(mem)[..SECBOOT_SIZE] + Ones(BLOCK - SECBOOT_SIZE));
      && WordAt(after, 16368, C.Crc(mem[..16368]))
      && (i < 16368 || 16372 <= i < 16384 ==> after[i] == mem[i])
      && (16384 <= i < 32768 ==> after[i] == 0xFF)
      && (i >= 32768 ==> after[i] == flash[i])
  {
    hide WordBytes, C.Crc, Word, Overwritten, Ones;
    var word := WordBytes(C.Crc(mem[..16368]));
    assert mem[..SECBOOT_CRC] == mem[..16368];
    var patched := Overwritten(mem, 16368, word);
    var data := patched[..16384] + Ones(16384);
    OverwrittenAt(flash, 0, data, i);
    if i < 16384 {
      OverwrittenAt(mem, 16368, word, i);
    } else if i < 32768 {
      OnesAt(16384, i - 16384);
    }
    OverwrittenPart(flash, 0, data, 16368, 16372);
    OverwrittenPart(mem, 16368, word, 0, 4);
    assert data[16368..16372] == patched[16368..16372] == word;
    WordBack(C.Crc(mem[..16368]));
  }

  lemma OnesAt(n: nat, k: nat)
    requires k < n
    ensures Ones(n)[k] == 0xFF
  {
  }
}
