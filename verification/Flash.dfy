/** The SPI boot flash and the driver that programs it (spi_update/spieeprom.c). */
module Flash {
  import opened Arithmetic
  import opened Octets

  const WRITE_CMD: bv8 := 0x02
  const WRITE_ENABLE: bv8 := 0x06
  const BLOCK_32K_ERASE: bv8 := 0x52
  const CMD_BUF := 4
  const PAGE_SIZE := 256
  const BLOCK := 32 * 1024
  const ADDRESSES := 0x100_0000

  // ----- NOR flash: erasing sets bits, programming clears them, both need write-enable -----

  /** refused counts commands that came without write-enable; wrapped counts programs that ran past their page. */
  datatype Chip = Chip(mem: seq<bv8>, wel: bool, refused: nat, wrapped: nat)

  ghost predicate Sound(chip: Chip) {
    0 < |chip.mem| <= ADDRESSES && |chip.mem| % BLOCK == 0
  }

  /** The 32K block that starts at a multiple of its size, all ones. */
  function Erased(mem: seq<bv8>, block: nat): (r: seq<bv8>)
    ensures |r| == |mem|
  {
    seq(|mem|, i requires 0 <= i < |mem| => if i / BLOCK == block then 0xFF else mem[i])
  }

  /** Where byte i lies in a program of its page that starts at an address: the page is a ring. */
  function RingPlace(i: nat, address: nat): (k: nat)
    ensures k < PAGE_SIZE
  {
    (i - address) % PAGE_SIZE
  }

  function Programmed(mem: seq<bv8>, address: nat, data: seq<bv8>): (r: seq<bv8>)
    ensures |r| == |mem|
  {
    seq(|mem|, i requires 0 <= i < |mem| =>
      if i / PAGE_SIZE == address / PAGE_SIZE && RingPlace(i, address) < |data|
      then mem[i] & data[RingPlace(i, address)] else mem[i])
  }

  function Address(tx: seq<bv8>): nat
    requires |tx| >= CMD_BUF
  {
    Value(tx[1]) * 65536 + Value(tx[2]) * 256 + Value(tx[3])
  }

  /** What one SPI message does to the chip. */
  function Exec(chip: Chip, tx: seq<bv8>): (r: Chip)
    requires Sound(chip)
    ensures Sound(r)
  {
    if tx == [] then chip
    else if tx[0] == WRITE_ENABLE then chip.(wel := true)
    else if |tx| < CMD_BUF || (tx[0] != WRITE_CMD && tx[0] != BLOCK_32K_ERASE) then chip
    else if !chip.wel then chip.(refused := chip.refused + 1)
    else
      var address := Address(tx) % |chip.mem|;
      if tx[0] == BLOCK_32K_ERASE then chip.(mem := Erased(chip.mem, address / BLOCK), wel := false)
      else
        var data := tx[CMD_BUF..];
        chip.(mem := Programmed(chip.mem, address, data), wel := false,
              wrapped := chip.wrapped + if address % PAGE_SIZE + |data| > PAGE_SIZE then 1 else 0)
  }

  lemma SameAddress(tx: seq<bv8>, other: seq<bv8>)
    requires |tx| >= CMD_BUF && |other| >= CMD_BUF && tx[..CMD_BUF] == other[..CMD_BUF]
    ensures Address(tx) == Address(other)
  {
    hide Value;
    assert forall k | 0 <= k < CMD_BUF :: tx[k] == tx[..CMD_BUF][k] && other[k] == other[..CMD_BUF][k];
  }

  lemma Reached(address: nat, capacity: nat)
    requires address < capacity <= ADDRESSES
    ensures address % ADDRESSES % capacity == address
  {
    Small(address, ADDRESSES);
    Small(address, capacity);
  }

  lemma ExecErase(chip: Chip, tx: seq<bv8>, offset: nat)
    requires Sound(chip) && |tx| >= CMD_BUF && tx[0] == BLOCK_32K_ERASE
    requires offset < |chip.mem| && Address(tx) == offset % ADDRESSES
    ensures Exec(chip, tx) == if chip.wel then chip.(mem := Erased(chip.mem, offset / BLOCK), wel := false)
                              else chip.(refused := chip.refused + 1)
  {
    hide Address, Erased;
    Reached(offset, |chip.mem|);
  }

  lemma ExecProgram(chip: Chip, tx: seq<bv8>, dst: nat)
    requires Sound(chip) && chip.wel && |tx| >= CMD_BUF && tx[0] == WRITE_CMD
    requires dst < |chip.mem| && Address(tx) == dst % ADDRESSES && dst % PAGE_SIZE + |tx| - CMD_BUF <= PAGE_SIZE
    ensures Exec(chip, tx) == chip.(mem := Programmed(chip.mem, dst, tx[CMD_BUF..]), wel := false)
  {
    hide Address, Programmed;
    Reached(dst, |chip.mem|);
  }

  class Nor {
    var chip: Chip

    method Message(tx: array<bv8>, len: nat)
      requires Sound(chip) && len <= tx.Length
      modifies this
      ensures chip == Exec(old(chip), tx[..len])
    {
      chip := Exec(chip, tx[..len]);
    }
  }

  // ----- Plain overwriting, without pages -----

  /** Every bit of the range that is zero in the data is cleared; nothing else changes. */
  function Cleared(mem: seq<bv8>, at: nat, data: seq<bv8>): (r: seq<bv8>)
    ensures |r| == |mem|
  {
    seq(|mem|, i requires 0 <= i < |mem| => if at <= i < at + |data| then mem[i] & data[i - at] else mem[i])
  }

  /** Within a page the ring makes no difference. */
  lemma WithinPage(mem: seq<bv8>, at: nat, data: seq<bv8>)
    requires at % PAGE_SIZE + |data| <= PAGE_SIZE
    ensures Programmed(mem, at, data) == Cleared(mem, at, data)
  {
    forall i | 0 <= i < |mem| ensures Programmed(mem, at, data)[i] == Cleared(mem, at, data)[i] {
      SamePlace(i, at, |data|);
    }
  }

  lemma SamePlace(i: nat, at: nat, size: nat)
    requires at % PAGE_SIZE + size <= PAGE_SIZE
    ensures i / PAGE_SIZE == at / PAGE_SIZE && RingPlace(i, at) < size <==> at <= i < at + size
    ensures at <= i < at + size ==> RingPlace(i, at) == i - at
  {
  }

  lemma ClearedTwice(mem: seq<bv8>, at: nat, x: seq<bv8>, y: seq<bv8>)
    ensures Cleared(Cleared(mem, at, x), at + |x|, y) == Cleared(mem, at, x + y)
  {
    var once := Cleared(mem, at, x);
    forall i | 0 <= i < |mem| ensures Cleared(once, at + |x|, y)[i] == Cleared(mem, at, x + y)[i] {
    }
  }

  lemma ClearedNone(mem: seq<bv8>, at: nat)
    ensures Cleared(mem, at, []) == mem
  {
  }

  // ----- The driver -----

  method PutAddress(tx: array<bv8>, offset: nat)
    requires tx.Length >= CMD_BUF
    modifies tx
    ensures tx[0] == old(tx[0]) && tx[CMD_BUF..] == old(tx[CMD_BUF..])
    ensures forall len | CMD_BUF <= len <= tx.Length :: Address(tx[..len]) == offset % ADDRESSES
  {
    hide Byte, Value;
    tx[1] := Byte(offset / 65536);
    tx[2] := Byte(offset / 256);
    tx[3] := Byte(offset);
    ByteValue(offset / 65536);
    ByteValue(offset / 256);
    ByteValue(offset);
    ThreeBytes(offset);
  }

  method EepromWriteEnable(nor: Nor)
    requires Sound(nor.chip)
    modifies nor
    ensures nor.chip == old(nor.chip).(wel := true)
  {
    var tx := new bv8[1][WRITE_ENABLE];
    nor.Message(tx, 1);
  }

  method EepromBlkErase(nor: Nor, offset: nat)
    requires Sound(nor.chip) && offset < |nor.chip.mem|
    modifies nor
    ensures old(nor.chip).wel ==>
              nor.chip == old(nor.chip).(mem := Erased(old(nor.chip).mem, offset / BLOCK), wel := false)
    ensures !old(nor.chip).wel ==> nor.chip == old(nor.chip).(refused := old(nor.chip).refused + 1)
  {
    hide Exec, Address, Erased;
    var tx := new bv8[CMD_BUF];
    tx[0] := BLOCK_32K_ERASE;
    PutAddress(tx, offset);
    ExecErase(nor.chip, tx[..CMD_BUF], offset);
    nor.Message(tx, CMD_BUF);
  }

  /** The bytes that fit in the page of dst. */
  function WriteSize(dst: nat, size: nat): (n: nat)
    requires size > 0
    ensures 0 < n <= size && dst % PAGE_SIZE + n <= PAGE_SIZE
    ensures n == size || (dst + n) % PAGE_SIZE == 0
  {
    if size > PAGE_SIZE then PAGE_SIZE - dst % PAGE_SIZE
    else if PAGE_SIZE - dst % PAGE_SIZE > size then size
    else PAGE_SIZE - dst % PAGE_SIZE
  }

  /** One page's worth of eeprom_write: enable, address, copy, send. */
  method WritePage(nor: Nor, tx: array<bv8>, dst: nat, data: seq<bv8>)
    requires Sound(nor.chip) && dst + |data| <= |nor.chip.mem|
    requires tx.Length == PAGE_SIZE + CMD_BUF && tx[0] == WRITE_CMD
    requires 0 < |data| && dst % PAGE_SIZE + |data| <= PAGE_SIZE
    modifies nor, tx
    ensures tx[0] == WRITE_CMD
    ensures nor.chip == old(nor.chip).(mem := Cleared(old(nor.chip).mem, dst, data), wel := false)
  {
    hide Exec, Address, Cleared, Programmed;
    EepromWriteEnable(nor);
    PutAddress(tx, dst);
    ghost var header := tx[..CMD_BUF];
    forall k | 0 <= k < |data| {
      tx[CMD_BUF + k] := data[k];
    }
    assert tx[..CMD_BUF + |data|][CMD_BUF..] == data;
    SameAddress(header, tx[..CMD_BUF + |data|]);
    WithinPage(nor.chip.mem, dst, data);
    ExecProgram(nor.chip, tx[..CMD_BUF + |data|], dst);
    nor.Message(tx, CMD_BUF + |data|);
  }

  method EepromWrite(nor: Nor, to: nat, buf: seq<bv8>, count: nat)
    requires Sound(nor.chip) && 0 < count <= |buf| && to + count <= |nor.chip.mem|
    modifies nor
    ensures nor.chip == old(nor.chip).(mem := Cleared(old(nor.chip).mem, to, buf[..count]), wel := false)
  {
    hide Cleared, WriteSize;
    var tx := new bv8[PAGE_SIZE + CMD_BUF];
    tx[0] := WRITE_CMD;
    var size, offset, dst := count, 0, to;
    ghost var before := nor.chip;
    ClearedNone(before.mem, to);
    while true
      invariant tx[0] == WRITE_CMD && 0 < size == count - offset && dst == to + offset
      invariant nor.chip.(wel := false) == before.(mem := Cleared(before.mem, to, buf[..offset]), wel := false)
      decreases size
    {
      var writeSize := WriteSize(dst, size);
      ghost var mem := nor.chip.mem;
      WritePage(nor, tx, dst, buf[offset..offset + writeSize]);
      ClearedTwice(before.mem, to, buf[..offset], buf[offset..offset + writeSize]);
      assert buf[..offset] + buf[offset..offset + writeSize] == buf[..offset + writeSize];
      size, offset, dst := size - writeSize, offset + writeSize, dst + writeSize;
      if size == 0 {
        break;
      }
    }
  }

  // ----- Erase, then program -----

  function Overwritten(mem: seq<bv8>, at: nat, data: seq<bv8>): (r: seq<bv8>)
    requires at + |data| <= |mem|
    ensures |r| == |mem|
  {
    mem[..at] + data + mem[at + |data|..]
  }

  lemma AllOnes(x: bv8)
    ensures 0xFF & x == x
  {
  }

  /** Programming an erased block stores the data as they are; the rest of the block stays erased. */
  lemma EraseThenProgram(mem: seq<bv8>, block: nat, data: seq<bv8>)
    requires (block + 1) * BLOCK <= |mem| && |data| <= BLOCK
    ensures Cleared(Erased(mem, block), block * BLOCK, data)
         == Overwritten(mem, block * BLOCK, data + seq(BLOCK - |data|, _ => 0xFF))
  {
    var at := block * BLOCK;
    var pad: seq<bv8> := seq(BLOCK - |data|, _ => 0xFF);
    var l, r := Cleared(Erased(mem, block), at, data), Overwritten(mem, at, data + pad);
    forall i | 0 <= i < |mem| ensures l[i] == r[i] {
      assert i / BLOCK == block <==> at <= i < at + BLOCK;
      if at <= i < at + |data| {
        AllOnes(data[i - at]);
      }
    }
  }
}
