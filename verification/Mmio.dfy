/**
 32-bit access to the FPGA data buffers (kmods/fboss_iob_mmio.h).

 The buffers accept only aligned 32-bit loads and stores, little-endian, so a byte buffer is
 moved word by word and a trailing partial word is padded.
 */
module Mmio {
  import opened Bits

  // ---------------------------------------------------------------- words

  function Word4(b0: int, b1: int, b2: int, b3: int): int {
    b0 + 0x100 * b1 + 0x1_0000 * b2 + 0x100_0000 * b3
  }

  function Word(b: seq<byte>): u32
    requires |b| == 4
  {
    Word4(b[0], b[1], b[2], b[3])
  }

  /** Byte `k` of a little-endian word. */
  function ByteAt(w: u32, k: nat): byte
    requires k < 4
  {
    if k == 0 then w % 0x100
    else if k == 1 then w / 0x100 % 0x100
    else if k == 2 then w / 0x1_0000 % 0x100
    else w / 0x100_0000
  }

  lemma Digits(b0: int, b1: int, b2: int, b3: int)
    requires 0 <= b0 < 256 && 0 <= b1 < 256 && 0 <= b2 < 256 && 0 <= b3 < 256
    ensures var w := Word4(b0, b1, b2, b3);
            && w % 0x100 == b0 && w / 0x100 % 0x100 == b1 && w / 0x1_0000 % 0x100 == b2 && w / 0x100_0000 == b3
  {
    var w := Word4(b0, b1, b2, b3);
    assert w / 0x100 == b1 + 0x100 * b2 + 0x1_0000 * b3;
    assert w / 0x1_0000 == b2 + 0x100 * b3;
  }

  lemma BytesOfWord(b: seq<byte>)
    requires |b| == 4
    ensures forall k :: 0 <= k < 4 ==> ByteAt(Word(b), k) == b[k]
  {
    Digits(b[0], b[1], b[2], b[3]);
  }

  /** Load the aligned word at `pos`. */
  method Readl(mem: array<byte>, pos: nat) returns (val: u32)
    requires pos % 4 == 0 && pos + 4 <= mem.Length
    ensures forall k :: 0 <= k < 4 ==> ByteAt(val, k) == mem[pos + k]
  {
    ghost var b := [mem[pos], mem[pos + 1], mem[pos + 2], mem[pos + 3]];
    BytesOfWord(b);
    val := Word4(mem[pos], mem[pos + 1], mem[pos + 2], mem[pos + 3]);
    assert val == Word(b);
  }

  /** Store the aligned word at `pos`. */
  method Writel(mem: array<byte>, pos: nat, val: u32)
    requires pos % 4 == 0 && pos + 4 <= mem.Length
    modifies mem
    ensures forall k :: 0 <= k < mem.Length ==>
              mem[k] == if pos <= k < pos + 4 then ByteAt(val, k - pos) else old(mem[k])
  {
    mem[pos], mem[pos + 1] := ByteAt(val, 0), ByteAt(val, 1);
    mem[pos + 2], mem[pos + 3] := ByteAt(val, 2), ByteAt(val, 3);
  }

  // ---------------------------------------------------------------- transfers

  /** Size of a transfer once its last word is complete. */
  function WordCeil(size: nat): (n: nat)
    ensures size <= n < size + 4 && n % 4 == 0
  {
    (size + 3) / 4 * 4
  }

  /**
   The bytes a transfer of `size` really moves: the word count is held in 32 bits.
   */
  function Moved(size: nat): nat {
    size / 4 % 0x1_0000_0000 * 4 + size % 4
  }

  /** The word count truncates exactly for transfers of 16 GiB and more. */
  lemma MovedAll(size: nat)
    ensures Moved(size) == size <==> size < 0x4_0000_0000
    ensures Moved(size) <= size
  {
  }

  /** `data`, completed to a whole number of words with zeros. */
  function Padded(data: seq<byte>): (p: seq<byte>)
    ensures |p| == WordCeil(|data|)
    ensures data <= p && forall k :: |data| <= k < |p| ==> p[k] == 0
  {
    data + seq(WordCeil(|data|) - |data|, _ => 0)
  }

  /** Memory `mem` after a bulk write of `data` at `base`. */
  function Overwritten(mem: seq<byte>, base: nat, data: seq<byte>): (m: seq<byte>)
    requires base + WordCeil(|data|) <= |mem|
    ensures |m| == |mem|
  {
    mem[..base] + Padded(data) + mem[base + WordCeil(|data|)..]
  }

  /** Reading the transfer back returns it; every byte outside its words keeps its value. */
  lemma OverwrittenAt(mem: seq<byte>, base: nat, data: seq<byte>, k: nat)
    requires base + WordCeil(|data|) <= |mem| && k < |mem|
    ensures var m := Overwritten(mem, base, data);
            && m[base..base + |data|] == data
            && m[k] == (if k < base || base + WordCeil(|data|) <= k then mem[k]
                        else if k < base + |data| then data[k - base] else 0)
  {
    var m := Overwritten(mem, base, data);
    assert m[base..base + |data|] == data;
  }

  /** One iteration of the write loop: `*wptr` goes to the device. */
  method WriteWord(mem: array<byte>, pos: nat, buf: array<byte>, p: nat)
    requires buf != mem && pos % 4 == 0 && pos + 4 <= mem.Length && p + 4 <= buf.Length
    modifies mem
    ensures forall k :: 0 <= k < mem.Length ==>
              mem[k] == if pos <= k < pos + 4 then buf[p + k - pos] else old(mem[k])
  {
    var w: seq<byte> := buf[p..p + 4];
    BytesOfWord(w);
    assert forall k :: 0 <= k < 4 ==> w[k] == buf[p + k];
    Writel(mem, pos, Word(w));
  }

  /** The partial last word: `remainder` bytes completed with zeros. */
  method WriteTail(mem: array<byte>, pos: nat, buf: array<byte>, p: nat, remainder: nat)
    requires buf != mem && pos % 4 == 0 && pos + 4 <= mem.Length
    requires 0 < remainder < 4 && p + remainder <= buf.Length
    modifies mem
    ensures forall k :: 0 <= k < mem.Length ==>
              mem[k] == if k < pos || pos + 4 <= k then old(mem[k])
                        else if k < pos + remainder then buf[p + k - pos] else 0
  {
    var last: seq<byte> :=
      [buf[p], if remainder > 1 then buf[p + 1] else 0, if remainder > 2 then buf[p + 2] else 0, 0];
    BytesOfWord(last);
    Writel(mem, pos, Word(last));
  }

  /** The whole-word loop of the write. */
  method WriteWords(mem: array<byte>, base: nat, buf: array<byte>, off: nat, words: nat)
    requires buf != mem && base % 4 == 0 && off + 4 * words <= buf.Length && base + 4 * words <= mem.Length
    modifies mem
    ensures forall k :: 0 <= k < mem.Length ==>
              mem[k] == if base <= k < base + 4 * words then buf[off + k - base] else old(mem[k])
  {
    var i := 0;
    while i < words
      invariant 0 <= i <= words
      invariant forall k :: 0 <= k < mem.Length ==>
                  mem[k] == if base <= k < base + 4 * i then buf[off + k - base] else old(mem[k])
    {
      WriteWord(mem, base + 4 * i, buf, off + 4 * i);
      i := i + 1;
    }
  }

  /** fbiob_bulk_write: `size` bytes of `buf` from `off` go to device memory at `base`. */
  method BulkWrite(mem: array<byte>, base: nat, buf: array<byte>, off: nat, size: nat)
    requires buf != mem && base % 4 == 0 && off + size <= buf.Length
    requires base + WordCeil(Moved(size)) <= mem.Length
    modifies mem
    ensures Moved(size) <= size
    ensures mem[..] == Overwritten(old(mem[..]), base, buf[off..off + Moved(size)])
  {
    MovedAll(size);
    var words, remainder := size / 4 % 0x1_0000_0000, size % 4;
    WriteWords(mem, base, buf, off, words);
    if remainder > 0 {
      WriteTail(mem, base + 4 * words, buf, off + 4 * words, remainder);
    }
    IsOverwritten(old(mem[..]), base, buf[off..off + Moved(size)], mem[..]);
  }

  lemma IsOverwritten(mem: seq<byte>, base: nat, data: seq<byte>, m: seq<byte>)
    requires base + WordCeil(|data|) <= |mem| == |m|
    requires forall k :: 0 <= k < |m| ==>
               m[k] == if k < base || base + WordCeil(|data|) <= k then mem[k]
                       else if k < base + |data| then data[k - base] else 0
    ensures m == Overwritten(mem, base, data)
  {
    forall k | 0 <= k < |m|
      ensures m[k] == Overwritten(mem, base, data)[k]
    {
      OverwrittenAt(mem, base, data, k);
    }
  }

  /** One iteration of the read loop. */
  method ReadWord(mem: array<byte>, pos: nat, buf: array<byte>, p: nat, count: nat)
    requires buf != mem && pos % 4 == 0 && pos + 4 <= mem.Length
    requires 0 < count <= 4 && p + count <= buf.Length
    modifies buf
    ensures forall k :: 0 <= k < buf.Length ==>
              buf[k] == if p <= k < p + count then mem[pos + k - p] else old(buf[k])
  {
    var val := Readl(mem, pos);
    assert forall k :: 0 <= k < 4 ==> ByteAt(val, k) == mem[pos + k];
    for k := 0 to count
      invariant forall j :: 0 <= j < buf.Length ==>
                  buf[j] == if p <= j < p + k then mem[pos + j - p] else old(buf[j])
    {
      buf[p + k] := ByteAt(val, k);
    }
  }

  /** The whole-word loop of the read. */
  method ReadWords(mem: array<byte>, base: nat, buf: array<byte>, off: nat, words: nat)
    requires buf != mem && base % 4 == 0 && off + 4 * words <= buf.Length && base + 4 * words <= mem.Length
    modifies buf
    ensures forall k :: 0 <= k < buf.Length ==>
              buf[k] == if off <= k < off + 4 * words then mem[base + k - off] else old(buf[k])
  {
    var i := 0;
    while i < words
      invariant 0 <= i <= words
      invariant forall k :: 0 <= k < buf.Length ==>
                  buf[k] == if off <= k < off + 4 * i then mem[base + k - off] else old(buf[k])
    {
      ReadWord(mem, base + 4 * i, buf, off + 4 * i, 4);
      i := i + 1;
    }
  }

  /** fbiob_bulk_read: `size` bytes of device memory at `base` go to `buf` from `off`. */
  method BulkRead(mem: array<byte>, base: nat, buf: array<byte>, off: nat, size: nat)
    requires buf != mem && base % 4 == 0 && off + size <= buf.Length
    requires base + WordCeil(Moved(size)) <= mem.Length
    modifies buf
    ensures Moved(size) <= size
    ensures buf[..] == old(buf[..off]) + mem[base..base + Moved(size)] + old(buf[off + Moved(size)..])
  {
    MovedAll(size);
    var words, remainder := size / 4 % 0x1_0000_0000, size % 4;
    ReadWords(mem, base, buf, off, words);
    if remainder > 0 {
      ReadWord(mem, base + 4 * words, buf, off + 4 * words, remainder);
    }
  }
}
