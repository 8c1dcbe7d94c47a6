/** Memory as bytes: the four bytes of a word, and runs of bytes in physical memory. */
module Bytes {
  import opened Common
  import opened Pmm
  import opened Paging

  function Bit(b: bool): nat { if b then 1 else 0 }

  /** The bytes of a word, lowest first. */
  function ByteOf(e: Entry, k: nat): (b: Byte)
    requires k < 4
  {
    if k == 0 then Bit(e.pr) + 2 * Bit(e.rw) + 4 * Bit(e.user) + 8 * (e.rest % 32)
    else if k == 1 then e.rest / 32 + 16 * (e.frame % 16)
    else if k == 2 then e.frame / 16 % 256
    else e.frame / 4096
  }

  function FromBytes(b0: Byte, b1: Byte, b2: Byte, b3: Byte): Entry {
    Entry(b0 % 2 == 1, b0 / 2 % 2 == 1, b0 / 4 % 2 == 1, b0 / 8 + 32 * (b1 % 16), b1 / 16 + 16 * b2 + 4096 * b3)
  }

  function SetByte(e: Entry, k: nat, b: Byte): Entry
    requires k < 4
  {
    FromBytes(if k == 0 then b else ByteOf(e, 0), if k == 1 then b else ByteOf(e, 1),
              if k == 2 then b else ByteOf(e, 2), if k == 3 then b else ByteOf(e, 3))
  }

  /** A word is determined by its four bytes ... */
  lemma WordRoundTrip(e: Entry)
    ensures FromBytes(ByteOf(e, 0), ByteOf(e, 1), ByteOf(e, 2), ByteOf(e, 3)) == e
  {
    LowByte(e);
    FrameSum(e.frame);
  }

  /** As a number, lowest byte first: present, writable and user are bits 0, 1 and 2, the frame the bits from 12 on. */
  lemma WordValue(e: Entry)
    ensures var (b0: nat, b1: nat, b2: nat, b3: nat) := (ByteOf(e, 0), ByteOf(e, 1), ByteOf(e, 2), ByteOf(e, 3));
            b0 + 0x100 * b1 + 0x1_0000 * b2 + 0x100_0000 * b3 ==
            (if e.pr then 1 else 0) + (if e.rw then 2 else 0) + (if e.user then 4 else 0) + 8 * e.rest
            + 0x1000 * e.frame
  {
    RestSum(e.rest);
    FrameSum(e.frame);
  }

  lemma RestSum(rest: nat)
    ensures rest == rest % 32 + 32 * (rest / 32)
  {
  }

  lemma FrameSum(f: nat)
    ensures f == f % 16 + 16 * (f / 16 % 256) + 4096 * (f / 4096)
  {
    DivideTwice(f);
    Divide(f / 16);
  }

  lemma DivideTwice(f: nat)
    ensures f / 16 / 256 == f / 4096 && f == f % 16 + 16 * (f / 16)
  {
  }

  lemma Divide(q: nat)
    ensures q == q % 256 + 256 * (q / 256)
  {
  }

  lemma LowByte(e: Entry)
    ensures var b := ByteOf(e, 0);
            && (b % 2 == 1 <==> e.pr) && (b / 2 % 2 == 1 <==> e.rw) && (b / 4 % 2 == 1 <==> e.user)
            && b / 8 == e.rest % 32
  {
    var b, x := ByteOf(e, 0), e.rest % 32;
    assert b / 2 == Bit(e.rw) + 2 * (Bit(e.user) + 2 * x) && b / 4 == Bit(e.user) + 2 * x && b / 8 == x;
  }

  /** ... and any four bytes are those of a word. */
  lemma BytesRoundTrip(b0: Byte, b1: Byte, b2: Byte, b3: Byte)
    ensures var w := FromBytes(b0, b1, b2, b3);
            ByteOf(w, 0) == b0 && ByteOf(w, 1) == b1 && ByteOf(w, 2) == b2 && ByteOf(w, 3) == b3
  {
    RestBytes(b0 / 8, b1 % 16);
    LowBits(b0);
    FrameBytes(b1, b2, b3);
  }

  lemma LowBits(b: Byte)
    ensures b == Bit(b % 2 == 1) + 2 * Bit(b / 2 % 2 == 1) + 4 * Bit(b / 4 % 2 == 1) + 8 * (b / 8)
  {
    assert b == b % 2 + 2 * (b / 2) && b / 2 == b / 2 % 2 + 2 * (b / 4) && b / 4 == b / 4 % 2 + 2 * (b / 8);
  }

  lemma RestBytes(low: nat, high: nat)
    requires low < 32 && high < 16
    ensures (low + 32 * high) % 32 == low && (low + 32 * high) / 32 == high
  {
  }

  lemma FrameBytes(b1: Byte, b2: Byte, b3: Byte)
    ensures var f := b1 / 16 + 16 * b2 + 4096 * b3;
            f % 16 == b1 / 16 && f / 16 % 256 == b2 && f / 4096 == b3
  {
    assert (b1 / 16 + 16 * b2 + 4096 * b3) / 16 == b2 + 256 * b3;
  }

  function ReadByte(m: Mem, a: nat): Byte
    requires a < WORD
  {
    ByteOf(m[a / PAGE_SIZE][a % PAGE_SIZE / 4], a % 4)
  }

  function WriteByte(m: Mem, a: nat, b: Byte): Mem
    requires a < WORD
  {
    Put(m, a / PAGE_SIZE, a % PAGE_SIZE / 4, SetByte(m[a / PAGE_SIZE][a % PAGE_SIZE / 4], a % 4, b))
  }

  /** Storing a byte changes that byte and no other. */
  lemma WriteByteExact(m: Mem, a: nat, b: Byte, c: nat)
    requires a < WORD && c < WORD
    ensures ReadByte(WriteByte(m, a, b), c) == if c == a then b else ReadByte(m, c)
  {
    var e := m[a / PAGE_SIZE][a % PAGE_SIZE / 4];
    var k := a % 4;
    BytesRoundTrip(if k == 0 then b else ByteOf(e, 0), if k == 1 then b else ByteOf(e, 1),
                   if k == 2 then b else ByteOf(e, 2), if k == 3 then b else ByteOf(e, 3));
    if a / PAGE_SIZE == c / PAGE_SIZE && a % PAGE_SIZE / 4 == c % PAGE_SIZE / 4 && a % 4 == c % 4 {
      SameAddress(a, c);
    }
  }

  lemma SameAddress(a: nat, c: nat)
    requires a / PAGE_SIZE == c / PAGE_SIZE && a % PAGE_SIZE / 4 == c % PAGE_SIZE / 4 && a % 4 == c % 4
    ensures a == c
  {
    AddressParts(a);
    AddressParts(c);
  }

  lemma AddressParts(a: nat)
    ensures a == PAGE_SIZE * (a / PAGE_SIZE) + 4 * (a % PAGE_SIZE / 4) + a % 4
  {
    var (q, x) := (a / PAGE_SIZE, a % PAGE_SIZE);
    assert a == PAGE_SIZE * q + x;
    assert x == 4 * (x / 4) + x % 4;
    assert a == 4 * (1024 * q + x / 4) + x % 4;
  }

  /** The bytes of data stored one after the other from physical address p on. */
  function WriteRun(m: Mem, p: nat, data: seq<Byte>): Mem
    requires p + |data| <= WORD
  {
    if data == [] then m
    else WriteByte(WriteRun(m, p, data[..|data| - 1]), p + |data| - 1, data[|data| - 1])
  }

  lemma {:induction false} WriteRunExact(m: Mem, p: nat, data: seq<Byte>, c: nat)
    requires p + |data| <= WORD && c < WORD
    ensures ReadByte(WriteRun(m, p, data), c) == if p <= c < p + |data| then data[c - p] else ReadByte(m, c)
  {
    hide ReadByte, WriteByte;
    if data != [] {
      WriteRunExact(m, p, data[..|data| - 1], c);
      WriteByteExact(WriteRun(m, p, data[..|data| - 1]), p + |data| - 1, data[|data| - 1], c);
    }
  }

  /** A run of bytes touches only the frames it lies in. */
  lemma {:induction false} WriteRunFrames(m: Mem, p: nat, data: seq<Byte>, f: Frame)
    requires p + |data| <= WORD
    requires f < p / PAGE_SIZE || (p + |data| - 1) / PAGE_SIZE < f
    ensures WriteRun(m, p, data)[f] == m[f]
  {
    if data != [] {
      WriteRunFrames(m, p, data[..|data| - 1], f);
    }
  }

  function Zeros(n: nat): seq<Byte> {
    seq(n, _ => 0)
  }
}
