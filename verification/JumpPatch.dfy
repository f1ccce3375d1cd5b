/** The five bytes of a relative jump, and code memory. */
module JumpPatch {
  import opened Bytes
  import opened Options

  const JMP_OPCODE: Byte := 0xE9
  const JMP_LENGTH := 5
  const INT32_MIN := -0x8000_0000
  const INT32_MAX := 0x7FFF_FFFF

  type Memory = map<int, Byte>

  predicate InReach(delta: int) {
    INT32_MIN <= delta <= INT32_MAX
  }

  /** E9 and the offset, low byte first; >> on a negative offset rounds down, & 0xFF takes it modulo 256. */
  function JumpBytes(delta: int): (bytes: seq<Byte>)
    ensures |bytes| == JMP_LENGTH
  {
    [JMP_OPCODE, delta % 256, delta / 0x100 % 256, delta / 0x1_0000 % 256, delta / 0x100_0000 % 256]
  }

  /** The 32-bit two's complement number in four bytes, low byte first. */
  function SignedWord(b0: Byte, b1: Byte, b2: Byte, b3: Byte): (r: int)
    ensures InReach(r)
  {
    var u: int := b0 + 0x100 * b1 + 0x1_0000 * b2 + 0x100_0000 * b3;
    if u > INT32_MAX then u - 0x1_0000_0000 else u
  }

  /** Where the processor goes when it executes a JMP rel32 at `a`; None when there is no such jump. */
  function JumpTarget(mem: Memory, a: int): Option<int> {
    if a in mem && a + 1 in mem && a + 2 in mem && a + 3 in mem && a + 4 in mem && mem[a] == JMP_OPCODE
    then Some(a + JMP_LENGTH + SignedWord(mem[a + 1], mem[a + 2], mem[a + 3], mem[a + 4]))
    else None
  }

  function Write(mem: Memory, a: int, bytes: seq<Byte>): (after: Memory)
    ensures forall x :: a <= x < a + |bytes| ==> x in after && after[x] == bytes[x - a]
    ensures forall x :: (x < a || x >= a + |bytes|) && x in mem ==> x in after && after[x] == mem[x]
  {
    if bytes == [] then mem
    else
      var shorter := bytes[..|bytes| - 1];
      Write(mem, a, shorter)[a + |bytes| - 1 := bytes[|bytes| - 1]]
  }

  lemma SplitByte(x: int)
    ensures x == 256 * (x / 256) + x % 256
  {
  }

  lemma DivideTwice(x: int)
    ensures x / 0x1_0000 == x / 0x100 / 0x100
    ensures x / 0x100_0000 == x / 0x1_0000 / 0x100
  {
  }

  lemma TopByte(delta: int)
    requires InReach(delta)
    ensures 0 <= delta ==> delta / 0x100_0000 % 256 == delta / 0x100_0000
    ensures delta < 0 ==> delta / 0x100_0000 % 256 == delta / 0x100_0000 + 256
  {
    assert -128 <= delta / 0x100_0000 <= 127;
  }

  /** The four offset bytes hold exactly the offset, for every offset the range check lets through. */
  lemma OffsetIsRecovered(delta: int)
    requires InReach(delta)
    ensures var b := JumpBytes(delta); SignedWord(b[1], b[2], b[3], b[4]) == delta
  {
    SplitByte(delta);
    SplitByte(delta / 0x100);
    SplitByte(delta / 0x1_0000);
    DivideTwice(delta);
    TopByte(delta);
  }

  /** After the patch the processor goes from `src` to exactly `dst`. */
  lemma PatchJumpsTo(mem: Memory, src: int, dst: int)
    requires InReach(dst - (src + JMP_LENGTH))
    ensures JumpTarget(Write(mem, src, JumpBytes(dst - (src + JMP_LENGTH))), src) == Some(dst)
  {
    var delta := dst - (src + JMP_LENGTH);
    var bytes := JumpBytes(delta);
    var after := Write(mem, src, bytes);
    OffsetIsRecovered(delta);
  }

  /** The patch is E9 and, low byte first, the distance from behind the five bytes, in two's complement. */
  lemma PatchIsWritten(mem: Memory, src: int, dst: int)
    requires -0x8000_0000 <= dst - (src + 5) <= 0x7FFF_FFFF
    ensures var after := Write(mem, src, JumpBytes(dst - (src + 5)));
            && src in after && src + 1 in after && src + 2 in after && src + 3 in after && src + 4 in after
            && after[src] == 0xE9
            && LittleEndian(after[src + 1], after[src + 2], after[src + 3], after[src + 4]) == (dst - (src + 5)) % 0x1_0000_0000
            && forall x :: x in mem && (x < src || x >= src + 5) ==> x in after && after[x] == mem[x]
  {
    var delta := dst - (src + 5);
    assert |JumpBytes(delta)| == 5;
    hide Write;
    FromBytes(delta);
  }

  function LittleEndian(b0: int, b1: int, b2: int, b3: int): int {
    b0 + 0x100 * b1 + 0x1_0000 * b2 + 0x100_0000 * b3
  }

  lemma FromBytes(delta: int)
    requires -0x8000_0000 <= delta <= 0x7FFF_FFFF
    ensures LittleEndian(delta % 256, delta / 0x100 % 256, delta / 0x1_0000 % 256, delta / 0x100_0000 % 256) == delta % 0x1_0000_0000
  {
    SplitByte(delta);
    SplitByte(delta / 0x100);
    SplitByte(delta / 0x1_0000);
    DivideTwice(delta);
    TopByte(delta);
  }

  /** No offset outside the range check can be reached by any five bytes. */
  lemma OutOfReach(mem: Memory, src: int, dst: int)
    requires JumpTarget(mem, src) == Some(dst)
    ensures InReach(dst - (src + JMP_LENGTH))
  {
  }

  predicate InPage(x: int, start: int, page: nat) {
    start <= x < start + page
  }

  /** The page whose protection is lifted holds all five bytes exactly when the patch starts early enough in it. */
  lemma PatchFitsPage(src: nat, page: nat)
    requires page >= JMP_LENGTH
    ensures (forall x :: src <= x < src + JMP_LENGTH ==> InPage(x, PageStart(src, page), page))
       <==> src % page <= page - JMP_LENGTH
  {
    if src % page > page - JMP_LENGTH {
      assert !InPage(src + (JMP_LENGTH - 1), PageStart(src, page), page);
    }
  }

  function PageStart(a: nat, page: nat): int
    requires page > 0
  {
    a - a % page
  }
}
