/** 32-bit words and their bytes. */
module Bytes {

  const TWO32 := 0x1_0000_0000

  /** Byte k of a 32-bit word, least significant first, for signed and unsigned words. */
  function Byte(w: int, k: int): int {
    if k == 0 then w % 256
    else if k == 1 then w / 0x100 % 256
    else if k == 2 then w / 0x1_0000 % 256
    else w / 0x100_0000 % 256
  }

  function In(b3: int, b2: int, b1: int, b0: int): int { b3 * 0x100_0000 + b2 * 0x1_0000 + b1 * 0x100 + b0 }

  function ByteRev(w: int): int { In(Byte(w, 0), Byte(w, 1), Byte(w, 2), Byte(w, 3)) }

  /** Byte j of the frame whose words are given, in memory (and line) order. */
  function FrameByte(words: seq<int>, j: nat): int
    requires j < 4 * |words|
  {
    Byte(words[j / 4], j % 4)
  }

  predicate IsByte(b: int) { 0 <= b < 256 }

  lemma ByteOfIn(b3: int, b2: int, b1: int, b0: int)
    requires IsByte(b3) && IsByte(b2) && IsByte(b1) && IsByte(b0)
    ensures var w := In(b3, b2, b1, b0);
            && 0 <= w < TWO32
            && Byte(w, 0) == b0 && Byte(w, 1) == b1 && Byte(w, 2) == b2 && Byte(w, 3) == b3
  {
    var w := In(b3, b2, b1, b0);
    assert w / 0x100 == b3 * 0x1_0000 + b2 * 0x100 + b1;
    assert w / 0x1_0000 == b3 * 0x100 + b2;
    assert w / 0x100_0000 == b3;
  }

  /** Receiving an int gives back the word sent, modulo 2^32. */
  lemma InOfOut(w: int)
    ensures In(Byte(w, 3), Byte(w, 2), Byte(w, 1), Byte(w, 0)) == w % TWO32
  {
    assert w == w / 0x100 * 0x100 + Byte(w, 0);
    assert w / 0x100 == w / 0x1_0000 * 0x100 + Byte(w, 1) by { assert w / 0x100 / 0x100 == w / 0x1_0000; }
    assert w / 0x1_0000 == w / 0x100_0000 * 0x100 + Byte(w, 2) by { assert w / 0x1_0000 / 0x100 == w / 0x100_0000; }
    assert w / 0x100_0000 == w / TWO32 * 0x100 + Byte(w, 3) by { assert w / 0x100_0000 / 0x100 == w / TWO32; }
    var rest := In(Byte(w, 3), Byte(w, 2), Byte(w, 1), Byte(w, 0));
    assert w == w / TWO32 * TWO32 + rest;
    ByteOfIn(Byte(w, 3), Byte(w, 2), Byte(w, 1), Byte(w, 0));
  }
}
