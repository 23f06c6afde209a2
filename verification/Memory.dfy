/** Bytes, words and pages, and places in memory that several parts go by (library/egos.h). */
module Memory {
  const FIRST_FRAME := 0x80400   // APPS_PAGES_BASE / PAGE_SIZE
  const SYSCALL_PAGE := 0x80301  // SYSCALL_ARG / PAGE_SIZE

  type byte = x: int | 0 <= x < 256
  type Page = s: seq<byte> | |s| == 4096 witness seq(4096, i => 0)

  /** The bytes of a 32-bit word in memory, and back. */
  function WordBytes(v: int): (bytes: seq<byte>)
    requires 0 <= v < 0x1_0000_0000
    ensures |bytes| == 4
  {
    [v % 256, v / 256 % 256, v / 65536 % 256, v / 16777216]
  }

  function WordOf(bytes: seq<byte>): (v: int)
    requires |bytes| == 4
    ensures 0 <= v < 0x1_0000_0000
  {
    var b0: int, b1: int, b2: int, b3: int := bytes[0], bytes[1], bytes[2], bytes[3];
    b0 + 256 * b1 + 65536 * b2 + 16777216 * b3
  }

  lemma WordRoundTrip(v: int)
    requires 0 <= v < 0x1_0000_0000
    ensures WordOf(WordBytes(v)) == v
  {
    var b0, v1 := v % 256, v / 256;
    var b1, v2 := v1 % 256, v1 / 256;
    var b2, b3 := v2 % 256, v2 / 256;
    assert v == b0 + 256 * v1 && v1 == b1 + 256 * v2 && v2 == b2 + 256 * b3;
    assert v / 65536 == v2 && v / 16777216 == b3;
  }

  /** The four bytes at `at` are those of v, the lowest first. */
  predicate HoldsWord(bytes: seq<byte>, at: int, v: int)
    requires 0 <= at <= |bytes| - 4
  {
    && bytes[at] == v % 256 && bytes[at + 1] == v / 256 % 256
    && bytes[at + 2] == v / 65536 % 256 && bytes[at + 3] == v / 16777216 % 256
  }

  lemma WordHeld(bytes: seq<byte>, at: int)
    requires 0 <= at <= |bytes| - 4
    ensures HoldsWord(bytes, at, WordOf(bytes[at..at + 4]))
  {
    BytesRoundTrip(bytes[at..at + 4]);
  }

  lemma BytesRoundTrip(bytes: seq<byte>)
    requires |bytes| == 4
    ensures WordBytes(WordOf(bytes)) == bytes
  {
    var b0: int, b1: int, b2: int, b3: int := bytes[0], bytes[1], bytes[2], bytes[3];
    var v2 := b2 + 256 * b3;
    var v1 := b1 + 256 * v2;
    var v := b0 + 256 * v1;
    assert v % 256 == b0 && v / 256 == v1 && v1 % 256 == b1 && v1 / 256 == v2 && v2 % 256 == b2 && v2 / 256 == b3;
    assert v / 65536 == v2 && v / 16777216 == b3;
  }
}
