/** 32-bit machine arithmetic and little-endian words in byte sequences. */
module Machine {

  const TWO32: int := 0x1_0000_0000

  type u8 = x: int | 0 <= x < 0x100
  type u16 = x: int | 0 <= x < 0x1_0000
  type u32 = x: int | 0 <= x < 0x1_0000_0000

  datatype Option<+T> = None | Some(value: T)

  /** The value an unsigned 32-bit register holds after an arithmetic operation with exact result x. */
  function Wrap(x: int): u32 {
    x % TWO32
  }

  lemma WrapSmall(x: int)
    requires 0 <= x < TWO32
    ensures Wrap(x) == x
  {
  }

  lemma WrapRange(x: int)
    ensures 0 <= Wrap(x) < TWO32
  {
  }

  /** The signed reading of a 32-bit register. */
  function Signed(x: u32): int {
    if x < 0x8000_0000 then x else x - TWO32
  }

  /** The little-endian 32-bit word stored at address a. */
  function Word(m: seq<u8>, a: nat): u32
    requires a + 4 <= |m|
  {
    var b0: int, b1: int, b2: int, b3: int := m[a], m[a + 1], m[a + 2], m[a + 3];
    b0 + 0x100 * b1 + 0x1_0000 * b2 + 0x100_0000 * b3
  }

  /** The four bytes of a 32-bit word, least significant first. */
  function WordBytes(v: u32): (b: seq<u8>)
    ensures |b| == 4
  {
    var q1 := v / 0x100;
    var q2 := q1 / 0x100;
    var q3 := q2 / 0x100;
    [v % 0x100, q1 % 0x100, q2 % 0x100, q3]
  }

  /** The k-th byte of a word is its k-th digit in base 256. */
  lemma WordDigits(v: u32)
    ensures var b := WordBytes(v);
      b[0] == v % 0x100 && b[1] == v / 0x100 % 0x100 && b[2] == v / 0x1_0000 % 0x100 && b[3] == v / 0x100_0000
  {
  }

  /** A word is read back from its four bytes wherever they are stored. */
  lemma WordOfBytes(m: seq<u8>, a: nat, v: u32)
    requires a + 4 <= |m| && m[a..a + 4] == WordBytes(v)
    ensures Word(m, a) == v
  {
    var b := WordBytes(v);
    assert m[a] == m[a..a + 4][0] && m[a + 1] == m[a..a + 4][1];
    assert m[a + 2] == m[a..a + 4][2] && m[a + 3] == m[a..a + 4][3];
  }

  /** The two memories agree at every address outside [lo, hi). */
  ghost predicate SameOutside(m: seq<u8>, m': seq<u8>, lo: int, hi: int) {
    |m'| == |m| && forall i :: 0 <= i < |m| && !(lo <= i < hi) ==> m'[i] == m[i]
  }
}
