/**
 Skipping trailing spaces a word at a time (TSP/include/m_string.h:279-330) is the same as a byte
 at a time. The 8-byte form decodes with `uint8korr` (TSP/include/byte_order_generic.h:56-69).
 */
module SpaceSkip {

  type Byte = b: int | 0 <= b < 256

  const SPACE: Byte := 0x20

  // ---------------------------------------------------------------- the simple form

  /** Where the byte-at-a-time loop stops when it starts at `end`. */
  function Trim(s: seq<Byte>, end: nat): (r: nat)
    requires end <= |s|
    ensures r <= end
    ensures forall i :: r <= i < end ==> s[i] == SPACE
    ensures r == 0 || s[r - 1] != SPACE
  {
    if end > 0 && s[end - 1] == SPACE then Trim(s, end - 1) else end
  }

  ghost predicate Spaces(s: seq<Byte>) {
    forall i :: 0 <= i < |s| ==> s[i] == SPACE
  }

  /** Skipping any run of spaces first changes nothing. */
  lemma {:induction false} TrimSkips(s: seq<Byte>, start: nat, end: nat)
    requires start <= end <= |s| && Spaces(s[start..end])
    ensures Trim(s, end) == Trim(s, start)
    decreases end - start
  {
    if start < end {
      assert s[end - 1] == s[start..end][end - 1 - start];
      assert s[start..end - 1] == s[start..end][..end - 1 - start];
      TrimSkips(s, start, end - 1);
    }
  }

  // ---------------------------------------------------------------- words of bytes

  /** The number a word of memory holds, in either byte order. */
  function Word(bigEndian: bool, bytes: seq<Byte>): nat {
    if bytes == [] then 0
    else if bigEndian then bytes[|bytes| - 1] + 256 * Word(bigEndian, bytes[..|bytes| - 1])
    else bytes[0] + 256 * Word(bigEndian, bytes[1..])
  }

  /** A word of `n` spaces. */
  function SpaceWord(n: nat): nat {
    if n == 0 then 0 else 0x20 + 256 * SpaceWord(n - 1)
  }

  lemma SpaceWords()
    ensures SpaceWord(4) == 0x20202020 && SpaceWord(8) == 0x2020202020202020
  {
    assert SpaceWord(2) == 0x2020;
    assert SpaceWord(4) == 0x20202020;
    assert SpaceWord(6) == 0x202020202020;
  }

  /** In either byte order, only a word of spaces reads as the word of spaces. */
  lemma {:induction false} WordOfSpaces(bigEndian: bool, bytes: seq<Byte>)
    ensures Word(bigEndian, bytes) == SpaceWord(|bytes|) <==> Spaces(bytes)
  {
    if bytes != [] {
      var first := if bigEndian then bytes[|bytes| - 1] else bytes[0];
      var rest := if bigEndian then bytes[..|bytes| - 1] else bytes[1..];
      WordOfSpaces(bigEndian, rest);
      assert Spaces(bytes) <==> first == SPACE && Spaces(rest) by {
        if first == SPACE && Spaces(rest) {
          forall i | 0 <= i < |bytes|
            ensures bytes[i] == SPACE
          {
            assert bigEndian && i < |bytes| - 1 ==> bytes[i] == rest[i];
            assert !bigEndian && i > 0 ==> bytes[i] == rest[i - 1];
          }
        }
      }
    }
  }

  /** Four bytes in 32 bits, lowest first. */
  function Four(b0: int, b1: int, b2: int, b3: int): int {
    b0 + b1 * 0x100 + b2 * 0x1_0000 + b3 * 0x100_0000
  }

  /** Two 32-bit halves in 64 bits. */
  function Join(low: int, high: int): nat {
    (low + high * 0x1_0000_0000) % 0x1_0000_0000_0000_0000
  }

  lemma JoinFits(low: int, high: int)
    requires 0 <= low < 0x1_0000_0000 && 0 <= high < 0x1_0000_0000
    ensures low % 0x1_0000_0000 == low && high % 0x1_0000_0000 == high
    ensures Join(low, high) == low + high * 0x1_0000_0000
  {
  }

  /** `uint8korr`: four bytes to each 32-bit half, then the halves to 64 bits. */
  function Uint8Korr(a: seq<Byte>): (r: nat)
    requires |a| == 8
  {
    Join(Four(a[0], a[1], a[2], a[3]) % 0x1_0000_0000, Four(a[4], a[5], a[6], a[7]) % 0x1_0000_0000)
  }

  lemma {:induction false} WordOfFour(a: seq<Byte>)
    requires |a| >= 4
    ensures Word(false, a) == Four(a[0], a[1], a[2], a[3]) + 0x1_0000_0000 * Word(false, a[4..])
  {
    assert a[1..][1..] == a[2..] && a[2..][1..] == a[3..] && a[3..][1..] == a[4..];
    assert Word(false, a[3..]) == a[3] + 256 * Word(false, a[4..]);
    assert Word(false, a[2..]) == a[2] + 256 * Word(false, a[3..]);
    assert Word(false, a[1..]) == a[1] + 256 * Word(false, a[2..]);
  }

  /** The decode is the little-endian number: no shift loses a bit. */
  lemma Uint8KorrIsLittleEndian(a: seq<Byte>)
    requires |a| == 8
    ensures Uint8Korr(a) == Word(false, a)
    ensures Uint8Korr(a) == 0x2020202020202020 <==> Spaces(a)
  {
    DecodeIsWord(a);
    SpaceWords();
    WordOfSpaces(false, a);
  }

  lemma DecodeIsWord(a: seq<Byte>)
    requires |a| == 8
    ensures Uint8Korr(a) == Word(false, a)
  {
    WordOfFour(a);
    WordOfFour(a[4..]);
    assert a[4..][4..] == [];
    FourFits(a[0], a[1], a[2], a[3]);
    FourFits(a[4], a[5], a[6], a[7]);
    JoinFits(Four(a[0], a[1], a[2], a[3]), Four(a[4], a[5], a[6], a[7]));
    assert Word(false, a[4..]) == Four(a[4], a[5], a[6], a[7]);
  }

  lemma FourFits(b0: Byte, b1: Byte, b2: Byte, b3: Byte)
    ensures 0 <= Four(b0, b1, b2, b3) < 0x1_0000_0000
  {
  }

  /** `int8store`: the eight bytes of a 64-bit number, lowest first. */
  function Int8Store(v: nat): (a: seq<Byte>)
    requires v < 0x1_0000_0000_0000_0000
    ensures |a| == 8
  {
    Int4Store(v % 0x1_0000_0000) + Int4Store(v / 0x1_0000_0000)
  }

  function Int4Store(v: nat): (a: seq<Byte>)
    requires v < 0x1_0000_0000
    ensures |a| == 4
  {
    [v % 0x100, v / 0x100 % 0x100, v / 0x1_0000 % 0x100, v / 0x100_0000 % 0x100]
  }

  lemma Int4StoreValue(v: nat)
    requires v < 0x1_0000_0000
    ensures var a := Int4Store(v); Four(a[0], a[1], a[2], a[3]) == v
  {
    assert v / 0x1_0000 == v / 0x100 / 0x100 && v / 0x100_0000 == v / 0x100 / 0x100 / 0x100;
  }

  /** Storing and decoding are inverses, in this direction for every 64-bit number. */
  lemma StoreThenDecode(v: nat)
    requires v < 0x1_0000_0000_0000_0000
    ensures Uint8Korr(Int8Store(v)) == v
  {
    var low, high := v % 0x1_0000_0000, v / 0x1_0000_0000;
    Int4StoreValue(low);
    Int4StoreValue(high);
    JoinFits(low, high);
    var a, b, c := Int4Store(low), Int4Store(high), Int8Store(v);
    assert c[0] == a[0] && c[1] == a[1] && c[2] == a[2] && c[3] == a[3];
    assert c[4] == b[0] && c[5] == b[1] && c[6] == b[2] && c[7] == b[3];
  }

  // ---------------------------------------------------------------- the fast forms

  /** Eight bytes at a time, ignoring alignment. */
  method SkipTrailingSpace(s: seq<Byte>) returns (end: nat)
    ensures end == Trim(s, |s|)
  {
    end := |s|;
    while end >= 8
      invariant end <= |s| && Trim(s, end) == Trim(s, |s|)
    {
      Uint8KorrIsLittleEndian(s[end - 8..end]);
      if Uint8Korr(s[end - 8..end]) != 0x2020202020202020 {
        break;
      }
      TrimSkips(s, end - 8, end);
      end := end - 8;
    }
    while end > 0 && s[end - 1] == 0x20
      invariant end <= |s| && Trim(s, end) == Trim(s, |s|)
    {
      end := end - 1;
    }
  }

  /** Multiples of the word size, which is 4 or 8. */
  function Words(size: nat, q: int): int {
    if size == 4 then 4 * q else 8 * q
  }

  function Quotient(size: nat, x: nat): nat {
    if size == 4 then x / 4 else x / 8
  }

  lemma Aligned(size: nat, address: nat, length: nat)
    requires (size == 4 || size == 8) && length > 20
    ensures var first, last := Quotient(size, address + size - 1), Quotient(size, address + length);
            && 0 <= Words(size, first) - address < size
            && 0 < Words(size, last) - address <= length
            && Words(size, last) - Words(size, first) == Words(size, last - first)
  {
  }

  /** Whole words of spaces, from one aligned place down to another `m` words below it. */
  method SkipWords(s: seq<Byte>, start: nat, top: nat, size: nat, bigEndian: bool, spaceInt: nat, ghost m: nat) returns (end: nat)
    requires (size == 4 || size == 8) && top <= |s| && top == start + Words(size, m) && spaceInt == SpaceWord(size)
    ensures start <= end <= top && Trim(s, end) == Trim(s, top)
  {
    end := top;
    ghost var k := m;
    while end > start && Word(bigEndian, s[end - size..end]) == spaceInt
      invariant k >= 0 && end == start + Words(size, k) && end <= top && Trim(s, end) == Trim(s, top)
    {
      WordOfSpaces(bigEndian, s[end - size..end]);
      TrimSkips(s, end - size, end);
      end := end - size;
      k := k - 1;
    }
  }

  /** Aligned words at a time, for a buffer at any address and either byte order. */
  method SkipTrailingSpaceAligned(s: seq<Byte>, address: nat, size: nat, bigEndian: bool) returns (end: nat)
    requires size == 4 || size == 8
    ensures end == Trim(s, |s|)
  {
    var spaceInt := if size == 4 then 0x20202020 else 0x2020202020202020;
    SpaceWords();
    end := |s|;
    if |s| > 20 {
      // as offsets from the start of the buffer
      var endWords := Words(size, Quotient(size, address + |s|)) - address;
      var startWords := Words(size, Quotient(size, address + size - 1)) - address;
      Aligned(size, address, |s|);
      while end > endWords && s[end - 1] == 0x20
        invariant endWords <= end <= |s| && Trim(s, end) == Trim(s, |s|)
      {
        end := end - 1;
      }
      if s[end - 1] == 0x20 && startWords < endWords {
        end := SkipWords(s, startWords, end, size, bigEndian, spaceInt, Quotient(size, address + |s|) - Quotient(size, address + size - 1));
      }
    }
    while end > 0 && s[end - 1] == 0x20
      invariant end <= |s| && Trim(s, end) == Trim(s, |s|)
    {
      end := end - 1;
    }
  }
}
