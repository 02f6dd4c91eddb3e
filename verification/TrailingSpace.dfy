/** skip_trailing_space, eight bytes at a time, and the decoding it relies on. */
module TrailingSpace {

  type Byte = x: int | 0 <= x < 256

  const TWO32 := 0x1_0000_0000
  const TWO64 := 0x1_0000_0000_0000_0000

  /** Four bytes as a 32-bit word, the first lowest; the shifts and sums are modulo 2^32. */
  function Word32(a: Byte, b: Byte, c: Byte, d: Byte): int {
    (a + b * 0x100 % TWO32 + c * 0x1_0000 % TWO32 + d * 0x100_0000 % TWO32) % TWO32
  }

  /** uint8korr: eight bytes as a 64-bit word. */
  function Uint8Korr(s: seq<Byte>): int
    requires |s| == 8
  {
    Joined(Word32(s[0], s[1], s[2], s[3]), Word32(s[4], s[5], s[6], s[7]))
  }

  /** The low and the high word together, modulo 2^64. */
  function Joined(lo: int, hi: int): int {
    (lo + hi * TWO32 % TWO64) % TWO64
  }

  /** The four bytes int4store writes. */
  function Bytes4(w: int): seq<Byte> {
    [w % 0x100, w / 0x100 % 0x100, w / 0x1_0000 % 0x100, w / 0x100_0000 % 0x100]
  }

  /** The eight bytes int8store writes. */
  function Bytes8(v: int): seq<Byte> {
    Bytes4(v % TWO32) + Bytes4(v / TWO32 % TWO32)
  }

  lemma Word32Bytes(a: Byte, b: Byte, c: Byte, d: Byte)
    ensures Bytes4(Word32(a, b, c, d)) == [a, b, c, d] && 0 <= Word32(a, b, c, d) < TWO32
  {
    Shifts(a, b, c, d);
  }

  /** Four bytes as the sum of their places. */
  function Places(a: Byte, b: Byte, c: Byte, d: Byte): int {
    a + 0x100 * b + 0x1_0000 * c + 0x100_0000 * d
  }

  lemma Byte0(w: int, a: Byte, rest: int)
    requires w == a + 0x100 * rest
    ensures w % 0x100 == a && w / 0x100 == rest
  {}

  lemma Shifts(a: Byte, b: Byte, c: Byte, d: Byte)
    ensures var w := Places(a, b, c, d);
            && Word32(a, b, c, d) == w && 0 <= w < TWO32 && w % 0x100 == a
            && w / 0x100 % 0x100 == b && w / 0x1_0000 % 0x100 == c && w / 0x100_0000 % 0x100 == d
  {
    hide Word32;
    WordIsPlaces(a, b, c, d);
    var w := Places(a, b, c, d);
    Byte0(w, a, b + 0x100 * c + 0x1_0000 * d);
    Byte0(b + 0x100 * c + 0x1_0000 * d, b, c + 0x100 * d);
    Byte0(c + 0x100 * d, c, d);
    HigherPlaces(w);
  }

  lemma WordIsPlaces(a: Byte, b: Byte, c: Byte, d: Byte)
    ensures Word32(a, b, c, d) == Places(a, b, c, d) && 0 <= Places(a, b, c, d) < TWO32
  {
    InRange(b, 0x100);
    InRange(c, 0x1_0000);
    InRange(d, 0x100_0000);
  }

  lemma InRange(b: Byte, place: nat)
    requires place <= 0x100_0000
    ensures 0 <= b * place < TWO32 && b * place % TWO32 == b * place && b * place == place * b
  {
    Below(b, place);
  }

  lemma Below(b: Byte, place: nat)
    requires place <= 0x100_0000
    ensures 0 <= b * place <= 255 * place
  {}

  lemma HigherPlaces(w: int)
    ensures w / 0x1_0000 == w / 0x100 / 0x100 && w / 0x100_0000 == w / 0x100 / 0x100 / 0x100
  {}

  lemma JoinedHalves(lo: int, hi: int)
    requires 0 <= lo < TWO32 && 0 <= hi < TWO32
    ensures Joined(lo, hi) == lo + hi * TWO32
    ensures Joined(lo, hi) % TWO32 == lo && Joined(lo, hi) / TWO32 % TWO32 == hi
  {}

  /** Decoding loses nothing: storing the decoded word gives back the bytes. */
  lemma DecodeThenStore(s: seq<Byte>)
    requires |s| == 8
    ensures Bytes8(Uint8Korr(s)) == s
  {
    var lo, hi := Word32(s[0], s[1], s[2], s[3]), Word32(s[4], s[5], s[6], s[7]);
    Word32Bytes(s[0], s[1], s[2], s[3]);
    Word32Bytes(s[4], s[5], s[6], s[7]);
    EightOfWords(lo, hi);
    assert s == [s[0], s[1], s[2], s[3]] + [s[4], s[5], s[6], s[7]];
  }

  lemma EightOfWords(lo: int, hi: int)
    requires 0 <= lo < TWO32 && 0 <= hi < TWO32
    ensures Bytes8(Joined(lo, hi)) == Bytes4(lo) + Bytes4(hi)
  {
    JoinedHalves(lo, hi);
  }

  /** So it is injective. */
  lemma DecodeInjective(s: seq<Byte>, t: seq<Byte>)
    requires |s| == |t| == 8 && Uint8Korr(s) == Uint8Korr(t)
    ensures s == t
  {
    DecodeThenStore(s);
    DecodeThenStore(t);
  }

  lemma Bytes4Word(w: int)
    requires 0 <= w < TWO32
    ensures var b := Bytes4(w); Word32(b[0], b[1], b[2], b[3]) == w
  {
    hide Word32;
    var a, b, c, d := w % 0x100, w / 0x100 % 0x100, w / 0x1_0000 % 0x100, w / 0x100_0000 % 0x100;
    Digits256(w);
    WordIsPlaces(a, b, c, d);
  }

  lemma Digits256(w: int)
    requires 0 <= w < TWO32
    ensures w == w % 0x100 + 0x100 * (w / 0x100 % 0x100)
                 + 0x1_0000 * (w / 0x1_0000 % 0x100) + 0x100_0000 * (w / 0x100_0000 % 0x100)
  {
    var x, y, z := w / 0x100, w / 0x1_0000, w / 0x100_0000;
    assert x / 0x100 == y && y / 0x100 == z && z < 0x100;
  }

  lemma Halves(v: int)
    requires 0 <= v < TWO64
    ensures 0 <= v % TWO32 < TWO32 && 0 <= v / TWO32 < TWO32 && v / TWO32 % TWO32 == v / TWO32
    ensures Joined(v % TWO32, v / TWO32) == v
  {}

  /** Conversely every 64-bit word is decoded from the bytes int8store writes for it. */
  lemma StoreThenDecode(v: int)
    requires 0 <= v < TWO64
    ensures Uint8Korr(Bytes8(v)) == v
  {
    Halves(v);
    var lo, hi := v % TWO32, v / TWO32;
    Bytes4Word(lo);
    Bytes4Word(hi);
    KorrOfWords(Bytes4(lo), Bytes4(hi));
  }

  lemma KorrOfWords(a: seq<Byte>, b: seq<Byte>)
    requires |a| == |b| == 4
    ensures Uint8Korr(a + b) == Joined(Word32(a[0], a[1], a[2], a[3]), Word32(b[0], b[1], b[2], b[3]))
  {}

  method Int4Store(t: array<Byte>, at: nat, w: int)
    requires at + 4 <= t.Length
    modifies t
    ensures t[..] == old(t[..at]) + Bytes4(w) + old(t[at + 4..])
  {
    t[at] := w % 0x100;
    t[at + 1] := w / 0x100 % 0x100;
    t[at + 2] := w / 0x1_0000 % 0x100;
    t[at + 3] := w / 0x100_0000 % 0x100;
  }

  method Int8Store(t: array<Byte>, at: nat, v: int)
    requires at + 8 <= t.Length
    modifies t
    ensures t[..] == old(t[..at]) + Bytes8(v) + old(t[at + 8..])
  {
    Int4Store(t, at, v % TWO32);
    Int4Store(t, at + 4, v / TWO32 % TWO32);
  }

  const SPACES := 0x2020_2020_2020_2020

  const BLANKS: seq<Byte> := [0x20, 0x20, 0x20, 0x20, 0x20, 0x20, 0x20, 0x20]

  lemma BlanksWord()
    ensures Uint8Korr(BLANKS) == SPACES
  {
    hide Word32;
    WordIsPlaces(0x20, 0x20, 0x20, 0x20);
    JoinedHalves(0x2020_2020, 0x2020_2020);
  }

  lemma EightSpaces(s: seq<Byte>)
    requires |s| == 8
    ensures Uint8Korr(s) == SPACES <==> s == BLANKS
  {
    hide Uint8Korr;
    BlanksWord();
    if Uint8Korr(s) == SPACES { DecodeInjective(s, BLANKS); }
  }

  /** Where the plain loop, a byte at a time, stops. */
  function ByteLoop(s: seq<Byte>, end: nat): nat
    requires end <= |s|
  {
    if end > 0 && s[end - 1] == 0x20 then ByteLoop(s, end - 1) else end
  }

  lemma {:induction false} EightBack(s: seq<Byte>, end: nat, n: nat)
    requires n <= end <= |s| && forall i :: end - n <= i < end ==> s[i] == 0x20
    ensures ByteLoop(s, end) == ByteLoop(s, end - n)
  {
    if n > 0 { EightBack(s, end - 1, n - 1); }
  }

  /**
    The end of the text without its trailing spaces: everything behind it is 0x20, the byte before it
    is not, and it is where the plain loop stops.
   */
  method SkipTrailingSpace(s: seq<Byte>) returns (end: nat)
    ensures end <= |s| && (forall i :: end <= i < |s| ==> s[i] == 0x20)
    ensures end > 0 ==> s[end - 1] != 0x20
    ensures end == ByteLoop(s, |s|)
  {
    end := |s|;
    while end >= 8
      invariant end <= |s| && forall i :: end <= i < |s| ==> s[i] == 0x20
      invariant ByteLoop(s, end) == ByteLoop(s, |s|)
    {
      ghost var eight := s[end - 8..end];
      EightSpaces(eight);
      if Uint8Korr(s[end - 8..end]) != SPACES {
        break;
      }
      assert forall i :: end - 8 <= i < end ==> s[i] == eight[i - (end - 8)];
      EightBack(s, end, 8);
      end := end - 8;
    }
    while end > 0 && s[end - 1] == 0x20
      invariant end <= |s| && forall i :: end <= i < |s| ==> s[i] == 0x20
      invariant ByteLoop(s, end) == ByteLoop(s, |s|)
    {
      end := end - 1;
    }
  }
}
