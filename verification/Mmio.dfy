/** Device memory behind a BAR, reached through aligned 32-bit accesses only, and the byte and buffer accesses
    built on them. */
module Mmio {
  import opened Bits

  type Byte = x: nat | x < 256

  // ----- bit fields of a u32 -----

  /** v >> k. */
  function Shr(v: nat, k: nat): nat {
    if k == 0 then v else Shr(v / 2, k - 1)
  }

  /** READ_BITS_AT_OFFSET. */
  function ReadBits(amount: nat, offset: nat, v: nat): nat {
    And(Shr(v, offset), Pow2(amount) - 1)
  }

  /** WRITE_BITS_AT_OFFSET on a u32. */
  function WriteBits(amount: nat, offset: nat, v: nat, x: nat): nat
    requires Shift(Pow2(amount) - 1, offset) < TWO_32
  {
    Or(And(v, TWO_32 - 1 - Shift(Pow2(amount) - 1, offset)), Shift(And(x, Pow2(amount) - 1), offset))
  }

  /** A u32 from its bytes, lowest first. */
  function FromBytes(b0: nat, b1: nat, b2: nat, b3: nat): nat {
    b0 + 256 * (b1 + 256 * (b2 + 256 * b3))
  }

  lemma AndBytes(a: nat, b: nat, c: nat, d: nat)
    requires b < 256 && d < 256
    ensures And(b + 256 * a, d + 256 * c) == And(b, d) + 256 * And(a, c)
  {
    hide And;
    Pow2Values();
    AndSplit(a, b, c, d, 8);
  }

  lemma OrBytes(a: nat, b: nat, c: nat, d: nat)
    requires b < 256 && d < 256
    ensures Or(b + 256 * a, d + 256 * c) == Or(b, d) + 256 * Or(a, c)
  {
    hide Or;
    Pow2Values();
    OrSplit(a, b, c, d, 8);
  }

  /** The two operators work byte by byte. */
  lemma AndWords(a0: Byte, a1: Byte, a2: Byte, a3: Byte, c0: Byte, c1: Byte, c2: Byte, c3: Byte)
    ensures And(FromBytes(a0, a1, a2, a3), FromBytes(c0, c1, c2, c3))
         == FromBytes(And(a0, c0), And(a1, c1), And(a2, c2), And(a3, c3))
  {
    hide And;
    AndBytes(a1 + 256 * (a2 + 256 * a3 as nat), a0, c1 + 256 * (c2 + 256 * c3 as nat), c0);
    AndBytes(a2 + 256 * a3 as nat, a1, c2 + 256 * c3 as nat, c1);
    AndBytes(a3, a2, c3, c2);
  }

  lemma OrWords(a0: Byte, a1: Byte, a2: Byte, a3: Byte, c0: Byte, c1: Byte, c2: Byte, c3: Byte)
    ensures Or(FromBytes(a0, a1, a2, a3), FromBytes(c0, c1, c2, c3))
         == FromBytes(Or(a0, c0), Or(a1, c1), Or(a2, c2), Or(a3, c3))
  {
    hide Or;
    OrBytes(a1 + 256 * (a2 + 256 * a3 as nat), a0, c1 + 256 * (c2 + 256 * c3 as nat), c0);
    OrBytes(a2 + 256 * a3 as nat, a1, c2 + 256 * c3 as nat, c1);
    OrBytes(a3, a2, c3, c2);
  }

  lemma {:induction false} ShrAdd(v: nat, a: nat, b: nat)
    ensures Shr(v, a + b) == Shr(Shr(v, a), b)
    decreases a
  {
    if a > 0 {
      ShrAdd(v / 2, a - 1, b);
    }
  }

  lemma ShrByte(v: nat)
    ensures Shr(v, 8) == v / 256
  {
    hide Shr;
    ShrQuarter(v);
    ShrQuarter(v / 4);
    ShrQuarter(v / 16);
    ShrQuarter(v / 64);
    ShrAdd(v, 2, 2);
    ShrAdd(v, 4, 2);
    ShrAdd(v, 6, 2);
  }

  lemma ShrQuarter(v: nat)
    ensures Shr(v, 2) == v / 4
  {
    assert Shr(v / 2, 1) == Shr(v / 2 / 2, 0);
  }

  lemma ShrBytes(v: nat)
    ensures Shr(v, 0) == v && Shr(v, 8) == v / 256 && Shr(v, 16) == v / 256 / 256 && Shr(v, 24) == v / 256 / 256 / 256
  {
    hide Shr;
    ShrNone(v);
    ShrByte(v);
    ShrByte(v / 256);
    ShrByte(v / 256 / 256);
    ShrAdd(v, 8, 8);
    ShrAdd(v, 16, 8);
  }

  lemma ShrNone(v: nat)
    ensures Shr(v, 0) == v
  {
  }

  /** The k-th byte of a word. */
  function Pick(b0: Byte, b1: Byte, b2: Byte, b3: Byte, k: nat): Byte {
    if k == 0 then b0 else if k == 1 then b1 else if k == 2 then b2 else b3
  }

  lemma ReadBitsIsPick(b0: Byte, b1: Byte, b2: Byte, b3: Byte, k: nat)
    requires k < 4
    ensures ReadBits(8, 8 * k, FromBytes(b0, b1, b2, b3)) == Pick(b0, b1, b2, b3, k)
  {
    hide And, Shr, FromBytes;
    var w := FromBytes(b0, b1, b2, b3);
    ShrBytes(w);
    Digits(b0, b1, b2, b3);
    Pow2Values();
    AndMask(Shr(w, 8 * k), 8);
  }

  lemma Digits(b0: Byte, b1: Byte, b2: Byte, b3: Byte)
    ensures var w := FromBytes(b0, b1, b2, b3);
            w % 256 == b0 && w / 256 % 256 == b1 && w / 256 / 256 % 256 == b2 && w / 256 / 256 / 256 % 256 == b3
  {
    var h2: nat := b2 + 256 * b3 as nat;
    var h1: nat := b1 + 256 * h2;
    assert (b0 + 256 * h1) / 256 == h1;
    assert h1 / 256 == h2;
  }

  lemma ShiftBytes(x: nat)
    ensures Shift(x, 0) == x && Shift(x, 8) == x * 0x100
    ensures Shift(x, 16) == x * 0x1_0000 && Shift(x, 24) == x * 0x100_0000
  {
    hide Shift;
    Pow2Values();
    ShiftIsMul(x, 0);
    ShiftIsMul(x, 8);
    ShiftIsMul(x, 16);
    ShiftIsMul(x, 24);
  }

  lemma AndByte(b: Byte)
    ensures And(b, 255) == b && And(b, 0) == 0 && Or(b, 0) == b && Or(0, b) == b
  {
    Pow2Values();
    AndOnes(b, 8);
  }

  lemma FieldFits(k: nat)
    requires k < 4
    ensures Shift(Pow2(8) - 1, 8 * k) < TWO_32
  {
    hide Shift, Pow2;
    Pow2Values();
    ShiftBytes(255);
  }

  /** Masking a byte out, then putting a value in. */
  lemma WriteBitsIsPut(b0: Byte, b1: Byte, b2: Byte, b3: Byte, k: nat, x: Byte)
    requires k < 4
    ensures Shift(Pow2(8) - 1, 8 * k) < TWO_32
    ensures WriteBits(8, 8 * k, FromBytes(b0, b1, b2, b3), x)
         == FromBytes(if k == 0 then x else b0, if k == 1 then x else b1, if k == 2 then x else b2,
                      if k == 3 then x else b3)
  {
    hide And, Or, Shift;
    FieldFits(k);
    Pow2Values();
    ShiftBytes(255);
    ShiftBytes(x);
    AndByte(x);
    AndByte(b0);
    AndByte(b1);
    AndByte(b2);
    AndByte(b3);
    var m0, m1, m2, m3 := Keep(k, 0), Keep(k, 1), Keep(k, 2), Keep(k, 3);
    assert TWO_32 - 1 - Shift(255, 8 * k) == FromBytes(m0, m1, m2, m3);
    AndWords(b0, b1, b2, b3, m0, m1, m2, m3);
    var x0, x1, x2, x3 := Here(k, 0, x), Here(k, 1, x), Here(k, 2, x), Here(k, 3, x);
    assert Shift(x, 8 * k) == FromBytes(x0, x1, x2, x3);
    OrWords(And(b0, m0), And(b1, m1), And(b2, m2), And(b3, m3), x0, x1, x2, x3);
  }

  /** Byte j of the mask that clears byte k. */
  function Keep(k: nat, j: nat): Byte {
    if j == k then 0 else 255
  }

  /** Byte j of x shifted to byte k. */
  function Here(k: nat, j: nat, x: Byte): Byte {
    if j == k then x else 0
  }

  // ----- memory -----

  /** The little-endian u32 at index i. */
  function Word(bytes: seq<Byte>, i: nat): nat
    requires i + 4 <= |bytes|
  {
    FromBytes(bytes[i], bytes[i + 1], bytes[i + 2], bytes[i + 3])
  }

  function WordBytes(w: nat): (r: seq<Byte>)
    ensures |r| == 4
  {
    [w % 256, w / 256 % 256, w / 256 / 256 % 256, w / 256 / 256 / 256 % 256]
  }

  lemma WordOfBytes(bytes: seq<Byte>, i: nat)
    requires i + 4 <= |bytes|
    ensures WordBytes(Word(bytes, i)) == bytes[i..i + 4]
  {
    hide FromBytes;
    Digits(bytes[i], bytes[i + 1], bytes[i + 2], bytes[i + 3]);
  }

  /** `bytes` with d copied in at index `at`. */
  function Splice(bytes: seq<Byte>, at: nat, d: seq<Byte>): (r: seq<Byte>)
    requires at + |d| <= |bytes|
    ensures |r| == |bytes|
  {
    bytes[..at] + d + bytes[at + |d|..]
  }

  lemma SpliceGrows(bytes: seq<Byte>, at: nat, d: seq<Byte>, e: seq<Byte>)
    requires at + |d| + |e| <= |bytes|
    ensures Splice(Splice(bytes, at, d), at + |d|, e) == Splice(bytes, at, d + e)
  {
  }

  /** The byte at i, as read8 takes it out of the aligned word around it. */
  lemma Read8Is(bytes: seq<Byte>, i: nat)
    requires i - i % 4 + 4 <= |bytes|
    ensures ReadBits(8, 8 * (i % 4), Word(bytes, i - i % 4)) == bytes[i]
  {
    hide ReadBits, FromBytes;
    var a := i - i % 4;
    ReadBitsIsPick(bytes[a], bytes[a + 1], bytes[a + 2], bytes[a + 3], i % 4);
  }

  /** The aligned word around i with byte i replaced, as write8 stores it. */
  lemma Write8Is(bytes: seq<Byte>, i: nat, v: Byte)
    requires i - i % 4 + 4 <= |bytes|
    ensures Shift(Pow2(8) - 1, 8 * (i % 4)) < TWO_32
    ensures Splice(bytes, i - i % 4, WordBytes(WriteBits(8, 8 * (i % 4), Word(bytes, i - i % 4), v)))
       == Splice(bytes, i, [v])
  {
    hide WriteBits, FromBytes, WordBytes, Shift;
    var a, k := i - i % 4, i % 4;
    WriteBitsIsPut(bytes[a], bytes[a + 1], bytes[a + 2], bytes[a + 3], k, v);
    var put := bytes[i := v];
    WordOfBytes(put, a);
    assert Splice(bytes, a, put[a..a + 4]) == put;
    assert Splice(bytes, i, [v]) == put;
  }

  lemma WordRoundTrip(w: nat)
    requires w < TWO_32
    ensures Word(WordBytes(w), 0) == w
  {
    assert w / 256 / 256 / 256 < 256;
  }

  lemma WordShift(a: seq<Byte>, at: nat, b: seq<Byte>, i: nat)
    requires at + 4 <= |a| && i + 4 <= |b| && a[at..at + 4] == b[i..i + 4]
    ensures Word(a, at) == Word(b, i)
  {
    assert a[at] == a[at..at + 4][0] && a[at + 1] == a[at..at + 4][1] && a[at + 2] == a[at..at + 4][2]
           && a[at + 3] == a[at..at + 4][3];
    assert b[i] == b[i..i + 4][0] && b[i + 1] == b[i..i + 4][1] && b[i + 2] == b[i..i + 4][2]
           && b[i + 3] == b[i..i + 4][3];
  }
}
