/** The bytes of the storage: the 64-byte header, its little-endian words, and the data region. */
module Header {
  import opened Words

  const MAGIC: nat := 0x53484d52
  const FORMAT_VERSION: nat := 1
  const HEADER_SIZE: nat := 64
  const OFF_MAGIC: nat := 0
  const OFF_VERSION: nat := 4
  const OFF_CAPACITY: nat := 8
  const OFF_HEAD: nat := 16
  const OFF_TAIL: nat := 24
  const OFF_CLOSED: nat := 32

  // ---- Little-endian integers --------------------------------------------------------

  function LittleEndian(v: nat, n: nat): (s: seq<byte>)
    ensures |s| == n
  {
    if n == 0 then [] else [v % 256] + LittleEndian(v / 256, n - 1)
  }

  function FromLittleEndian(s: seq<byte>): nat {
    if s == [] then 0 else s[0] + 256 * FromLittleEndian(s[1..])
  }

  function Pow256(n: nat): nat {
    if n == 0 then 1 else 256 * Pow256(n - 1)
  }

  /** Decoding undoes encoding for every value that fits in `n` bytes. */
  lemma {:induction false} DecodeEncode(v: nat, n: nat)
    requires v < Pow256(n)
    ensures FromLittleEndian(LittleEndian(v, n)) == v
  {
    if n != 0 {
      DecodeEncode(v / 256, n - 1);
      assert LittleEndian(v, n)[1..] == LittleEndian(v / 256, n - 1);
    }
  }

  /** Encoding undoes decoding for every string of bytes. */
  lemma {:induction false} EncodeDecode(s: seq<byte>)
    ensures FromLittleEndian(s) < Pow256(|s|) && LittleEndian(FromLittleEndian(s), |s|) == s
  {
    if s != [] {
      EncodeDecode(s[1..]);
      assert [s[0]] + s[1..] == s;
    }
  }

  lemma Pow256Values()
    ensures Pow256(4) == WORD && Pow256(8) == 0x1_0000_0000_0000_0000
  {
    assert Pow256(3) == 0x100_0000;
    assert Pow256(5) == 256 * Pow256(4);
    assert Pow256(6) == 256 * Pow256(5);
    assert Pow256(7) == 256 * Pow256(6);
  }

  // ---- Words in storage --------------------------------------------------------------

  function Splice(mem: seq<byte>, off: nat, s: seq<byte>): (mem': seq<byte>)
    requires off + |s| <= |mem|
    ensures |mem'| == |mem|
    ensures forall k :: 0 <= k < |mem| ==> mem'[k] == if off <= k < off + |s| then s[k - off] else mem[k]
  {
    mem[..off] + s + mem[off + |s|..]
  }

  function LoadWord(mem: seq<byte>, off: nat): nat
    requires off + 4 <= |mem|
  {
    FromLittleEndian(mem[off..off + 4])
  }

  function StoreWord(mem: seq<byte>, off: nat, v: nat): seq<byte>
    requires off + 4 <= |mem|
  {
    Splice(mem, off, LittleEndian(v, 4))
  }

  lemma SpliceElsewhere(mem: seq<byte>, off: nat, s: seq<byte>, o: nat, n: nat)
    requires off + |s| <= |mem| && o + n <= |mem|
    requires o + n <= off || off + |s| <= o
    ensures Splice(mem, off, s)[o..o + n] == mem[o..o + n]
  {
  }

  lemma SpliceHere(mem: seq<byte>, off: nat, s: seq<byte>, a: nat, b: nat)
    requires off + |s| <= |mem| && a <= b <= |s|
    ensures Splice(mem, off, s)[off + a..off + b] == s[a..b]
  {
  }

  /** A stored word loads back, and every other word is what it was. */
  lemma StoreThenLoad(mem: seq<byte>, off: nat, v: nat, o: nat)
    requires off + 4 <= |mem| && o + 4 <= |mem| && v < WORD
    requires o == off || o + 4 <= off || off + 4 <= o
    ensures LoadWord(StoreWord(mem, off, v), o) == if o == off then v else LoadWord(mem, o)
  {
    if o == off {
      Pow256Values();
      DecodeEncode(v, 4);
      SpliceHere(mem, off, LittleEndian(v, 4), 0, 4);
      assert LittleEndian(v, 4)[0..4] == LittleEndian(v, 4);
    } else {
      SpliceElsewhere(mem, off, LittleEndian(v, 4), o, 4);
    }
  }

  // ---- The header --------------------------------------------------------------------

  /** What initHeader writes: magic, version, capacity, three zero words, reserved bytes zero. */
  function HeaderImage(capacity: nat): (s: seq<byte>)
    ensures |s| == HEADER_SIZE
  {
    LittleEndian(MAGIC, 4) + LittleEndian(FORMAT_VERSION, 4) + LittleEndian(capacity, 8) + LittleEndian(0, 48)
  }

  /** A signed 64-bit capacity as the unsigned value that the header holds. */
  function AsUint64(capacity: int): int {
    if capacity < 0 then capacity + 0x1_0000_0000_0000_0000 else capacity
  }

  predicate IsInt64(v: int) {
    -0x8000_0000_0000_0000 <= v < 0x8000_0000_0000_0000
  }

  /** verifyHeader's tests, in order. */
  predicate HeaderMatches(mem: seq<byte>, capacity: nat)
    requires HEADER_SIZE <= |mem|
  {
    && LoadWord(mem, OFF_MAGIC) == MAGIC
    && LoadWord(mem, OFF_VERSION) == FORMAT_VERSION
    && FromLittleEndian(mem[OFF_CAPACITY..OFF_CAPACITY + 8]) == capacity
  }

  /** Two storages that agree on their first 16 bytes identify the same ring. */
  lemma IdentityIsEnough(mem: seq<byte>, mem': seq<byte>, capacity: nat)
    requires HEADER_SIZE <= |mem| && HEADER_SIZE <= |mem'| && mem[..16] == mem'[..16]
    ensures HeaderMatches(mem, capacity) == HeaderMatches(mem', capacity)
  {
    assert mem[0..4] == mem[..16][0..4] && mem'[0..4] == mem'[..16][0..4];
    assert mem[4..8] == mem[..16][4..8] && mem'[4..8] == mem'[..16][4..8];
    assert mem[8..16] == mem[..16][8..16] && mem'[8..16] == mem'[..16][8..16];
  }

  lemma {:induction false} ZerosEncode(n: nat, i: nat)
    requires i < n
    ensures LittleEndian(0, n)[i] == 0
  {
    if i > 0 {
      ZerosEncode(n - 1, i - 1);
    }
  }

  lemma {:induction false} ZerosDecode(s: seq<byte>)
    requires forall i :: 0 <= i < |s| ==> s[i] == 0
    ensures FromLittleEndian(s) == 0
  {
    if s != [] {
      ZerosDecode(s[1..]);
    }
  }

  /** The identifying fields of a fresh header. */
  lemma ImageIdentity(c: nat)
    ensures HeaderImage(c)[0..4] == LittleEndian(MAGIC, 4)
    ensures HeaderImage(c)[4..8] == LittleEndian(FORMAT_VERSION, 4)
    ensures HeaderImage(c)[8..16] == LittleEndian(c, 8)
  {
  }

  lemma ImageWordIsZero(mem: seq<byte>, c: nat, o: nat)
    requires HEADER_SIZE <= |mem| && 16 <= o && o + 4 <= HEADER_SIZE
    ensures LoadWord(Splice(mem, 0, HeaderImage(c)), o) == 0
  {
    var word := Splice(mem, 0, HeaderImage(c))[o..o + 4];
    forall i | 0 <= i < |word|
      ensures word[i] == 0
    {
      assert HeaderImage(c)[o + i] == LittleEndian(0, 48)[o + i - 16];
      ZerosEncode(48, o + i - 16);
    }
    ZerosDecode(word);
  }

  /** A freshly written header verifies against exactly the capacity it was written for, for every
      64-bit capacity, and its three words are zero. */
  lemma VerifyAfterInit(mem: seq<byte>, c: nat, c': nat)
    requires HEADER_SIZE <= |mem| && c < 0x1_0000_0000_0000_0000
    ensures var mem' := Splice(mem, 0, HeaderImage(c));
            && (HeaderMatches(mem', c') <==> c == c')
            && LoadWord(mem', OFF_HEAD) == 0 && LoadWord(mem', OFF_TAIL) == 0 && LoadWord(mem', OFF_CLOSED) == 0
  {
    ImageIdentity(c);
    SpliceHere(mem, 0, HeaderImage(c), 0, 4);
    SpliceHere(mem, 0, HeaderImage(c), 4, 8);
    SpliceHere(mem, 0, HeaderImage(c), 8, 16);
    Pow256Values();
    DecodeEncode(MAGIC, 4);
    DecodeEncode(FORMAT_VERSION, 4);
    DecodeEncode(c, 8);
    ImageWordIsZero(mem, c, OFF_HEAD);
    ImageWordIsZero(mem, c, OFF_TAIL);
    ImageWordIsZero(mem, c, OFF_CLOSED);
  }

  // ---- The layout, byte by byte ------------------------------------------------------

  /** Four bytes, the least significant first. */
  function Four(a: nat, b: nat, c: nat, d: nat): nat {
    a + 0x100 * b + 0x1_0000 * c + 0x100_0000 * d
  }

  /** A word, and the capacity field, by their bytes. */
  lemma WordByBytes(mem: seq<byte>, o: nat)
    requires o + 4 <= |mem|
    ensures LoadWord(mem, o) == Four(mem[o], mem[o + 1], mem[o + 2], mem[o + 3])
  {
    DecodeFour(mem[o..o + 4]);
  }

  lemma DecodeFour(s: seq<byte>)
    requires |s| >= 4
    ensures FromLittleEndian(s)
         == Four(s[0], s[1], s[2], s[3]) + 0x1_0000_0000 * FromLittleEndian(s[4..])
  {
    assert s[1..][1..] == s[2..] && s[2..][1..] == s[3..] && s[3..][1..] == s[4..];
    assert FromLittleEndian(s) == s[0] + 0x100 * FromLittleEndian(s[1..]);
    assert FromLittleEndian(s[1..]) == s[1] + 0x100 * FromLittleEndian(s[2..]);
    assert FromLittleEndian(s[2..]) == s[2] + 0x100 * FromLittleEndian(s[3..]);
    assert FromLittleEndian(s[3..]) == s[3] + 0x100 * FromLittleEndian(s[4..]);
  }

  lemma CapacityByBytes(mem: seq<byte>)
    requires HEADER_SIZE <= |mem|
    ensures FromLittleEndian(mem[8..16])
         == Four(mem[8], mem[9], mem[10], mem[11]) + 0x1_0000_0000 * Four(mem[12], mem[13], mem[14], mem[15])
  {
    var s := mem[8..16];
    DecodeFour(s);
    DecodeFour(s[4..]);
    assert s[4..][4..] == [];
  }

  /** The identifying words as bytes: "RMHS", and version 1. */
  lemma IdentityByBytes(mem: seq<byte>)
    requires HEADER_SIZE <= |mem|
    ensures LoadWord(mem, OFF_MAGIC) == MAGIC <==> mem[..4] == [0x52, 0x4d, 0x48, 0x53]
    ensures LoadWord(mem, OFF_VERSION) == FORMAT_VERSION <==> mem[4..8] == [1, 0, 0, 0]
  {
    WordByBytes(mem, 0);
    WordByBytes(mem, 4);
  }

  /** A header is accepted exactly when its first eight bytes are 52 4d 48 53 01 00 00 00 and the next
      eight are the capacity, least significant byte first. */
  lemma HeaderIsLaidOut(mem: seq<byte>, c: nat)
    requires HEADER_SIZE <= |mem|
    ensures HeaderMatches(mem, c) <==>
              && mem[..8] == [0x52, 0x4d, 0x48, 0x53, 1, 0, 0, 0]
              && c == Four(mem[8], mem[9], mem[10], mem[11])
                      + 0x1_0000_0000 * Four(mem[12], mem[13], mem[14], mem[15])
  {
    IdentityByBytes(mem);
    CapacityByBytes(mem);
    assert mem[..8] == mem[..4] + mem[4..8];
    assert [0x52, 0x4d, 0x48, 0x53, 1, 0, 0, 0][4..8] == [1, 0, 0, 0];
  }

  /** A fresh header is all zeros after its first 16 bytes. */
  lemma ImageRestIsZero(c: nat, i: nat)
    requires 16 <= i < 64
    ensures HeaderImage(c)[i] == 0
  {
    ZerosEncode(48, i - 16);
    assert HeaderImage(c)[i] == LittleEndian(0, 48)[i - 16];
  }

  /** A storage is accepted for a capacity exactly when its first 16 bytes are those that a fresh header
      for it has. */
  lemma AcceptedIffAsWritten(mem: seq<byte>, c: nat)
    requires HEADER_SIZE <= |mem| && c < 0x1_0000_0000_0000_0000
    ensures HeaderMatches(mem, c) <==> mem[..16] == HeaderImage(c)[..16]
    ensures HeaderImage(c)[..8] == [0x52, 0x4d, 0x48, 0x53, 1, 0, 0, 0]
    ensures forall i :: 16 <= i < 64 ==> HeaderImage(c)[i] == 0
  {
    var image := HeaderImage(c);
    forall i | 16 <= i < 64
      ensures image[i] == 0
    {
      ImageRestIsZero(c, i);
    }
    VerifyAfterInit(image, c, c);
    assert Splice(image, 0, image) == image;
    HeaderIsLaidOut(image, c);
    if mem[..16] == image[..16] {
      IdentityIsEnough(mem, image, c);
    }
    if HeaderMatches(mem, c) {
      HeaderIsLaidOut(mem, c);
      SameField(mem, image);
      assert mem[..16] == mem[..8] + mem[8..16] && image[..16] == image[..8] + image[8..16];
    }
  }

  lemma SameField(mem: seq<byte>, mem': seq<byte>)
    requires HEADER_SIZE <= |mem| && HEADER_SIZE <= |mem'|
    requires FromLittleEndian(mem[8..16]) == FromLittleEndian(mem'[8..16])
    ensures mem[8..16] == mem'[8..16]
  {
    EncodeDecode(mem[8..16]);
    EncodeDecode(mem'[8..16]);
  }

  lemma TailOfSlice(s: seq<byte>, t: seq<byte>, e: nat)
    requires e <= |s| == |t| && s[e..e + (|s| - e)] == t[e..e + (|s| - e)]
    ensures s[e..] == t[e..]
  {
    assert s[e..] == s[e..e + (|s| - e)] && t[e..] == t[e..e + (|s| - e)];
  }

  /** Storing one of the three words leaves the other two, the identity, the data region and everything
      past it alone. */
  lemma WordStoreFrames(mem: seq<byte>, cap: nat, off: nat, v: nat)
    requires HEADER_SIZE + cap <= |mem| && v < WORD && off in {OFF_HEAD, OFF_TAIL, OFF_CLOSED}
    ensures var mem' := StoreWord(mem, off, v);
            && LoadWord(mem', OFF_HEAD) == (if off == OFF_HEAD then v else LoadWord(mem, OFF_HEAD))
            && LoadWord(mem', OFF_TAIL) == (if off == OFF_TAIL then v else LoadWord(mem, OFF_TAIL))
            && LoadWord(mem', OFF_CLOSED) == (if off == OFF_CLOSED then v else LoadWord(mem, OFF_CLOSED))
            && mem'[HEADER_SIZE..HEADER_SIZE + cap] == mem[HEADER_SIZE..HEADER_SIZE + cap]
            && mem'[..16] == mem[..16] && mem'[HEADER_SIZE + cap..] == mem[HEADER_SIZE + cap..]
            && (HeaderMatches(mem', cap) <==> HeaderMatches(mem, cap))
  {
    StoreThenLoad(mem, off, v, OFF_HEAD);
    StoreThenLoad(mem, off, v, OFF_TAIL);
    StoreThenLoad(mem, off, v, OFF_CLOSED);
    SpliceElsewhere(mem, off, LittleEndian(v, 4), HEADER_SIZE, cap);
    SpliceElsewhere(mem, off, LittleEndian(v, 4), 0, 16);
    SpliceElsewhere(mem, off, LittleEndian(v, 4), HEADER_SIZE + cap, |mem| - HEADER_SIZE - cap);
    var mem' := StoreWord(mem, off, v);
    TailOfSlice(mem', mem, HEADER_SIZE + cap);
    assert mem'[..16] == mem'[0..16] && mem[..16] == mem[0..16];
    IdentityIsEnough(mem', mem, cap);
  }
}
