/** A hailo_resource: a mapped BAR and the accessors of hailo_resource.c. */
module Resources {
  import opened Bits
  import opened Mmio
  import opened Results

  /** A BAR mapped at `address`. What is visible through it are the bytes of `backing` from `base` on; `base` moves
      when the bridge is told to translate to another address. Over a broken link all reads give ones and writes
      are lost. */
  class Region {
    const address: nat
    const linkUp: bool
    var base: nat
    var backing: seq<Byte>

    constructor (address: nat, linkUp: bool, base: nat, backing: seq<Byte>)
      ensures this.address == address && this.linkUp == linkUp && this.base == base && this.backing == backing
    {
      this.address, this.linkUp, this.base, this.backing := address, linkUp, base, backing;
    }

    /** Bytes [offset, offset + count) are memory, and so are the aligned words around them. */
    predicate Backed(offset: nat, count: nat)
      reads this
    {
      address % 4 == 0 && base % 4 == 0 && |backing| % 4 == 0 && base + offset + count <= |backing|
    }

    /** What reads see of the backing memory. */
    function Seen(): (r: seq<Byte>)
      reads this
      ensures |r| == |backing|
      ensures linkUp ==> r == backing
    {
      if linkUp then backing else seq(|backing|, i => 255)
    }

    method IoRead32(offset: nat) returns (w: nat)
      requires Backed(offset, 4) && offset % 4 == 0
      ensures w == Word(Seen(), base + offset)
    {
      w := Word(Seen(), base + offset);
    }

    method IoWrite32(offset: nat, w: nat)
      requires Backed(offset, 4) && offset % 4 == 0
      modifies this`backing
      ensures backing == if linkUp then Splice(old(backing), base + offset, WordBytes(w)) else old(backing)
    {
      if linkUp {
        backing := Splice(backing, base + offset, WordBytes(w));
      }
    }

    /** hailo_resource_read8: the byte out of the aligned word around it. */
    method Read8(offset: nat) returns (b: Byte)
      requires Backed(offset, 1)
      ensures b == Seen()[base + offset]
    {
      hide ReadBits, Word;
      var aligned := offset - (address + offset) % 4;
      AlignedAround(address, base, offset, |backing|);
      var val := IoRead32(aligned);
      Read8Is(Seen(), base + offset);
      b := ReadBits(8, 8 * (offset - aligned), val);
    }

    /** hailo_resource_write8: read-modify-write of the aligned word. */
    method Write8(offset: nat, value: Byte)
      requires Backed(offset, 1)
      modifies this`backing
      ensures backing == if linkUp then Splice(old(backing), base + offset, [value]) else old(backing)
    {
      hide WriteBits, Word, Splice, WordBytes, Shift, Pow2;
      var aligned := offset - (address + offset) % 4;
      AlignedAround(address, base, offset, |backing|);
      var initial := IoRead32(aligned);
      FieldFits(offset - aligned);
      if linkUp {
        Write8Is(backing, base + offset, value);
      }
      IoWrite32(aligned, WriteBits(8, 8 * (offset - aligned), initial, value));
    }

    /** Bytes until both sides are 4-aligned, or none are left. */
    method ReadHead(offset: nat, count: nat, toAddr: nat) returns (data: seq<Byte>)
      requires Backed(offset, count)
      ensures |data| <= count && data == Seen()[base + offset..base + offset + |data|]
      ensures |data| < count ==> (offset + |data|) % 4 == 0
    {
      hide Seen;
      data := [];
      ghost var seen, first := Seen(), base + offset;
      while |data| < count && ((toAddr + |data|) % 4 != 0 || (address + offset + |data|) % 4 != 0)
        invariant |data| <= count && data == seen[first..first + |data|]
      {
        var b := Read8(offset + |data|);
        NextByte(seen, first, data, b);
        data := data + [b];
      }
    }

    /** Words while a whole one is left. */
    method ReadWords(offset: nat, count: nat) returns (data: seq<Byte>)
      requires Backed(offset, count) && (count > 0 ==> offset % 4 == 0)
      ensures count - 4 < |data| <= count && data == Seen()[base + offset..base + offset + |data|]
    {
      hide Word, WordBytes, Seen;
      data := [];
      ghost var seen, first := Seen(), base + offset;
      while count - |data| >= 4
        invariant |data| <= count && |data| % 4 == 0 && data == seen[first..first + |data|]
      {
        var w := IoRead32(offset + |data|);
        NextWord(seen, first, data, w);
        data := data + WordBytes(w);
      }
    }

    /** The remaining bytes. */
    method ReadTail(offset: nat, count: nat) returns (data: seq<Byte>)
      requires Backed(offset, count)
      ensures data == Seen()[base + offset..base + offset + count]
    {
      hide Seen;
      data := [];
      ghost var seen, first := Seen(), base + offset;
      while |data| < count
        invariant |data| <= count && data == seen[first..first + |data|]
      {
        var b := Read8(offset + |data|);
        NextByte(seen, first, data, b);
        data := data + [b];
      }
    }

    /** hailo_resource_read_buffer: bytes up to common alignment, then words, then bytes. `toAddr` is where the
        caller's buffer lies; only its alignment matters. */
    method ReadBuffer(offset: nat, count: nat, toAddr: nat) returns (data: seq<Byte>)
      requires Backed(offset, count)
      ensures data == Seen()[base + offset..base + offset + count]
    {
      hide Seen;
      var head := ReadHead(offset, count, toAddr);
      var words := ReadWords(offset + |head|, count - |head|);
      var tail := ReadTail(offset + |head| + |words|, count - |head| - |words|);
      data := head + words + tail;
    }

    /** The bytes written so far, or nothing over a broken link, whose read-back of ones is noticed at the first
        byte that is not 0xFF. */
    ghost predicate Written(before: seq<Byte>, at: nat, data: seq<Byte>)
      reads this
      requires at + |data| <= |before|
    {
      if linkUp then backing == Splice(before, at, data) else backing == before && forall b | b in data :: b == 255
    }

    /** One byte: written, then read back. */
    method PutByte(offset: nat, value: Byte, ghost before: seq<Byte>, ghost at: nat, ghost data: seq<Byte>)
      returns (ok: bool)
      requires Backed(offset, 1) && at + |data| == base + offset && |before| == |backing| && Written(before, at, data)
      modifies this`backing
      ensures |backing| == |before|
      ensures ok ==> Written(before, at, data + [value])
      ensures !ok ==> !linkUp && backing == before && value != 255
    {
      hide Word, Splice;
      if linkUp {
        SpliceGrows(before, at, data, [value]);
      }
      Write8(offset, value);
      var b := Read8(offset);
      if linkUp {
        SpliceAt(before, at, data, [value]);
        assert [value][0] == value;
      }
      ok := b == value;
    }

    /** One word: written, then read back. */
    method PutWord(offset: nat, value: seq<Byte>, ghost before: seq<Byte>, ghost at: nat, ghost data: seq<Byte>)
      returns (ok: bool)
      requires Backed(offset, 4) && offset % 4 == 0 && |value| == 4
      requires at + |data| == base + offset && |before| == |backing| && Written(before, at, data)
      modifies this`backing
      ensures |backing| == |before|
      ensures ok ==> Written(before, at, data + value)
      ensures !ok ==> !linkUp && backing == before && exists i :: 0 <= i < 4 && value[i] != 255
    {
      hide Splice, WordBytes, FromBytes;
      WordOfBytes(value, 0);
      assert value[0..4] == value;
      if linkUp {
        SpliceGrows(before, at, data, value);
      }
      IoWrite32(offset, Word(value, 0));
      var w := IoRead32(offset);
      if linkUp {
        SpliceAt(before, at, data, value);
        SameWord(Splice(before, at, data + value), at + |data|, value);
      } else {
        WordOfBytes(Seen(), base + offset);
        assert WordBytes(w) == [255, 255, 255, 255];
      }
      ok := w == Word(value, 0);
      if ok && !linkUp {
        assert value == [255, 255, 255, 255];
      }
    }

    /** Bytes until both sides are 4-aligned, or none are left. */
    method WriteHead(offset: nat, data: seq<Byte>, fromAddr: nat, ghost before: seq<Byte>, ghost first: nat)
      returns (ok: bool, done: nat)
      requires Backed(offset, |data|) && first == base + offset && |before| == |backing| && Written(before, first, [])
      modifies this`backing
      ensures |backing| == |before| && done <= |data|
      ensures ok ==> Written(before, first, data[..done]) && (done < |data| ==> (offset + done) % 4 == 0)
      ensures !ok ==> !linkUp && backing == before && exists b :: b in data && b != 255
    {
      hide Splice, Written;
      ok, done := true, 0;
      assert data[..0] == [];
      while done < |data| && ((address + offset + done) % 4 != 0 || (fromAddr + done) % 4 != 0)
        invariant done <= |data| && |backing| == |before|
        invariant Written(before, first, data[..done])
      {
        assert data[..done + 1] == data[..done] + [data[done]];
        ok := PutByte(offset + done, data[done], before, first, data[..done]);
        if !ok {
          assert data[done] in data;
          return;
        }
        done := done + 1;
      }
    }

    /** Words while a whole one is left. */
    method WriteWords(offset: nat, data: seq<Byte>, from: nat, ghost before: seq<Byte>, ghost first: nat)
      returns (ok: bool, done: nat)
      requires Backed(offset, |data|) && first == base + offset && |before| == |backing| && from <= |data|
      requires Written(before, first, data[..from]) && (from < |data| ==> (offset + from) % 4 == 0)
      modifies this`backing
      ensures |backing| == |before| && from <= done <= |data|
      ensures ok ==> Written(before, first, data[..done]) && |data| - done < 4
      ensures !ok ==> !linkUp && backing == before && exists b :: b in data && b != 255
    {
      hide Splice, Written;
      ok, done := true, from;
      while |data| - done >= 4
        invariant from <= done <= |data| && (done < |data| ==> (offset + done) % 4 == 0) && |backing| == |before|
        invariant Written(before, first, data[..done])
      {
        var word := data[done..done + 4];
        assert data[..done + 4] == data[..done] + word;
        ok := PutWord(offset + done, word, before, first, data[..done]);
        if !ok {
          ghost var i :| 0 <= i < 4 && word[i] != 255;
          assert word[i] == data[done + i] && data[done + i] in data;
          return;
        }
        done := done + 4;
      }
    }

    /** The remaining bytes. */
    method WriteTail(offset: nat, data: seq<Byte>, from: nat, ghost before: seq<Byte>, ghost first: nat)
      returns (ok: bool)
      requires Backed(offset, |data|) && first == base + offset && |before| == |backing| && from <= |data|
      requires Written(before, first, data[..from])
      modifies this`backing
      ensures |backing| == |before|
      ensures ok ==> Written(before, first, data)
      ensures !ok ==> !linkUp && backing == before && exists b :: b in data && b != 255
    {
      hide Splice, Written;
      ok := true;
      var done := from;
      while done < |data|
        invariant done <= |data| && |backing| == |before|
        invariant Written(before, first, data[..done])
      {
        assert data[..done + 1] == data[..done] + [data[done]];
        ok := PutByte(offset + done, data[done], before, first, data[..done]);
        if !ok {
          assert data[done] in data;
          return;
        }
        done := done + 1;
      }
      assert data[..done] == data;
    }

    /** hailo_resource_write_buffer. Over a working link it succeeds and changes exactly the given bytes; over a
        broken one it changes nothing, and fails unless every byte is 0xFF. */
    method WriteBuffer(offset: nat, data: seq<Byte>, fromAddr: nat) returns (ret: int)
      requires Backed(offset, |data|)
      modifies this`backing
      ensures |backing| == |old(backing)|
      ensures linkUp ==> ret == 0 && backing == Splice(old(backing), base + offset, data)
      ensures !linkUp ==> backing == old(backing) && ret == if forall b | b in data :: b == 255 then 0 else EIO
    {
      hide Splice;
      ghost var before, first := backing, base + offset;
      NothingWritten(before, first);
      var ok, done := WriteHead(offset, data, fromAddr, before, first);
      if !ok {
        return EIO;
      }
      ok, done := WriteWords(offset, data, done, before, first);
      if !ok {
        return EIO;
      }
      ok := WriteTail(offset, data, done, before, first);
      if !ok {
        return EIO;
      }
      return 0;
    }
  }

  lemma NothingWritten(before: seq<Byte>, at: nat)
    requires at <= |before|
    ensures Splice(before, at, []) == before
  {
  }

  /** A later piece of a splice, read back. */
  lemma SpliceAt(before: seq<Byte>, at: nat, data: seq<Byte>, value: seq<Byte>)
    requires at + |data| + |value| <= |before|
    ensures forall i | 0 <= i < |value| :: Splice(before, at, data + value)[at + |data| + i] == value[i]
  {
  }

  lemma SameWord(bytes: seq<Byte>, at: nat, value: seq<Byte>)
    requires |value| == 4 && at + 4 <= |bytes| && forall i | 0 <= i < 4 :: bytes[at + i] == value[i]
    ensures Word(bytes, at) == Word(value, 0)
  {
    assert bytes[at + 0] == value[0];
  }

  /** Rounding down to the word around an offset is the same in the address space, in the region and in memory. */
  lemma AlignedAround(address: nat, base: nat, offset: nat, size: nat)
    requires address % 4 == 0 && base % 4 == 0 && size % 4 == 0 && base + offset < size
    ensures var aligned := offset - (address + offset) % 4;
            && 0 <= aligned && aligned % 4 == 0 && base + aligned + 4 <= size
            && base + aligned == base + offset - (base + offset) % 4
            && offset - aligned == (base + offset) % 4
  {
  }

  lemma NextByte(s: seq<Byte>, at: nat, data: seq<Byte>, b: Byte)
    requires at + |data| < |s| && data == s[at..at + |data|] && b == s[at + |data|]
    ensures data + [b] == s[at..at + |data| + 1]
  {
  }

  /** A word read behind the bytes read so far. */
  lemma NextWord(s: seq<Byte>, at: nat, data: seq<Byte>, w: nat)
    requires at + |data| + 4 <= |s| && data == s[at..at + |data|] && w == Word(s, at + |data|)
    ensures data + WordBytes(w) == s[at..at + |data| + 4]
  {
    hide Word, WordBytes;
    WordOfBytes(s, at + |data|);
    SliceGrows(s, at, |data|, 4);
  }

  lemma SliceGrows(s: seq<Byte>, at: nat, k: nat, m: nat)
    requires at + k + m <= |s|
    ensures s[at..at + k] + s[at + k..at + k + m] == s[at..at + k + m]
  {
  }
}
