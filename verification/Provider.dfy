/** What the seed-key providers share: their result and the reading and writing
    of 32-bit words. */
module Provider {
  import opened Words

  /** `NoKey` is None, for arguments that a provider does not accept; `IndexFault`
      is Python's IndexError. */
  datatype Key<B> = NoKey | KeyBytes(bytes: seq<B>) | IndexFault

  datatype Endian = Big | Little

  /** Four bytes from `offset` on, or what there is of them. */
  function Chunk(data: seq<bv8>, offset: nat): (c: seq<bv8>)
    ensures |c| <= 4
  {
    if offset >= |data| then [] else if offset + 4 <= |data| then data[offset..offset + 4] else data[offset..]
  }

  function Zeros(n: nat): (z: seq<bv8>)
    ensures |z| == n
  {
    seq(n, _ => 0)
  }

  function Reverse4(c: seq<bv8>): (r: seq<bv8>)
    requires |c| == 4
    ensures |r| == 4
  {
    [c[3], c[2], c[1], c[0]]
  }

  /** Missing bytes are the most significant ones. */
  function BytesToInt(data: seq<bv8>, endian: Endian, offset: nat): bv32 {
    var c := Chunk(data, offset);
    match endian
    case Big => WordOf(Zeros(4 - |c|) + c)
    case Little => WordOf(Reverse4(c + Zeros(4 - |c|)))
  }

  function IntToBytes(value: bv32, endian: Endian): (b: seq<bv8>)
    ensures |b| == 4
  {
    match endian
    case Big => BytesOf(value)
    case Little => Reverse4(BytesOf(value))
  }

  lemma FullChunk(c: seq<bv8>, endian: Endian, data: seq<bv8>, offset: nat)
    requires |c| == 4 && offset + 4 <= |data| && data[offset..offset + 4] == c
    ensures BytesToInt(data, endian, offset) == WordOf(if endian == Big then c else Reverse4(c))
  {
    hide WordOf, Reverse4;
    assert Zeros(0) + c == c == c + Zeros(0);
  }

  lemma ReverseTwice(c: seq<bv8>)
    requires |c| == 4
    ensures Reverse4(Reverse4(c)) == c
  {
  }

  /** Writing a word anywhere and reading it there gives it back. */
  lemma WriteThenRead(w: bv32, before: seq<bv8>, after: seq<bv8>, endian: Endian)
    ensures BytesToInt(before + IntToBytes(w, endian) + after, endian, |before|) == w
  {
    hide WordOf, BytesOf, Reverse4, BytesToInt;
    FullChunk(IntToBytes(w, endian), endian, before + IntToBytes(w, endian) + after, |before|);
    BytesRoundTrip(w, BytesOf(w));
    ReverseTwice(BytesOf(w));
  }

  /** Reading four bytes and writing them gives them back. */
  lemma ReadThenWrite(data: seq<bv8>, offset: nat, endian: Endian)
    requires offset + 4 <= |data|
    ensures IntToBytes(BytesToInt(data, endian, offset), endian) == data[offset..offset + 4]
  {
    hide WordOf, BytesOf, Reverse4, BytesToInt;
    var c := data[offset..offset + 4];
    FullChunk(c, endian, data, offset);
    BytesRoundTrip(0, c);
    BytesRoundTrip(0, Reverse4(c));
    ReverseTwice(c);
  }

  /** The providers that read a whole seed read it as `WordOf`. */
  lemma WholeWord(data: seq<bv8>)
    requires |data| == 4
    ensures BytesToInt(data, Big, 0) == WordOf(data)
  {
    hide WordOf;
    assert Chunk(data, 0) == data && Zeros(0) + data == data;
  }

  // ----- the number that the bytes stand for -----

  function BigEndian(c: seq<bv8>): nat {
    if c == [] then 0 else BigEndian(c[..|c| - 1]) * 256 + Nat8(c[|c| - 1])
  }

  function LittleEndian(c: seq<bv8>): nat {
    if c == [] then 0 else Nat8(c[0]) + 256 * LittleEndian(c[1..])
  }

  lemma FourBytes(p: seq<bv8>)
    requires |p| == 4
    ensures BigEndian(p) == Value(WordOf(p))
  {
    hide Word, Value, Nat8;
    assert p[..3][..2] == p[..2] && p[..2][..1] == p[..1];
    assert BigEndian(p[..1]) == Nat8(p[0]);
    assert BigEndian(p[..2]) == Nat8(p[0]) * 256 + Nat8(p[1]);
    assert BigEndian(p[..3]) == Nat8(p[0]) * 0x1_0000 + Nat8(p[1]) * 256 + Nat8(p[2]);
    ValueOfWord(p[0], p[1], p[2], p[3]);
  }

  lemma FourBytesReversed(p: seq<bv8>)
    requires |p| == 4
    ensures LittleEndian(p) == Value(WordOf(Reverse4(p)))
  {
    hide Word, Value, Nat8;
    assert p[1..][1..] == p[2..] && p[2..][1..] == p[3..];
    assert LittleEndian(p[3..]) == Nat8(p[3]);
    assert LittleEndian(p[2..]) == Nat8(p[2]) + 256 * Nat8(p[3]);
    assert LittleEndian(p[1..]) == Nat8(p[1]) + 256 * Nat8(p[2]) + 0x1_0000 * Nat8(p[3]);
    ValueOfWord(p[3], p[2], p[1], p[0]);
  }

  lemma ZeroByte()
    ensures Nat8(0) == 0
  {
  }

  lemma {:induction false} LeadingZeros(n: nat, c: seq<bv8>)
    ensures BigEndian(Zeros(n) + c) == BigEndian(c)
    decreases n + |c|
  {
    hide Nat8;
    var p := Zeros(n) + c;
    ZeroByte();
    if c != [] {
      assert p[..|p| - 1] == Zeros(n) + c[..|c| - 1];
      LeadingZeros(n, c[..|c| - 1]);
    } else if n != 0 {
      assert p[..|p| - 1] == Zeros(n - 1) + c;
      LeadingZeros(n - 1, c);
    }
  }

  lemma {:induction false} TrailingZeros(c: seq<bv8>, n: nat)
    ensures LittleEndian(c + Zeros(n)) == LittleEndian(c)
    decreases n + |c|
  {
    hide Nat8;
    var p := c + Zeros(n);
    ZeroByte();
    if c != [] {
      assert p[1..] == c[1..] + Zeros(n);
      TrailingZeros(c[1..], n);
    } else if n != 0 {
      assert p[1..] == c + Zeros(n - 1);
      TrailingZeros(c, n - 1);
    }
  }

  /** Fewer than four bytes stand for their number too, in either byte order. */
  lemma ChunkIsANumber(data: seq<bv8>, offset: nat, c: seq<bv8>)
    requires offset <= |data| && |c| <= 4 && c <= data[offset..] && (|c| == 4 || offset + |c| == |data|)
    ensures Value(BytesToInt(data, Big, offset)) == BigEndian(c)
    ensures Value(BytesToInt(data, Little, offset)) == LittleEndian(c)
  {
    hide WordOf, Reverse4, BigEndian, LittleEndian;
    assert Chunk(data, offset) == c;
    LeadingZeros(4 - |c|, c);
    TrailingZeros(c, 4 - |c|);
    FourBytes(Zeros(4 - |c|) + c);
    FourBytesReversed(c + Zeros(4 - |c|));
  }
}
