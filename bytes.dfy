/** Byte-level encoding shared by the node layout and the row format.
    A word is a 4-byte unsigned integer stored little-endian: the layout
    Python's struct module gives format 'I' on a little-endian host. */
module Bytes {

  type Byte = b: int | 0 <= b < 256

  /** An unsigned 32-bit word, the range struct format 'I' accepts. */
  type U32 = x: int | 0 <= x < 0x1_0000_0000

  datatype Option<T> = None | Some(value: T)

  function Zeros(n: nat): (r: seq<Byte>)
    ensures |r| == n
    ensures forall i :: 0 <= i < n ==> r[i] == 0
  {
    seq(n, _ => 0)
  }

  /** The word stored at s[off..off + 4] (struct.unpack_from('I', s, off)). */
  function U32At(s: seq<Byte>, off: nat): U32
    requires off + 4 <= |s|
  {
    var b0: int, b1: int, b2: int, b3: int := s[off], s[off + 1], s[off + 2], s[off + 3];
    b0 + 256 * (b1 + 256 * (b2 + 256 * b3))
  }

  /** The four bytes of v, least significant first (struct.pack('I', v)). */
  function EncodeU32(v: U32): (r: seq<Byte>)
    ensures |r| == 4 && U32At(r, 0) == v
  {
    var q1 := v / 256;
    var q2 := q1 / 256;
    var q3 := q2 / 256;
    [v % 256, q1 % 256, q2 % 256, q3]
  }

  /** Packing the word read at any offset gives back the bytes it was read
      from: together with EncodeU32's contract, the codec is a bijection. */
  lemma {:induction false} EncodeU32At(s: seq<Byte>, off: nat)
    requires off + 4 <= |s|
    ensures EncodeU32(U32At(s, off)) == s[off..off + 4]
  {
    var b0: int, b1: int, b2: int, b3: int := s[off], s[off + 1], s[off + 2], s[off + 3];
    var t2 := b2 + 256 * b3;
    var t1 := b1 + 256 * t2;
    var v := b0 + 256 * t1;
    assert v == U32At(s, off);
    DivModByte(b0, t1);
    DivModByte(b1, t2);
    DivModByte(b2, b3);
  }

  /** Bytes that spell EncodeU32(v) read back as v, wherever they lie. */
  lemma {:induction false} U32AtEncoded(s: seq<Byte>, off: nat, v: U32)
    requires off + 4 <= |s|
    requires forall k :: 0 <= k < 4 ==> s[off + k] == EncodeU32(v)[k]
    ensures U32At(s, off) == v
  {
    var e := EncodeU32(v);
    assert s[off] == e[0] && s[off + 1] == e[1] && s[off + 2] == e[2] && s[off + 3] == e[3];
  }

  lemma DivModByte(lo: int, hi: int)
    requires 0 <= lo < 256
    ensures (lo + 256 * hi) % 256 == lo && (lo + 256 * hi) / 256 == hi
  {
  }

  /** s with data written over s[off..off + |data|] (slice assignment). */
  function Write(s: seq<Byte>, off: nat, data: seq<Byte>): (r: seq<Byte>)
    requires off + |data| <= |s|
    ensures |r| == |s|
    ensures forall i :: off <= i < off + |data| ==> r[i] == data[i - off]
    ensures forall i {:trigger r[i]} :: 0 <= i < |s| && !(off <= i < off + |data|) ==> r[i] == s[i]
  {
    seq(|s|, i requires 0 <= i < |s| => if off <= i < off + |data| then data[i - off] else s[i])
  }

  /** Two adjacent writes are one write of the concatenation; copying a
      block cell by cell therefore copies the whole block. */
  lemma {:induction false} WriteAdjacent(s: seq<Byte>, off: nat, a: seq<Byte>, b: seq<Byte>)
    requires off + |a| + |b| <= |s|
    ensures Write(Write(s, off, a), off + |a|, b) == Write(s, off, a + b)
  {
    var lhs := Write(Write(s, off, a), off + |a|, b);
    var rhs := Write(s, off, a + b);
    forall i | 0 <= i < |s|
      ensures lhs[i] == rhs[i]
    {
      if off <= i < off + |a| {
        assert (a + b)[i - off] == a[i - off];
      } else if off + |a| <= i < off + |a| + |b| {
        assert (a + b)[i - off] == b[i - off - |a|];
      }
    }
  }

  /** struct.pack_into('I', s, off, v): the word reads back as v and no
      byte outside s[off..off + 4] changes. */
  function WriteU32(s: seq<Byte>, off: nat, v: U32): (r: seq<Byte>)
    requires off + 4 <= |s|
    ensures |r| == |s| && U32At(r, off) == v
    ensures forall i {:trigger r[i]} :: 0 <= i < |s| && !(off <= i < off + 4) ==> r[i] == s[i]
  {
    Write(s, off, EncodeU32(v))
  }
}
