/** Packet memory of the NIC (kernel/wr_nic/nic-mem.h).

The RAM shared with the hardware is made of 32-bit words, while frames are bytes
that sit two bytes off a word boundary. */
module NicMem {
  import opened Common

  const NR_DESC := 8
  const DDATA_OFFSET := 2
  const WINDOW := 0x800
  const MEM_BYTES := 0x8000
  const MEM_WORDS := 0x2000

  type Word = w: nat | w < TWO32

  // ---------------------------------------------------- bytes and words

  function Le32(a: Byte, b: Byte, c: Byte, d: Byte): Word { a + 0x100 * b + 0x1_0000 * c + 0x100_0000 * d }

  function ByteOf(w: Word, j: nat): Byte
    requires j < 4
  {
    if j == 0 then w % 256 else if j == 1 then w / 0x100 % 256
    else if j == 2 then w / 0x1_0000 % 256 else w / 0x100_0000
  }

  lemma BytesOfWord(a: Byte, b: Byte, c: Byte, d: Byte)
    ensures var w := Le32(a, b, c, d);
            ByteOf(w, 0) == a && ByteOf(w, 1) == b && ByteOf(w, 2) == c && ByteOf(w, 3) == d
  {
    var w := Le32(a, b, c, d);
    var hi := c + 0x100 * d;
    ByteDiv(w, b + 0x100 * hi, a);
    ByteDiv(b + 0x100 * hi, hi, b);
    HalfDiv(w, hi, a + 0x100 * b);
    ByteDiv(hi, d, c);
    assert w == 0x100_0000 * d + (a + 0x100 * b + 0x1_0000 * c);
  }

  lemma ByteDiv(x: nat, q: nat, r: nat)
    requires x == 0x100 * q + r && r < 0x100
    ensures x / 0x100 == q && x % 0x100 == r
  {
  }

  lemma HalfDiv(x: nat, q: nat, r: nat)
    requires x == 0x1_0000 * q + r && r < 0x1_0000
    ensures x / 0x1_0000 == q
  {
  }

  /** Bytes as the little-endian words they make up. */
  function Packed(bytes: seq<Byte>): (r: seq<Word>)
    requires |bytes| % 4 == 0
    ensures |r| == |bytes| / 4
  {
    seq(|bytes| / 4, k requires 0 <= k < |bytes| / 4 =>
          Le32(bytes[4 * k], bytes[4 * k + 1], bytes[4 * k + 2], bytes[4 * k + 3]))
  }

  function Unpacked(words: seq<Word>): (r: seq<Byte>)
    ensures |r| == 4 * |words|
  {
    seq(4 * |words|, i requires 0 <= i < 4 * |words| => ByteOf(words[i / 4], i % 4))
  }

  lemma UnpackPacked(bytes: seq<Byte>)
    requires |bytes| % 4 == 0
    ensures Unpacked(Packed(bytes)) == bytes
  {
    var words := Packed(bytes);
    forall i | 0 <= i < |bytes|
      ensures ByteOf(words[i / 4], i % 4) == bytes[i]
    {
      var k := i / 4;
      hide Le32, ByteOf;
      BytesOfWord(bytes[4 * k], bytes[4 * k + 1], bytes[4 * k + 2], bytes[4 * k + 3]);
      assert i == 4 * k + i % 4;
      assert i % 4 == 0 || i % 4 == 1 || i % 4 == 2 || i % 4 == 3;
    }
  }

  // -------------------------------------------------------------- windows

  datatype Dir = Rx | Tx

  /** __wrn_desc_offset: 2 kB for each descriptor, transmission first. */
  function DescOffset(dir: Dir, nr: nat): nat { WINDOW * (if dir == Rx then nr + NR_DESC else nr) }

  /** The number of words that a copy of `size` bytes touches. */
  function Words(size: nat): nat { (size + DDATA_OFFSET + 3) / 4 }

  /** The windows of different descriptors have no byte in common and lie in the RAM. */
  lemma WindowsDisjoint(dir: Dir, nr: nat, dir': Dir, nr': nat)
    requires nr < NR_DESC && nr' < NR_DESC
    ensures DescOffset(dir, nr) % 4 == 0 && DescOffset(dir, nr) + WINDOW <= MEM_BYTES
    ensures dir != dir' || nr != nr' ==>
              || DescOffset(dir, nr) + WINDOW <= DescOffset(dir', nr')
              || DescOffset(dir', nr') + WINDOW <= DescOffset(dir, nr)
  {
  }

  /** A copy stays inside its window exactly up to 2046 bytes, which covers both the
      2000 bytes offered to the receiver and the 1540 accepted for transmission. */
  lemma CopyFitsWindow(size: nat)
    ensures 4 * Words(size) <= WINDOW <==> size <= WINDOW - DDATA_OFFSET
    ensures size + DDATA_OFFSET <= 4 * Words(size) < size + DDATA_OFFSET + 4
  {
  }

  // ------------------------------------------------------------- the copies

  /** __wrn_copy_out: `to` is a word of the RAM, `from` the first byte of the frame. */
  method CopyOut(ram: array<Word>, to: nat, src: array<Byte>, from: nat, size: nat)
    requires DDATA_OFFSET <= from && from - DDATA_OFFSET + 4 * Words(size) <= src.Length
    requires to + Words(size) <= ram.Length
    modifies ram
    ensures ram[to..to + Words(size)] == Packed(src[from - DDATA_OFFSET..from - DDATA_OFFSET + 4 * Words(size)])
    ensures forall k :: 0 <= k < ram.Length && !(to <= k < to + Words(size)) ==> ram[k] == old(ram[k])
  {
    hide Le32;
    var f, t, left := from - DDATA_OFFSET, to, size + DDATA_OFFSET;
    ghost var k := 0;
    while left > 0
      invariant left == size + DDATA_OFFSET - 4 * k && k <= Words(size)
      invariant f == from - DDATA_OFFSET + 4 * k && t == to + k
      invariant forall m :: 0 <= m < k ==>
                  ram[to + m] == Le32(src[from - 2 + 4 * m], src[from - 1 + 4 * m],
                                      src[from + 4 * m], src[from + 1 + 4 * m])
      invariant forall m :: 0 <= m < ram.Length && !(to <= m < to + k) ==> ram[m] == old(ram[m])
    {
      var w := Le32(src[f], src[f + 1], src[f + 2], src[f + 3]);
      ram[t] := w;
      t := t + 1;
      f := f + 4;
      left := left - 4;
      k := k + 1;
    }
    assert k == Words(size);
  }

  /** __wrn_copy_in: the two bytes before `to`, and up to three after the frame, are
      overwritten as well. */
  method CopyIn(dst: array<Byte>, to: nat, ram: array<Word>, from: nat, size: nat)
    requires DDATA_OFFSET <= to && to - DDATA_OFFSET + 4 * Words(size) <= dst.Length
    requires from + Words(size) <= ram.Length
    modifies dst
    ensures dst[to - DDATA_OFFSET..to - DDATA_OFFSET + 4 * Words(size)] == Unpacked(ram[from..from + Words(size)])
    ensures forall i :: 0 <= i < dst.Length && !(to - DDATA_OFFSET <= i < to + size + 2 + 1) ==> dst[i] == old(dst[i])
  {
    hide ByteOf;
    var t, f, left := to - DDATA_OFFSET, from, size + DDATA_OFFSET;
    ghost var k := 0;
    while left > 0
      invariant left == size + DDATA_OFFSET - 4 * k && k <= Words(size)
      invariant t == to - DDATA_OFFSET + 4 * k && f == from + k
      invariant forall i :: 0 <= i < 4 * k ==> dst[to - DDATA_OFFSET + i] == ByteOf(ram[from + i / 4], i % 4)
      invariant forall i :: 0 <= i < dst.Length && !(to - DDATA_OFFSET <= i < to - DDATA_OFFSET + 4 * k) ==>
                    dst[i] == old(dst[i])
    {
      var w := ram[f];
      dst[t], dst[t + 1], dst[t + 2], dst[t + 3] := ByteOf(w, 0), ByteOf(w, 1), ByteOf(w, 2), ByteOf(w, 3);
      t := t + 4;
      f := f + 1;
      left := left - 4;
      k := k + 1;
    }
    assert k == Words(size);
  }

  /** Copying a frame out and the same number of bytes in again is the identity on
      the frame, for every length. */
  lemma OutAndIn(src: seq<Byte>, from: nat, size: nat, words: seq<Word>)
    requires DDATA_OFFSET <= from && from - DDATA_OFFSET + 4 * Words(size) <= |src|
    requires words == Packed(src[from - DDATA_OFFSET..from - DDATA_OFFSET + 4 * Words(size)])
    ensures Unpacked(words)[DDATA_OFFSET..DDATA_OFFSET + size] == src[from..from + size]
  {
    hide Packed, Unpacked;
    var bytes := src[from - DDATA_OFFSET..from - DDATA_OFFSET + 4 * Words(size)];
    UnpackPacked(bytes);
    SliceOfSlice(src, from - DDATA_OFFSET, from - DDATA_OFFSET + 4 * Words(size), DDATA_OFFSET, DDATA_OFFSET + size);
  }

  lemma SliceOfSlice<T>(s: seq<T>, a: nat, b: nat, i: nat, j: nat)
    requires a <= b <= |s| && i <= j <= b - a
    ensures s[a..b][i..j] == s[a + i..a + j]
  {
    var x, y := s[a..b][i..j], s[a + i..a + j];
    assert |x| == |y| && forall k :: 0 <= k < |x| ==> x[k] == s[a + i + k] == y[k];
  }
}
