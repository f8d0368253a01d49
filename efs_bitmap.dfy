/** The allocation bitmaps of easy-fs (easy-fs/src/bitmap.rs). A bitmap
    spans `blocks` disk blocks starting at `start_block_id`; each block is
    64 words of 64 bits, and bit `i` of a word is `(word >> i) & 1`. A bit's
    global index is block * 4096 + word * 64 + bit; a set bit is allocated. */
module EfsBitmap {
  import opened Wrappers
  import opened EfsLayout
  import opened Arith

  const WORD_BITS: nat := 64
  const BLOCK_WORDS: nat := 64

  /** A `u64` as its 64 bits, lowest first. */
  type Word = seq<bool>
  /** A `BitmapBlock`: 64 words. */
  type BitmapBlock = seq<Word>

  predicate WellShaped(bits: seq<BitmapBlock>)
  {
    forall b :: 0 <= b < |bits| ==> |bits[b]| == BLOCK_WORDS && forall w :: 0 <= w < BLOCK_WORDS ==> |bits[b][w]| == WORD_BITS
  }

  /** `decomposition`: (block, word in block, bit in word). */
  function Decomposition(bit: nat): (r: (nat, nat, nat))
  {
    (bit / BLOCK_BITS, (bit % BLOCK_BITS) / WORD_BITS, bit % WORD_BITS)
  }

  /** The global index of a bit position. */
  function Compose(b: nat, w: nat, i: nat): nat
  {
    b * BLOCK_BITS + w * WORD_BITS + i
  }

  /** The parts are in range and put back together give the bit; and every
      in-range position decomposes to itself, so the two are inverse. */
  lemma DecompositionRoundTrip(bit: nat, b: nat, w: nat, i: nat)
    ensures var (b0, w0, i0) := Decomposition(bit);
      w0 < BLOCK_WORDS && i0 < WORD_BITS && Compose(b0, w0, i0) == bit
    ensures w < BLOCK_WORDS && i < WORD_BITS ==> Decomposition(Compose(b, w, i)) == (b, w, i)
  {
    DecompositionComposes(bit);
    if w < BLOCK_WORDS && i < WORD_BITS {
      ComposeDecomposes(b, w, i);
    }
  }

  lemma DecompositionComposes(bit: nat)
    ensures var (b0, w0, i0) := Decomposition(bit);
      w0 < BLOCK_WORDS && i0 < WORD_BITS && Compose(b0, w0, i0) == bit
  {
    var b0, r := bit / 4096, bit % 4096;
    var w0, i0 := r / 64, r % 64;
    assert r == w0 * 64 + i0;
    assert bit == (b0 * 64 + w0) * 64 + i0;
    DivModUnique(bit, 64, b0 * 64 + w0, i0);
  }

  lemma ComposeDecomposes(b: nat, w: nat, i: nat)
    requires w < BLOCK_WORDS && i < WORD_BITS
    ensures Decomposition(Compose(b, w, i)) == (b, w, i)
  {
    var g := Compose(b, w, i);
    DivModUnique(g, 4096, b, w * 64 + i);
    DivModUnique(w * 64 + i, 64, w, i);
    DivModUnique(g, 64, b * 64 + w, i);
  }

  /** Whether a bit is set. */
  predicate IsSet(bits: seq<BitmapBlock>, g: nat)
    requires WellShaped(bits) && g < |bits| * BLOCK_BITS
  {
    var (b, w, i) := Decomposition(g);
    DecompositionRoundTrip(g, 0, 0, 0);
    bits[b][w][i]
  }

  /** The bitmap with one bit given a value. */
  function SetBit(bits: seq<BitmapBlock>, g: nat, v: bool): (r: seq<BitmapBlock>)
    requires WellShaped(bits) && g < |bits| * BLOCK_BITS
    ensures WellShaped(r) && |r| == |bits|
  {
    var (b, w, i) := Decomposition(g);
    DecompositionRoundTrip(g, 0, 0, 0);
    bits[b := bits[b][w := bits[b][w][i := v]]]
  }

  /** Giving a bit a value changes that bit and no other. */
  lemma SetBitOnly(bits: seq<BitmapBlock>, g: nat, v: bool, h: nat)
    requires WellShaped(bits) && g < |bits| * BLOCK_BITS && h < |bits| * BLOCK_BITS
    ensures IsSet(SetBit(bits, g, v), h) == if h == g then v else IsSet(bits, h)
  {
    DecompositionRoundTrip(g, 0, 0, 0);
    DecompositionRoundTrip(h, 0, 0, 0);
    if h != g {
      var (b, w, i) := Decomposition(g);
      var (b2, w2, i2) := Decomposition(h);
      assert (b, w, i) != (b2, w2, i2);
    }
  }

  /** Setting a clear bit and clearing it again restores the bitmap. */
  lemma SetThenClear(bits: seq<BitmapBlock>, g: nat)
    requires WellShaped(bits) && g < |bits| * BLOCK_BITS && !IsSet(bits, g)
    ensures SetBit(SetBit(bits, g, true), g, false) == bits
  {
    var (b, w, i) := Decomposition(g);
    DecompositionRoundTrip(g, 0, 0, 0);
    var s1 := SetBit(bits, g, true);
    assert s1 == bits[b := bits[b][w := bits[b][w][i := true]]];
    assert s1[b][w][i := false] == bits[b][w];
    assert s1[b][w := bits[b][w]] == bits[b];
    assert s1[b := bits[b]] == bits;
  }

  /** Every bit before position (b, w, i) in scan order is set: all of
      blocks 0..b, words 0..w of block b, bits 0..i of word w. */
  predicate SetBefore(bits: seq<BitmapBlock>, b: nat, w: nat, i: nat)
    requires WellShaped(bits) && b < |bits| && w < BLOCK_WORDS && i <= WORD_BITS
  {
    (forall b1, w1, i1 :: 0 <= b1 < b && 0 <= w1 < BLOCK_WORDS && 0 <= i1 < WORD_BITS ==> bits[b1][w1][i1]) &&
    (forall w1, i1 :: 0 <= w1 < w && 0 <= i1 < WORD_BITS ==> bits[b][w1][i1]) &&
    (forall i1 :: 0 <= i1 < i ==> bits[b][w][i1])
  }

  /** Scan order is global-index order: everything before a position in
      scan order has a smaller global index. */
  lemma SetBeforeGlobal(bits: seq<BitmapBlock>, b: nat, w: nat, i: nat)
    requires WellShaped(bits) && b < |bits| && w < BLOCK_WORDS && i < WORD_BITS && SetBefore(bits, b, w, i)
    ensures forall g :: 0 <= g < Compose(b, w, i) ==> IsSet(bits, g)
  {
    forall g | 0 <= g < Compose(b, w, i)
      ensures IsSet(bits, g)
    {
      DecompositionRoundTrip(g, 0, 0, 0);
      var (b1, w1, i1) := Decomposition(g);
      assert g == b1 * 4096 + w1 * 64 + i1;
      if b1 == b {
        if w1 == w {
          assert i1 < i;
        } else {
          assert w1 < w;
        }
      } else {
        assert b1 < b;
      }
    }
  }

  /** When every word of every block is all ones, every bit is set. */
  lemma AllSetGlobal(bits: seq<BitmapBlock>)
    requires WellShaped(bits)
    requires forall b1, w1, i1 :: 0 <= b1 < |bits| && 0 <= w1 < BLOCK_WORDS && 0 <= i1 < WORD_BITS ==> bits[b1][w1][i1]
    ensures forall g :: 0 <= g < |bits| * BLOCK_BITS ==> IsSet(bits, g)
  {
    forall g | 0 <= g < |bits| * BLOCK_BITS
      ensures IsSet(bits, g)
    {
      DecompositionRoundTrip(g, 0, 0, 0);
    }
  }

  class Bitmap {
    const startBlockId: nat
    const blocks: nat
    /** The contents of the bitmap's blocks on the disk. */
    var bits: seq<BitmapBlock>

    ghost predicate Valid()
      reads this
    {
      |bits| == blocks && WellShaped(bits)
    }

    /** `Bitmap::new`, over blocks whose contents are already on the disk. */
    constructor (startBlockId: nat, blocks: nat, contents: seq<BitmapBlock>)
      requires |contents| == blocks && WellShaped(contents)
      ensures Valid() && this.startBlockId == startBlockId && this.blocks == blocks && bits == contents
    {
      this.startBlockId := startBlockId;
      this.blocks := blocks;
      bits := contents;
    }

    /** `maximum`: the number of bits the bitmap holds. */
    function Maximum(): (r: nat)
      reads this
      ensures r == blocks * BLOCK_BITS
    {
      blocks * BLOCK_BITS
    }

    /** `alloc`: scan the blocks in order for the first word that is not
        all ones, take its lowest clear bit (`trailing_ones`), set it and
        return its global index: the smallest clear bit. None when every
        bit is set. */
    method Alloc() returns (r: Option<nat>)
      requires Valid()
      modifies this
      ensures Valid()
      ensures r.None? <==> forall g :: 0 <= g < Maximum() ==> IsSet(old(bits), g)
      ensures r.None? ==> bits == old(bits)
      ensures r.Some? ==> (r.value < Maximum() && !IsSet(old(bits), r.value) &&
        (forall g :: 0 <= g < r.value ==> IsSet(old(bits), g)) &&
        bits == SetBit(old(bits), r.value, true))
    {
      var blockId := 0;
      while blockId < blocks
        invariant 0 <= blockId <= blocks && bits == old(bits)
        invariant forall b1, w1, i1 :: 0 <= b1 < blockId && 0 <= w1 < BLOCK_WORDS && 0 <= i1 < WORD_BITS ==> bits[b1][w1][i1]
      {
        var block := bits[blockId];
        var w := 0;
        while w < BLOCK_WORDS && AllOnes(block[w])
          invariant 0 <= w <= BLOCK_WORDS
          invariant forall w1, i1 :: 0 <= w1 < w && 0 <= i1 < WORD_BITS ==> block[w1][i1]
        {
          w := w + 1;
        }
        if w < BLOCK_WORDS {
          var i := TrailingOnes(block[w]);
          var g := Compose(blockId, w, i);
          assert SetBefore(bits, blockId, w, i);
          SetBeforeGlobal(bits, blockId, w, i);
          DecompositionRoundTrip(g, blockId, w, i);
          assert !IsSet(bits, g) && g < Maximum();
          bits := bits[blockId := block[w := block[w][i := true]]];
          return Some(g);
        }
        blockId := blockId + 1;
      }
      AllSetGlobal(bits);
      r := None;
    }

    /** `dealloc`: assert the bit is set, then clear it; false stands for
        the failing assertion. */
    method Dealloc(bit: nat) returns (ok: bool)
      requires Valid() && bit < Maximum()
      modifies this
      ensures Valid()
      ensures ok <==> IsSet(old(bits), bit)
      ensures ok ==> bits == SetBit(old(bits), bit, false)
      ensures !ok ==> bits == old(bits)
    {
      var (blockId, word, inner) := Decomposition(bit);
      DecompositionRoundTrip(bit, 0, 0, 0);
      if !bits[blockId][word][inner] {
        return false;
      }
      bits := bits[blockId := bits[blockId][word := bits[blockId][word][inner := false]]];
      ok := true;
    }
  }

  /** `bit64 == u64::MAX`. */
  predicate AllOnes(word: Word)
    requires |word| == WORD_BITS
  {
    forall i :: 0 <= i < WORD_BITS ==> word[i]
  }

  /** `trailing_ones` of a word that is not all ones: the lowest clear bit. */
  method TrailingOnes(word: Word) returns (n: nat)
    requires |word| == WORD_BITS && !AllOnes(word)
    ensures n < WORD_BITS && !word[n] && forall i :: 0 <= i < n ==> word[i]
  {
    n := 0;
    while word[n]
      invariant 0 <= n < WORD_BITS && forall i :: 0 <= i < n ==> word[i]
      decreases WORD_BITS - n
    {
      n := n + 1;
      if n == WORD_BITS {
        assert AllOnes(word);
      }
    }
  }
}
