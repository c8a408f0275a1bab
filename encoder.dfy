/**
 * The bit-packing encoder of a chunk (`encode_chunk`): every symbol's code
 * is appended, most significant bit first, to an 8-bit accumulator that is
 * flushed to the output when it is full and the next bit must be placed;
 * the last byte is left-aligned and the number of unused low bits in it is
 * returned as the padding.
 */
module Encoder {
  import opened Bits
  import opened Huffman
  import opened Codes

  /**
   * A code-table entry the packing loop handles: a length that fits the
   * 32-bit `int` code, and a code below 2^length.
   */
  predicate ValidEntry(e: (int, int))
  {
    0 <= e.0 <= 31 && 0 <= e.1 < Pow2(e.0)
  }

  /** Every symbol of the chunk indexes the table and has a valid entry. */
  predicate Encodable(table: seq<(int, int)>, chunk: seq<int>)
  {
    forall i :: 0 <= i < |chunk| ==> 0 <= chunk[i] < |table| && ValidEntry(table[chunk[i]])
  }

  /** The bits of one entry: the low `length` bits of the code, MSB first. */
  function EntryCode(e: (int, int)): (bs: seq<bool>)
    requires ValidEntry(e)
    ensures |bs| == e.0 && BitsToNat(bs) == e.1
  {
    BitsRoundTripValue(e.1, e.0);
    NatToBits(e.1, e.0)
  }

  /** The code bits of the chunk's symbols, in input order. */
  function EncodeBits(table: seq<(int, int)>, chunk: seq<int>): seq<bool>
    requires Encodable(table, chunk)
  {
    if chunk == [] then []
    else EncodeBits(table, chunk[..|chunk| - 1]) + EntryCode(table[chunk[|chunk| - 1]])
  }

  /** A value below 2^n is what its n low bits read back as. */
  lemma {:induction false} BitsRoundTripValue(v: nat, n: nat)
    requires v < Pow2(n)
    ensures BitsToNat(NatToBits(v, n)) == v
  {
    if n > 0 {
      BitsRoundTripValue(v / 2, n - 1);
    }
  }

  lemma EncodeBitsAppend(table: seq<(int, int)>, chunk: seq<int>, i: nat)
    requires Encodable(table, chunk) && i < |chunk|
    ensures EncodeBits(table, chunk[..i + 1]) == EncodeBits(table, chunk[..i]) + EntryCode(table[chunk[i]])
  {
    assert chunk[..i + 1][..i] == chunk[..i];
  }

  /** Flushing the full accumulator moves its 8 bits to the output unchanged. */
  lemma Flush(out: seq<Byte>, buffer: Byte)
    ensures BytesToBits(out + [buffer]) + NatToBits(0, 0) == BytesToBits(out) + NatToBits(buffer, 8)
  {
    BytesToBitsAppend(out, buffer);
  }

  /** The last, partial byte shifted left: its pending bits followed by zero bits. */
  lemma LeftAlign(buffer: nat, bl: nat)
    requires bl <= 8
    ensures NatToBits(Trunc8(ShiftLeft(buffer, 8 - bl)), 8) == NatToBits(buffer, bl) + Zeros(8 - bl)
  {
    assert BitOr(buffer * Pow2(8 - bl), 0) == buffer * Pow2(8 - bl);
    Pack(buffer, bl, 0, 8 - bl);
    ZerosAreBitsOfZero(8 - bl);
  }

  /**
   * The bits not yet accounted for: those flushed to the output, the low
   * `bufLen` bits of the accumulator, and the low `remaining` bits of the
   * current code.
   */
  function Pending(out: seq<Byte>, buffer: nat, bufLen: nat, code: nat, remaining: nat): (bs: seq<bool>)
    ensures |bs| == 8 * |out| + bufLen + remaining
  {
    BytesToBits(out) + NatToBits(buffer, bufLen) + NatToBits(code, remaining)
  }

  /** A flush of the full accumulator keeps the pending bits. */
  lemma FlushStep(out: seq<Byte>, buffer: Byte, code: nat, remaining: nat)
    ensures Pending(out + [buffer], 0, 0, code, remaining) == Pending(out, buffer, 8, code, remaining)
  {
    BytesToBitsAppend(out, buffer);
  }

  /** `buffer = (buffer << remaining) | code` keeps the pending bits when the code fits. */
  lemma FitStep(out: seq<Byte>, buffer: nat, bl: nat, code: nat, r: nat)
    requires bl + r <= 8
    requires code < Pow2(r) || (buffer == 0 && bl == 0)
    ensures Pending(out, Trunc8(BitOr(ShiftLeft(buffer, r), code)), bl + r, code, 0) == Pending(out, buffer, bl, code, r)
  {
    Pack(buffer, bl, code, r);
  }

  /**
   * `buffer = (buffer << shift) | (code >> (remaining - shift))` with
   * `shift = 8 - buf_len` keeps the pending bits when the code does not fit.
   */
  lemma SplitStep(out: seq<Byte>, buffer: nat, bl: nat, code: nat, r: nat, shift: nat)
    requires bl < 8 < bl + r && shift == 8 - bl
    requires code < Pow2(r) || (buffer == 0 && bl == 0)
    ensures Pending(out, Trunc8(BitOr(ShiftLeft(buffer, shift), ShiftRight(code, r - shift))), 8, code, r - shift)
            == Pending(out, buffer, bl, code, r)
  {
    var high := ShiftRight(code, r - shift);
    if code < Pow2(r) {
      ShiftRightBound(code, r, r - shift);
    }
    SplitBits(code, shift, r - shift);
    Pack(buffer, bl, high, shift);
  }

  /**
   * The inner `while (remaining != 0)` loop: the low `len` bits of `code`
   * are appended to the pending bits held in the output and the
   * accumulator.  A full accumulator is flushed only when another bit must
   * be placed; a code that does not fit is split, its high part filling the
   * accumulator; `code` itself is never masked, the bits already consumed
   * are cut off by the 8-bit truncation.
   */
  method PackCode(out: seq<Byte>, buffer: Byte, bufLen: nat, code: nat, len: nat)
    returns (out': seq<Byte>, buffer': Byte, bufLen': nat)
    requires bufLen <= 8 && code < Pow2(len)
    requires bufLen == 0 ==> out == []
    ensures bufLen' <= 8
    ensures Pending(out', buffer', bufLen', code, 0) == Pending(out, buffer, bufLen, code, len)
    ensures bufLen' == 0 ==> out' == [] && len == 0
  {
    out', buffer', bufLen' := out, buffer, bufLen;
    var remaining: nat := len;
    while remaining != 0
      invariant bufLen' <= 8
      invariant remaining == 0 || code < Pow2(remaining) || bufLen' == 8
      invariant Pending(out', buffer', bufLen', code, remaining) == Pending(out, buffer, bufLen, code, len)
      invariant bufLen' == 0 ==> out' == [] && remaining == len
      decreases remaining
    {
      if bufLen' == 8 {
        FlushStep(out', buffer', code, remaining);
        out' := out' + [buffer'];
        buffer' := 0;
        bufLen' := 0;
      }
      if bufLen' + remaining <= 8 {
        FitStep(out', buffer', bufLen', code, remaining);
        buffer' := Trunc8(BitOr(ShiftLeft(buffer', remaining), code));
        bufLen' := bufLen' + remaining;
        remaining := 0;
      } else {
        var shift := 8 - bufLen';
        SplitStep(out', buffer', bufLen', code, remaining, shift);
        buffer' := Trunc8(BitOr(ShiftLeft(buffer', shift), ShiftRight(code, remaining - shift)));
        remaining := remaining - shift;
        bufLen' := 8;
      }
    }
  }

  /**
   * `encode_chunk`.  The output bytes read MSB first are the code bits of
   * the chunk followed by the padding zeros; there are ceil(bits / 8) of
   * them; the padding is `8 - buf_len`: 8 for a chunk that produced no bit,
   * otherwise in 0..7 and 0 exactly when the bit count is a multiple of 8.
   */
  method EncodeChunk(codeTable: seq<(int, int)>, fileChunk: seq<int>) returns (encoded: seq<Byte>, padding: int)
    requires Encodable(codeTable, fileChunk)
    ensures |encoded| == (|EncodeBits(codeTable, fileChunk)| + 7) / 8
    ensures BytesToBits(encoded) == EncodeBits(codeTable, fileChunk) + Zeros(8 * |encoded| - |EncodeBits(codeTable, fileChunk)|)
    ensures EncodeBits(codeTable, fileChunk) == [] ==> padding == 8 && encoded == []
    ensures EncodeBits(codeTable, fileChunk) != [] ==> 0 <= padding < 8 && 8 * |encoded| - padding == |EncodeBits(codeTable, fileChunk)|
    ensures padding == 0 <==> EncodeBits(codeTable, fileChunk) != [] && |EncodeBits(codeTable, fileChunk)| % 8 == 0
  {
    var bufferVec: seq<Byte> := [];
    var bufLen: nat := 0;
    var buffer: Byte := 0;
    var i := 0;
    while i < |fileChunk|
      invariant 0 <= i <= |fileChunk|
      invariant bufLen <= 8
      invariant BytesToBits(bufferVec) + NatToBits(buffer, bufLen) == EncodeBits(codeTable, fileChunk[..i])
      invariant bufLen == 0 ==> bufferVec == []
    {
      var entry := codeTable[fileChunk[i]];
      EncodeBitsAppend(codeTable, fileChunk, i);
      bufferVec, buffer, bufLen := PackCode(bufferVec, buffer, bufLen, entry.1, entry.0);
      assert BytesToBits(bufferVec) + NatToBits(buffer, bufLen) == Pending(bufferVec, buffer, bufLen, entry.1, 0);
      i := i + 1;
    }
    assert fileChunk[..i] == fileChunk;
    if bufLen != 0 {
      var last := Trunc8(ShiftLeft(buffer, 8 - bufLen));
      LeftAlign(buffer, bufLen);
      BytesToBitsAppend(bufferVec, last);
      bufferVec := bufferVec + [last];
    }
    encoded := bufferVec;
    padding := 8 - bufLen;
    PaddingArith(|EncodeBits(codeTable, fileChunk)|, |encoded|, padding);
  }

  /** The byte count and padding of a chunk follow from its bit count. */
  lemma PaddingArith(nbits: nat, bytes: nat, padding: int)
    requires (nbits == 0 && bytes == 0 && padding == 8) || (bytes >= 1 && 0 <= padding < 8 && nbits == 8 * bytes - padding)
    ensures bytes == (nbits + 7) / 8
    ensures padding == 0 <==> nbits != 0 && nbits % 8 == 0
  {
  }

  /** The code bits a tree assigns to a sequence of symbols: the paths to their leaves. */
  function Paths(t: Tree, s: seq<int>): (bs: seq<bool>)
    requires forall i :: 0 <= i < |s| ==> HasSymbol(t, s[i])
    ensures s == [] ==> bs == []
  {
    if s == [] then [] else PathTo(t, s[0]) + Paths(t, s[1..])
  }

  /** Appending a symbol appends its path. */
  lemma {:induction false} PathsAppend(t: Tree, s: seq<int>, c: int)
    requires forall i :: 0 <= i < |s| ==> HasSymbol(t, s[i])
    requires HasSymbol(t, c)
    ensures Paths(t, s + [c]) == Paths(t, s) + PathTo(t, c)
  {
    if s == [] {
      assert [c][1..] == [];
    } else {
      assert (s + [c])[1..] == s[1..] + [c];
      PathsAppend(t, s[1..], c);
    }
  }

  /** The paths of s: those of all but its last symbol, then the last symbol's. */
  lemma PathsSnoc(t: Tree, s: seq<int>)
    requires s != [] && forall i :: 0 <= i < |s| ==> HasSymbol(t, s[i])
    ensures Paths(t, s) == Paths(t, s[..|s| - 1]) + PathTo(t, s[|s| - 1])
  {
    var init, c := s[..|s| - 1], s[|s| - 1];
    assert s == init + [c];
    assert forall i :: 0 <= i < |init| ==> init[i] == s[i];
    PathsAppend(t, init, c);
  }

  /** The tree's table has a valid entry for each symbol of s when the tree is at most 31 levels deep. */
  lemma TableEncodable(t: Tree, size: nat, s: seq<int>)
    requires Height(t) <= 31
    requires forall i :: 0 <= i < |s| ==> 0 <= s[i] < size
    ensures Encodable(CodeTable(t, size), s)
  {
  }

  /**
   * With the tree's own code table, the encoder's bits are the leaf paths
   * of the symbols: the table entries are valid when the tree is at most 31
   * levels deep.
   */
  lemma {:induction false} EncodeWithTree(t: Tree, size: nat, s: seq<int>)
    requires Height(t) <= 31
    requires forall i :: 0 <= i < |s| ==> 0 <= s[i] < size && HasSymbol(t, s[i])
    ensures Encodable(CodeTable(t, size), s)
    ensures EncodeBits(CodeTable(t, size), s) == Paths(t, s)
  {
    TableEncodable(t, size, s);
    if s != [] {
      var init, c := s[..|s| - 1], s[|s| - 1];
      EncodeWithTree(t, size, init);
      EntryBits(t, size, c);
      PathsSnoc(t, s);
    }
  }
}
