/** The instruction record of the toy CPU and its packing into a 32-character
    bit string. Bit 31 is the first character of the word, bit 0 the last. */
module Instructions {
  import opened Bits

  /** One machine instruction. Field names follow the layout diagram:
      B unconditional jump, C conditional jump, WE write enable, WS write
      source, ALUop ALU operation, RA1/RA2 ALU read addresses, WA write
      address, Const the immediate. Values are unbounded integers, as in the
      source; only packing needs them in range. */
  datatype Instruction = Instruction(
    B: int, C: int, WE: int, WS: int, ALUop: int,
    RA1: int, RA2: int, WA: int, Const: int)

  /** The freshly constructed instruction: every field zero except the write
      source, which starts at 2. WA and Const start at zero. */
  const Default := Instruction(0, 0, 0, 2, 0, 0, 0, 0, 0)

  const WordWidth: nat := 32

  predicate FitsIn(v: int, width: nat) {
    0 <= v < Pow2(width)
  }

  /** Every field is encodable in its declared width. */
  predicate WellFormed(i: Instruction) {
    && FitsIn(i.B, 1) && FitsIn(i.C, 1) && FitsIn(i.WE, 1) && FitsIn(i.WS, 2)
    && FitsIn(i.ALUop, 4) && FitsIn(i.RA1, 5) && FitsIn(i.RA2, 5)
    && FitsIn(i.WA, 5) && FitsIn(i.Const, 8)
  }

  /** A 32-character word of '0'/'1'. */
  predicate IsWord(w: string) {
    |w| == WordWidth && IsBinary(w)
  }

  /** The unsigned value of bits hi..lo of a word (bit 31 is w[0]). */
  function FieldAt(w: string, hi: nat, lo: nat): (v: nat)
    requires IsWord(w) && lo <= hi < WordWidth
    ensures v < Pow2(hi - lo + 1)
  {
    FromBitsBound(w[31 - hi .. 32 - lo]);
    FromBits(w[31 - hi .. 32 - lo])
  }

  /** `Instruction.compile`: the fields packed most significant first. */
  function Compile(i: Instruction): (w: string)
    requires WellFormed(i)
    ensures IsWord(w)
    ensures Decode(w) == i
  {
    var w := BinExtend(i.B, 1) + BinExtend(i.C, 1) + BinExtend(i.WE, 1)
      + BinExtend(i.WS, 2) + BinExtend(i.ALUop, 4) + BinExtend(i.RA1, 5)
      + BinExtend(i.RA2, 5) + BinExtend(i.WA, 5) + BinExtend(i.Const, 8);
    PackedSlices(i, w);
    ReadBack(i, w);
    w
  }

  /** Reads every field back from its bit positions in a word. */
  function Decode(w: string): (i: Instruction)
    requires IsWord(w)
    ensures WellFormed(i)
  {
    Instruction(
      FieldAt(w, 31, 31), FieldAt(w, 30, 30), FieldAt(w, 29, 29),
      FieldAt(w, 28, 27), FieldAt(w, 26, 23), FieldAt(w, 22, 18),
      FieldAt(w, 17, 13), FieldAt(w, 12, 8), FieldAt(w, 7, 0))
  }

  /** The field at bit positions hi..lo of a word, as a string slice. */
  predicate SliceIs(w: string, hi: nat, lo: nat, piece: string)
    requires lo <= hi < WordWidth && |w| == WordWidth
  {
    w[31 - hi .. 32 - lo] == piece
  }

  lemma PieceWidths(i: Instruction)
    requires WellFormed(i)
    ensures |BinExtend(i.B, 1)| == 1 && |BinExtend(i.C, 1)| == 1
    ensures |BinExtend(i.WE, 1)| == 1 && |BinExtend(i.WS, 2)| == 2
    ensures |BinExtend(i.ALUop, 4)| == 4 && |BinExtend(i.RA1, 5)| == 5
    ensures |BinExtend(i.RA2, 5)| == 5 && |BinExtend(i.WA, 5)| == 5
    ensures |BinExtend(i.Const, 8)| == 8
  {
  }

  /** Nine pieces of the layout's widths, concatenated, occupy the layout's slices. */
  lemma Layout(p1: string, p2: string, p3: string, p4: string, p5: string,
               p6: string, p7: string, p8: string, p9: string, w: string)
    requires |p1| == 1 && |p2| == 1 && |p3| == 1 && |p4| == 2 && |p5| == 4
    requires |p6| == 5 && |p7| == 5 && |p8| == 5 && |p9| == 8
    requires w == p1 + p2 + p3 + p4 + p5 + p6 + p7 + p8 + p9
    ensures |w| == WordWidth
    ensures w[0..1] == p1 && w[1..2] == p2 && w[2..3] == p3 && w[3..5] == p4
    ensures w[5..9] == p5 && w[9..14] == p6 && w[14..19] == p7 && w[19..24] == p8
    ensures w[24..32] == p9
  {
  }

  lemma LayoutBinary(p1: string, p2: string, p3: string, p4: string, p5: string,
                     p6: string, p7: string, p8: string, p9: string, w: string)
    requires IsBinary(p1) && IsBinary(p2) && IsBinary(p3) && IsBinary(p4) && IsBinary(p5)
    requires IsBinary(p6) && IsBinary(p7) && IsBinary(p8) && IsBinary(p9)
    requires w == p1 + p2 + p3 + p4 + p5 + p6 + p7 + p8 + p9
    ensures IsBinary(w)
  {
  }

  /** Each field of the packed word sits at the bit positions of the layout:
      B at 31, C at 30, WE at 29, WS at 28-27, ALUop at 26-23, RA1 at 22-18,
      RA2 at 17-13, WA at 12-8 and Const at 7-0. */
  lemma PackedSlices(i: Instruction, w: string)
    requires WellFormed(i)
    requires w == BinExtend(i.B, 1) + BinExtend(i.C, 1) + BinExtend(i.WE, 1)
      + BinExtend(i.WS, 2) + BinExtend(i.ALUop, 4) + BinExtend(i.RA1, 5)
      + BinExtend(i.RA2, 5) + BinExtend(i.WA, 5) + BinExtend(i.Const, 8)
    ensures IsWord(w)
    ensures SliceIs(w, 31, 31, BinExtend(i.B, 1)) && SliceIs(w, 30, 30, BinExtend(i.C, 1))
    ensures SliceIs(w, 29, 29, BinExtend(i.WE, 1)) && SliceIs(w, 28, 27, BinExtend(i.WS, 2))
    ensures SliceIs(w, 26, 23, BinExtend(i.ALUop, 4)) && SliceIs(w, 22, 18, BinExtend(i.RA1, 5))
    ensures SliceIs(w, 17, 13, BinExtend(i.RA2, 5)) && SliceIs(w, 12, 8, BinExtend(i.WA, 5))
    ensures SliceIs(w, 7, 0, BinExtend(i.Const, 8))
  {
    PieceWidths(i);
    var p1, p2, p3 := BinExtend(i.B, 1), BinExtend(i.C, 1), BinExtend(i.WE, 1);
    var p4, p5, p6 := BinExtend(i.WS, 2), BinExtend(i.ALUop, 4), BinExtend(i.RA1, 5);
    var p7, p8, p9 := BinExtend(i.RA2, 5), BinExtend(i.WA, 5), BinExtend(i.Const, 8);
    Layout(p1, p2, p3, p4, p5, p6, p7, p8, p9, w);
    LayoutBinary(p1, p2, p3, p4, p5, p6, p7, p8, p9, w);
  }

  lemma ReadBack(i: Instruction, w: string)
    requires WellFormed(i) && IsWord(w)
    requires SliceIs(w, 31, 31, BinExtend(i.B, 1)) && SliceIs(w, 30, 30, BinExtend(i.C, 1))
    requires SliceIs(w, 29, 29, BinExtend(i.WE, 1)) && SliceIs(w, 28, 27, BinExtend(i.WS, 2))
    requires SliceIs(w, 26, 23, BinExtend(i.ALUop, 4)) && SliceIs(w, 22, 18, BinExtend(i.RA1, 5))
    requires SliceIs(w, 17, 13, BinExtend(i.RA2, 5)) && SliceIs(w, 12, 8, BinExtend(i.WA, 5))
    requires SliceIs(w, 7, 0, BinExtend(i.Const, 8))
    ensures Decode(w) == i
  {
  }

  /** Decoding then re-packing a word gives the word back, so packing is a
      bijection between well-formed instructions and 32-bit words. */
  lemma CompileDecode(w: string)
    requires IsWord(w)
    ensures Compile(Decode(w)) == w
  {
    var i := Decode(w);
    var v := Compile(i);
    PackedSlices(i, v);
    SliceBack(w, 0, 1); SliceBack(w, 1, 2); SliceBack(w, 2, 3);
    SliceBack(w, 3, 5); SliceBack(w, 5, 9); SliceBack(w, 9, 14);
    SliceBack(w, 14, 19); SliceBack(w, 19, 24); SliceBack(w, 24, 32);
    SlicesDetermine(v, w);
  }

  /** Two words that agree on every field slice are equal. */
  lemma SlicesDetermine(v: string, w: string)
    requires |v| == WordWidth && |w| == WordWidth
    requires v[0..1] == w[0..1] && v[1..2] == w[1..2] && v[2..3] == w[2..3]
    requires v[3..5] == w[3..5] && v[5..9] == w[5..9] && v[9..14] == w[9..14]
    requires v[14..19] == w[14..19] && v[19..24] == w[19..24] && v[24..32] == w[24..32]
    ensures v == w
  {
    forall k | 0 <= k < WordWidth
      ensures v[k] == w[k]
    {
      if k < 1 { assert v[k] == v[0..1][k] == w[0..1][k] == w[k]; }
      else if k < 2 { assert v[k] == v[1..2][k - 1] == w[1..2][k - 1] == w[k]; }
      else if k < 3 { assert v[k] == v[2..3][k - 2] == w[2..3][k - 2] == w[k]; }
      else if k < 5 { assert v[k] == v[3..5][k - 3] == w[3..5][k - 3] == w[k]; }
      else if k < 9 { assert v[k] == v[5..9][k - 5] == w[5..9][k - 5] == w[k]; }
      else if k < 14 { assert v[k] == v[9..14][k - 9] == w[9..14][k - 9] == w[k]; }
      else if k < 19 { assert v[k] == v[14..19][k - 14] == w[14..19][k - 14] == w[k]; }
      else if k < 24 { assert v[k] == v[19..24][k - 19] == w[19..24][k - 19] == w[k]; }
      else { assert v[k] == v[24..32][k - 24] == w[24..32][k - 24] == w[k]; }
    }
  }

  lemma SliceBack(w: string, a: nat, b: nat)
    requires IsWord(w) && a < b <= 32
    ensures BinExtend(FromBits(w[a..b]), b - a) == w[a..b]
  {
    BinExtendFromBits(w[a..b]);
  }
}
