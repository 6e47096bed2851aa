/**
  Zero operators of cbits/hs_crc32c.c: 32x32 matrices over GF(2) that advance a CRC over
  a run of zero bytes, built by repeated squaring, and the byte tables that apply them.
 */
module Crc32cZeros {
  import opened Bits
  import opened Crc32cSpec

  /** Matrix times vector: the exclusive or of the rows selected by the bits of `vec`. */
  function Times(mat: seq<uint32>, vec: nat): uint32
    requires vec < Pow2(|mat|)
  {
    if vec == 0 then 0
    else Xor32(if vec % 2 == 1 then mat[0] else 0, Times(mat[1..], vec / 2))
  }

  /** `mat` is the operator that advances a register over `n` zero bits. */
  ghost predicate Operator(mat: seq<uint32>, n: nat) {
    && |mat| == 32
    && forall i :: 0 <= i < 32 ==> Pow2(i) < 0x1_0000_0000 && mat[i] == Advance(Pow2(i), n)
  }

  lemma TimesStep(mat: seq<uint32>, vec: nat)
    requires 0 < vec < Pow2(|mat|)
    ensures |mat| > 0 && vec / 2 < Pow2(|mat| - 1)
    ensures Times(mat, vec) == Xor32(if vec % 2 == 1 then mat[0] else 0, Times(mat[1..], vec / 2))
  {}

  /** Removing the low bit of a vector whose bits are scaled by `p`. */
  lemma PeelBit(p: nat, v: nat, w: nat, q: nat)
    requires w == p * v && q == 2 * p
    ensures w == (if v % 2 == 1 then p else 0) + q * (v / 2)
  {
    assert v == v % 2 + 2 * (v / 2);
    assert p * v == p * (v % 2) + (2 * p) * (v / 2);
  }

  lemma {:induction false} TimesFrom(mat: seq<uint32>, n: nat, j: nat, vec: nat, w: uint32)
    requires Operator(mat, n) && j <= 32 && vec < Pow2(|mat[j..]|)
    requires w == Pow2(j) * vec
    ensures Times(mat[j..], vec) == Advance(w, n)
    decreases vec
  {
    hide Xor, Bit, Advance, Pow2;
    if vec == 0 {
      AdvanceZero(n);
    } else {
      var rest := mat[j..];
      TimesStep(rest, vec);
      var p, q, v := Pow2(j), Pow2(j + 1), vec / 2;
      Pow2Double(j);
      PeelBit(p, vec, w, q);
      var w' := q * v;
      assert mat[j + 1..] == rest[1..];
      TimesFrom(mat, n, j + 1, v, w');
      XorZero(Advance(w', n));
      if vec % 2 == 1 {
        SplitAt(p, v, j + 1);
        AdvanceLinear(p, w', n);
      }
    }
  }

  /** Multiplying by an operator matrix applies the operator, for every vector. */
  lemma TimesIsAdvance(mat: seq<uint32>, n: nat, vec: uint32)
    requires Operator(mat, n)
    ensures vec < Pow2(32) && Times(mat, vec) == Advance(vec, n)
  {
    hide Advance, Times;
    Pow2Values();
    assert mat[0..] == mat && Pow2(0) == 1;
    TimesFrom(mat, n, 0, vec, vec);
  }

  /** The squared operator advances twice as far. */
  lemma SquareIsDouble(mat: seq<uint32>, n: nat, square: seq<uint32>)
    requires Operator(mat, n) && |square| == 32
    requires forall i :: 0 <= i < 32 ==> mat[i] < Pow2(32) && square[i] == Times(mat, mat[i])
    ensures Operator(square, 2 * n)
  {
    hide Advance, Times, Pow2;
    forall i | 0 <= i < 32
      ensures Pow2(i) < 0x1_0000_0000 && square[i] == Advance(Pow2(i), 2 * n)
    {
      TimesIsAdvance(mat, n, mat[i]);
      AdvanceAdd(Pow2(i), n, n);
    }
  }

  /** `gf2_matrix_times` */
  method MatrixTimes(mat: array<uint32>, vector: uint32) returns (sum: uint32)
    requires mat.Length == 32
    ensures vector < Pow2(32) && sum == Times(mat[..], vector)
  {
    hide Xor, Times, Pow2;
    Pow2Values();
    sum := 0;
    var vec: nat, row: nat := vector, 0;
    assert mat[0..] == mat[..];
    XorZero(Times(mat[..], vector));
    while vec != 0
      invariant row <= 32 && vec < Pow2(32 - row)
      invariant Xor(sum, Times(mat[row..], vec)) == Times(mat[..], vector)
    {
      TimesStep(mat[row..], vec);
      ghost var rest := Times(mat[row + 1..], vec / 2);
      assert mat[row..][1..] == mat[row + 1..];
      XorZero(rest);
      XorAssoc(sum, mat[row], rest);
      if vec % 2 == 1 {
        sum := Xor32(sum, mat[row]);
      }
      vec, row := vec / 2, row + 1;
    }
    TimesNone(mat[row..]);
    XorZero(sum);
  }

  lemma TimesNone(mat: seq<uint32>)
    ensures Times(mat, 0) == 0
  {}

  /** `gf2_matrix_square` */
  method MatrixSquare(square: array<uint32>, mat: array<uint32>, ghost n: nat)
    requires square.Length == 32 && mat.Length == 32 && square != mat
    requires Operator(mat[..], n)
    modifies square
    ensures Operator(square[..], 2 * n)
  {
    hide Advance, Times, Pow2;
    Pow2Values();
    for i := 0 to 32
      invariant mat[..] == old(mat[..])
      invariant forall k :: 0 <= k < i ==> mat[k] < Pow2(32) && square[k] == Times(mat[..], mat[k])
    {
      square[i] := MatrixTimes(mat, mat[i]);
    }
    SquareIsDouble(mat[..], n, square[..]);
  }

  /** The operator for a single zero bit, as `crc32c_zeros_op` lays it out. */
  lemma OneBitOperator(mat: seq<uint32>)
    requires |mat| == 32 && mat[0] == POLY
    requires forall i :: 1 <= i < 32 ==> mat[i] == Pow2(i - 1)
    ensures Operator(mat, 1)
  {
    Pow2Values();
    forall i | 0 <= i < 32
      ensures Pow2(i) < 0x1_0000_0000 && mat[i] == Advance(Pow2(i), 1)
    {
      OneBitRow(i);
      if i == 0 {
        XorZero(POLY);
      }
    }
  }

  lemma OneBitRow(i: nat)
    requires i < 32
    ensures Pow2(i) < 0x1_0000_0000
    ensures Advance(Pow2(i), 1) == if i == 0 then POLY else Pow2(i - 1)
  {
    hide Xor;
    Pow2Values();
    Pow2Monotone(i, 31);
    XorZero(POLY);
    AdvanceNone(Bit(Pow2(i)));
    if i != 0 {
      Pow2Double(i - 1);
    }
  }

  /** The largest power of two not above `len`; 1 for 0. */
  function FloorPow2(len: nat): nat {
    if len < 2 then 1 else 2 * FloorPow2(len / 2)
  }

  lemma {:induction false} FloorPow2IsFloor(len: nat)
    ensures len >= 1 ==> FloorPow2(len) <= len < 2 * FloorPow2(len)
  {
    if len >= 2 {
      FloorPow2IsFloor(len / 2);
    }
  }

  lemma {:induction false} FloorPow2OfPower(k: nat)
    ensures FloorPow2(Pow2(k)) == Pow2(k)
  {
    if k != 0 {
      FloorPow2OfPower(k - 1);
    }
  }

  method OneBit(odd: array<uint32>)
    requires odd.Length == 32
    modifies odd
    ensures Operator(odd[..], 1)
  {
    hide Advance, Pow2, Operator;
    RowStart();
    odd[0] := POLY;
    var row: uint32 := 1;
    for n := 1 to 32
      invariant row == Pow2(n - 1) % 0x1_0000_0000
      invariant odd[0] == POLY
      invariant forall i :: 1 <= i < n ==> odd[i] == Pow2(i - 1)
    {
      RowStep(n - 1);
      odd[n] := row;
      row := row * 2 % 0x1_0000_0000;
    }
    OneBitOperator(odd[..]);
  }

  lemma RowStart()
    ensures Pow2(0) % 0x1_0000_0000 == 1
  {}

  /** Doubling a row bit, up to the width of a row. */
  lemma RowStep(i: nat)
    requires i < 32
    ensures Pow2(i) % 0x1_0000_0000 == Pow2(i) && Pow2(i) * 2 % 0x1_0000_0000 == Pow2(i + 1) % 0x1_0000_0000
  {
    hide Pow2;
    OneBitRow(i);
    Pow2Double(i);
    SmallMod(Pow2(i), 0x1_0000_0000);
  }

  lemma MoveTwo(m: nat, f: nat, g: nat)
    requires g == 2 * f
    ensures m * g == (2 * m) * f
  {}

  lemma ScaleFloor(m: nat, len: nat)
    requires len >= 2
    ensures m * FloorPow2(len) == (2 * m) * FloorPow2(len / 2)
  {
    MoveTwo(m, FloorPow2(len / 2), FloorPow2(len));
  }

  /**
    `crc32c_zeros_op`: the operator for `length` zero bytes when `length` is a power of
    two; in general for the largest power of two below it, and for one byte when it is 0.
   */
  method ZerosOp(even: array<uint32>, length: nat)
    requires even.Length == 32
    modifies even
    ensures Operator(even[..], 8 * FloorPow2(length))
  {
    hide Operator, FloorPow2;
    FloorSmall();
    var odd := new uint32[32];
    OneBit(odd);
    MatrixSquare(even, odd, 1);
    MatrixSquare(odd, even, 2);
    var len := length;
    ghost var m: nat := 1;
    while true
      invariant Operator(odd[..], 4 * m)
      invariant m * FloorPow2(len) == FloorPow2(length)
      decreases len
    {
      MatrixSquare(even, odd, 4 * m);
      if len >= 2 { ScaleFloor(m, len); }
      len := len / 2;
      if len == 0 {
        return;
      }
      MatrixSquare(odd, even, 8 * m);
      if len >= 2 { ScaleFloor(2 * m, len); }
      len := len / 2;
      m := 4 * m;
      if len == 0 {
        break;
      }
    }
    ghost var answer := odd[..];
    for n := 0 to 32
      invariant odd[..] == answer
      invariant forall i :: 0 <= i < n ==> even[i] == odd[i]
    {
      even[n] := odd[n];
    }
    assert even[..] == answer;
  }

  lemma FloorSmall()
    ensures FloorPow2(0) == FloorPow2(1) == 1
  {}

  // ------------------------------------------------------------------ shift tables

  /** The byte `n` in lane `k` of a word: `n << 8 * k`. */
  function Lane(n: byte, k: nat): uint32
    requires k < 4
  {
    match k
    case 0 => n
    case 1 => 0x100 * n
    case 2 => 0x1_0000 * n
    case 3 => 0x100_0000 * n
  }

  /** `zeros[k][n]` is the operator for `bits` zero bits applied to byte `n` in lane `k`. */
  ghost predicate ShiftTable(zeros: array2<uint32>, bits: nat)
    reads zeros
  {
    && zeros.Length0 == 4 && zeros.Length1 == 256
    && forall k, n :: 0 <= k < 4 && 0 <= n < 256 ==> zeros[k, n] == Advance(Lane(n, k), bits)
  }

  /** `crc32c_zeros` */
  method ZerosTables(zeros: array2<uint32>, len: nat)
    requires zeros.Length0 == 4 && zeros.Length1 == 256
    modifies zeros
    ensures ShiftTable(zeros, 8 * FloorPow2(len))
  {
    hide Advance, Times, Pow2, FloorPow2;
    var op := new uint32[32];
    ZerosOp(op, len);
    ghost var bits := 8 * FloorPow2(len);
    for n := 0 to 256
      invariant Operator(op[..], bits)
      invariant forall k, m :: 0 <= k < 4 && 0 <= m < n ==> zeros[k, m] == Advance(Lane(m, k), bits)
    {
      TimesIsAdvance(op[..], bits, Lane(n, 0));
      TimesIsAdvance(op[..], bits, Lane(n, 1));
      TimesIsAdvance(op[..], bits, Lane(n, 2));
      TimesIsAdvance(op[..], bits, Lane(n, 3));
      zeros[0, n] := MatrixTimes(op, n);
      zeros[1, n] := MatrixTimes(op, 0x100 * n);
      zeros[2, n] := MatrixTimes(op, 0x1_0000 * n);
      zeros[3, n] := MatrixTimes(op, 0x100_0000 * n);
    }
  }

  /** `Advance` distributes over a split of the register into low and high bits. */
  lemma AdvanceParts(lo: nat, hi: nat, k: nat, n: nat)
    requires lo < Pow2(k) && lo + Pow2(k) * hi < 0x1_0000_0000
    ensures Advance(lo + Pow2(k) * hi, n) == Xor32(Advance(lo, n), Advance(Pow2(k) * hi, n))
  {
    hide Xor, Advance, Pow2;
    SplitAt(lo, hi, k);
    AdvanceLinear(lo, Pow2(k) * hi, n);
  }

  lemma AdvanceLanes(b0: byte, b1: byte, b2: byte, b3: byte, n: nat)
    ensures Advance(b0 + 0x100 * b1 + 0x1_0000 * b2 + 0x100_0000 * b3, n) ==
            Xor32(Xor32(Xor32(Advance(Lane(b0, 0), n), Advance(Lane(b1, 1), n)),
                        Advance(Lane(b2, 2), n)), Advance(Lane(b3, 3), n))
  {
    hide Xor32, Advance, Pow2;
    Pow2Values();
    AdvanceParts(b0 + 0x100 * b1 + 0x1_0000 * b2, b3, 24, n);
    AdvanceParts(b0 + 0x100 * b1, b2, 16, n);
    AdvanceParts(b0, b1, 8, n);
  }

  lemma WordBytes(c: uint32)
    ensures c / 0x100_0000 < 256
    ensures c == c % 0x100 + 0x100 * (c / 0x100 % 0x100) + 0x1_0000 * (c / 0x1_0000 % 0x100)
                 + 0x100_0000 * (c / 0x100_0000)
  {
    assert c / 0x1_0000 == c / 0x100 / 0x100;
    assert c / 0x100_0000 == c / 0x100 / 0x100 / 0x100;
  }

  /** `crc32c_shift` applies exactly the operator its tables were built from. */
  method Shift(zeros: array2<uint32>, crc: uint32, ghost bits: nat) returns (r: uint32)
    requires ShiftTable(zeros, bits)
    ensures r == Advance(crc, bits)
  {
    hide Xor, Advance;
    WordBytes(crc);
    AdvanceLanes(crc % 0x100, crc / 0x100 % 0x100, crc / 0x1_0000 % 0x100, crc / 0x100_0000, bits);
    r := Xor32(Xor32(Xor32(zeros[0, crc % 0x100], zeros[1, crc / 0x100 % 0x100]),
                     zeros[2, crc / 0x1_0000 % 0x100]), zeros[3, crc / 0x100_0000]);
  }
}
