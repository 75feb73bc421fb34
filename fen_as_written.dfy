/**
 * The placement decoder of test/fen-parser.ts exactly as its JavaScript
 * evaluates: `1 << index` and `rankValue << (index * 8)` are 32-bit shifts
 * whose count is taken modulo 32. `FenParser.ParseRank` and
 * `FenParser.ParsePiece` are the corrected, 64-bit reading that the rest of
 * the model uses; this module shows where the two part.
 */
module FenParserAsWritten {
  import opened Bitboards
  import opened JsRuntime
  import opened FenParser

  /** Bit k of 2^i is set exactly when k == i. */
  lemma {:induction false} PowerBit(i: nat, k: nat)
    ensures Bit(Pow2(i), k) <==> k == i
    decreases i
  {
    if i > 0 {
      BitShiftDown(Pow2(i));
      assert Pow2(i) / 2 == Pow2(i - 1);
      if k > 0 {
        PowerBit(i - 1, k - 1);
      }
    } else if k > 0 {
      ZeroBit(k - 1);
    }
  }

  lemma {:induction false} PowerGrows(i: nat, j: nat)
    requires i <= j
    ensures Pow2(i) <= Pow2(j)
    decreases j
  {
    if i < j {
      PowerGrows(i, j - 1);
    }
  }

  lemma {:induction false} PowerAdd(a: nat, b: nat)
    ensures Pow2(a + b) == Pow2(a) * Pow2(b)
    decreases a
  {
    if a > 0 {
      PowerAdd(a - 1, b);
      assert Pow2(a + b) == 2 * Pow2(a - 1 + b);
    }
  }

  lemma PowerThirty()
    ensures Pow2(30) == 0x4000_0000
  {
    assert Pow2(10) == 1024;
    PowerAdd(10, 10);
    PowerAdd(20, 10);
  }

  lemma SmallInt32(v: int)
    requires 0 <= v < 0x8000_0000
    ensures ToInt32(v) == v
  {
  }

  /** Below 31, the 32-bit `1 << i` is the power of two the exact shift gives. */
  lemma SmallShift(i: nat)
    requires i < 31
    ensures JsShl(1, i) == Pow2(i)
  {
    assert i % 32 == i;
    SmallDoublings(i);
  }

  lemma {:induction false} SmallDoublings(i: nat)
    requires i < 31
    ensures Doublings(1, i) == Pow2(i)
    decreases i
  {
    if i > 0 {
      SmallDoublings(i - 1);
      PowerGrows(i, 30);
      PowerThirty();
      var v := 2 * Doublings(1, i - 1);
      assert v == Pow2(i);
      SmallInt32(v);
    }
  }

  /** Zero shifted stays zero. */
  lemma {:induction false} ZeroShift(k: nat)
    ensures Doublings(0, k) == 0
    decreases k
  {
    if k > 0 {
      ZeroShift(k - 1);
    }
  }

  /** The OR of a list that is zero outside one non-negative entry is that entry. */
  lemma OrAllSingle(ms: seq<int>, j: nat)
    requires j < |ms| && ms[j] >= 0
    requires forall i | 0 <= i < |ms| && i != j :: ms[i] == 0
    ensures OrAll(ms) == ms[j]
  {
    var r := OrAll(ms);
    assert r >= 0;
    forall k: nat ensures Bit(r, k) == Bit(ms[j], k) {
      ZeroBit(k);
      assert IntBit(r, k) <==> exists i | 0 <= i < |ms| :: IntBit(ms[i], k);
    }
    BitsDetermine(r, ms[j]);
  }

  /** `parseRank` as written: square f contributes the 32-bit `1 << f`. */
  function ParseRankJs(rank: seq<char>, piece: char): (r: int)
    requires |ExpandRank(rank)| >= 1
    ensures |ExpandRank(rank)| <= 31 ==> r == ParseRank(rank, piece)
  {
    var squares := ExpandRank(rank);
    var masks := seq(|squares|, i requires 0 <= i < |squares| => if squares[i] == piece then JsShl(1, i) else 0);
    var r := OrAll(masks);
    SmallRanksAgree(rank, piece, masks, r);
    r
  }

  /** On ranks of at most 31 squares the 32-bit masks are the exact ones. */
  lemma SmallRanksAgree(rank: seq<char>, piece: char, masks: seq<int>, r: int)
    requires |ExpandRank(rank)| >= 1 && |masks| == |ExpandRank(rank)|
    requires forall i | 0 <= i < |masks| ::
      masks[i] == if ExpandRank(rank)[i] == piece then JsShl(1, i) else 0
    requires r == OrAll(masks)
    ensures |ExpandRank(rank)| <= 31 ==> r == ParseRank(rank, piece)
  {
    var squares := ExpandRank(rank);
    if |squares| <= 31 {
      forall i | 0 <= i < |masks| ensures masks[i] == if squares[i] == piece then Pow2(i) else 0 {
        if squares[i] == piece {
          SmallShift(i);
        }
      }
      assert r >= 0;
      var e := ParseRank(rank, piece);
      forall k: nat ensures Bit(r, k) == Bit(e, k) {
        ZeroBit(k);
        assert IntBit(r, k) <==> exists i | 0 <= i < |masks| :: IntBit(masks[i], k);
        if Bit(r, k) {
          var i :| 0 <= i < |masks| && IntBit(masks[i], k);
          PowerBit(i, k);
        }
        if k < |squares| && squares[k] == piece {
          PowerBit(k, k);
          assert IntBit(masks[k], k);
        }
      }
      BitsDetermine(r, e);
    }
  }

  /**
   * `parsePiece` as written: token i is shifted by the 32-bit `<< (i * 8)`.
   * On ranks of at most eight squares it is the exact decoder as long as no
   * square from 31 on holds the letter, and it differs from it as soon as
   * one of squares 31 to 63 does.
   */
  function ParsePieceJs(board: seq<char>, piece: char): (r: int)
    requires RanksNonEmpty(board)
    ensures RanksFit(board) && BelowSignBit(Split(board, '/'), piece) ==> r == ParsePiece(board, piece)
    ensures (exists k: nat | 31 <= k < 64 :: Occupied(Split(board, '/'), piece, k)) ==> r != ParsePiece(board, piece)
  {
    var ranks := Split(board, '/');
    var r := OrAll(ShiftedRanksJs(ranks, piece));
    JsAgrees(ranks, piece);
    JsDiffers(board, piece);
    r
  }

  /** No square from 31 on holds the letter. */
  ghost predicate BelowSignBit(ranks: seq<seq<char>>, piece: char)
  {
    forall k: nat | 31 <= k :: !Occupied(ranks, piece, k)
  }

  /** Below the sign bit, every 32-bit shifted token is the exact one. */
  lemma JsAgrees(ranks: seq<seq<char>>, piece: char)
    requires |ranks| >= 1
    requires forall i | 0 <= i < |ranks| :: |ExpandRank(ranks[i])| >= 1
    ensures (forall i | 0 <= i < |ranks| :: |ExpandRank(ranks[i])| <= 8) && BelowSignBit(ranks, piece) ==>
      OrAll(ShiftedRanksJs(ranks, piece)) == OrAll(ShiftedRanks(ranks, piece))
  {
    if (forall i | 0 <= i < |ranks| :: |ExpandRank(ranks[i])| <= 8) && BelowSignBit(ranks, piece) {
      var js := ShiftedRanksJs(ranks, piece);
      var exact := ShiftedRanks(ranks, piece);
      forall i | 0 <= i < |ranks| ensures js[i] == exact[i] {
        ShiftedAgree(ranks, piece, i);
      }
      assert js == exact;
    }
  }

  lemma ShiftedAgree(ranks: seq<seq<char>>, piece: char, i: nat)
    requires i < |ranks| && 1 <= |ExpandRank(ranks[i])| <= 8
    requires BelowSignBit(ranks, piece)
    ensures JsShl(ParseRankJs(ranks[i], piece), 8 * i) == ShiftedRank(ranks, piece, i)
  {
    var n := 8 * i;
    RankBelow(ranks, piece, i, if n < 31 then 31 - n else 0);
    ShiftValueAgrees(ParseRank(ranks[i], piece), n);
  }

  /** A value that the shift by n keeps below 2^31 shifts the same either way. */
  lemma ShiftValueAgrees(v: nat, n: nat)
    requires v < Pow2(if n < 31 then 31 - n else 0)
    ensures JsShl(v, n) == Shl64(v, n)
  {
    if n < 31 {
      PowerAdd(31 - n, n);
      PowerThirtyOne();
      Monotone(v, Pow2(31 - n), Pow2(n));
      ExactShift(v, n);
    } else {
      assert v == 0;
      ZeroShifts(n);
    }
  }

  /** The rank value of token i has no bit at or above m when square 8 * i + m on is free. */
  lemma RankBelow(ranks: seq<seq<char>>, piece: char, i: nat, m: nat)
    requires i < |ranks| && |ExpandRank(ranks[i])| >= 1
    requires 8 * i + m >= 31 && BelowSignBit(ranks, piece)
    ensures ParseRank(ranks[i], piece) < Pow2(m)
  {
    var v := ParseRank(ranks[i], piece);
    forall f: nat | Bit(v, f) ensures f < m {
      assert RankHolds(ranks, piece, i, 8 * i + f);
      assert Occupied(ranks, piece, 8 * i + f);
    }
    BitsBelow(v, m);
  }

  /** Below 2^31, the 32-bit shift is the exact 64-bit one. */
  lemma ExactShift(v: nat, n: nat)
    requires n < 32 && v * Pow2(n) < 0x8000_0000
    ensures JsShl(v, n) == Shl64(v, n)
  {
    assert n % 32 == n;
    ExactDoublings(v, n);
    ShiftLeftExact(v, n);
    PowerThirtyOne();
    PowerGrows(31, 64);
    LowIdentity(v * Pow2(n), 64);
  }

  /** Zero shifted either way is zero. */
  lemma ZeroShifts(n: nat)
    ensures JsShl(0, n) == Shl64(0, n) == 0
  {
    ZeroShift(n % 32);
    var e := Shl64(0, n);
    forall k: nat ensures Bit(e, k) == Bit(0, k) {
      ZeroBit(k);
      if n <= k {
        ZeroBit(k - n);
      }
    }
    BitsDetermine(e, 0);
  }

  lemma Monotone(v: nat, p: nat, q: nat)
    requires v < p
    ensures v * q <= p * q - q
  {
    assert (p - 1 - v) * q >= 0;
    assert (p - 1 - v) * q == p * q - q - v * q;
  }

  /** A number whose bits all lie below m is below 2^m. */
  lemma BitsBelow(v: nat, m: nat)
    requires forall k: nat :: Bit(v, k) ==> k < m
    ensures v < Pow2(m)
  {
    BitsDetermine(v, Low(v, m));
  }

  /** Low bits of a number already below 2^m are the number itself. */
  lemma LowIdentity(y: nat, m: nat)
    requires y < Pow2(m)
    ensures Low(y, m) == y
  {
    forall k: nat ensures Bit(Low(y, m), k) == Bit(y, k) {
      if m <= k {
        HighBitsClear(y, m, k);
      }
    }
    BitsDetermine(Low(y, m), y);
  }

  lemma {:induction false} ShiftLeftExact(x: nat, n: nat)
    ensures ShiftLeft(x, n) == x * Pow2(n)
    decreases n
  {
    if n > 0 {
      ShiftLeftExact(x, n - 1);
      TimesDouble(x, Pow2(n - 1));
    }
  }

  /** While the product stays below 2^31, the 32-bit doublings lose nothing. */
  lemma ExactDoublings(x: nat, k: nat)
    requires x * Pow2(k) < 0x8000_0000
    ensures Doublings(x, k) == x * Pow2(k)
  {
    DoublingsCongruent(x, k);
    CongruentInRange(Doublings(x, k), x * Pow2(k));
  }

  /** Two values congruent modulo 2^32, one signed and one non-negative 32-bit, are equal. */
  lemma CongruentInRange(a: int, b: int)
    requires -0x8000_0000 <= a < 0x8000_0000 && 0 <= b < 0x8000_0000
    requires (a - b) % 0x1_0000_0000 == 0
    ensures a == b
  {
    var d := a - b;
    assert d == 0x1_0000_0000 * (d / 0x1_0000_0000);
  }

  /**
   * A letter on one of squares 31 to 63 sets a bit of the exact bitboard
   * that no 32-bit shifted token can give back: the shifted tokens are
   * either non-negative and below 2^31, or negative and then set bit 64.
   */
  lemma JsDiffers(board: seq<char>, piece: char)
    requires RanksNonEmpty(board)
    ensures (exists k: nat | 31 <= k < 64 :: Occupied(Split(board, '/'), piece, k)) ==>
      OrAll(ShiftedRanksJs(Split(board, '/'), piece)) != ParsePiece(board, piece)
  {
    var ranks := Split(board, '/');
    if exists k: nat | 31 <= k < 64 :: Occupied(ranks, piece, k) {
      var k: nat :| 31 <= k < 64 && Occupied(ranks, piece, k);
      var e := ParsePiece(board, piece);
      assert Bit(e, k);
      Int32OrMisses(ShiftedRanksJs(ranks, piece), e, k);
    }
  }

  /** The OR of 32-bit integers is not a number below 2^64 with a bit from 31 on. */
  lemma Int32OrMisses(ms: seq<int>, e: nat, k: nat)
    requires |ms| >= 1
    requires forall i | 0 <= i < |ms| :: -0x8000_0000 <= ms[i] < 0x8000_0000
    requires 31 <= k < 64 && e < Pow2(64) && Bit(e, k)
    ensures OrAll(ms) != e
  {
    PowerThirtyOne();
    if exists i | 0 <= i < |ms| :: ms[i] < 0 {
      var i :| 0 <= i < |ms| && ms[i] < 0;
      NegativeSetsBit64(ms[i]);
      HighBitsClear(e, 64, 64);
      assert IntBit(OrAll(ms), 64) != IntBit(e, 64);
    } else {
      forall i | 0 <= i < |ms| ensures !IntBit(ms[i], k) {
        HighBitsClear(ms[i], 31, k);
      }
      assert IntBit(OrAll(ms), k) != IntBit(e, k);
    }
  }

  /** A negative 32-bit integer sets bit 64 of its two's complement form. */
  lemma NegativeSetsBit64(x: int)
    requires -0x8000_0000 <= x < 0
    ensures IntBit(x, 64)
  {
    PowerThirtyOne();
    HighBitsClear(-1 - x, 31, 64);
  }

  /** Every token parsed as written and shifted by the 32-bit `<< (i * 8)`. */
  function ShiftedRanksJs(ranks: seq<seq<char>>, piece: char): (ms: seq<int>)
    requires forall i | 0 <= i < |ranks| :: |ExpandRank(ranks[i])| >= 1
    ensures |ms| == |ranks|
    ensures forall i | 0 <= i < |ms| :: ms[i] == JsShl(ParseRankJs(ranks[i], piece), 8 * i)
  {
    seq(|ranks|, i requires 0 <= i < |ranks| => JsShl(ParseRankJs(ranks[i], piece), 8 * i))
  }

  /** The 32-bit shift by 8 * (i + 4) is the shift by 8 * i: ranks four apart collide. */
  lemma ShiftCountWraps(x: int, i: nat)
    ensures JsShl(x, 8 * (i + 4)) == JsShl(x, 8 * i)
  {
    assert (8 * (i + 4)) % 32 == (8 * i) % 32;
  }

  /**
   * "p7" holds a pawn on its first square only; "8" holds none.
   * The letter is a parameter fixed by `requires`, not a literal in the
   * body, so that the solver does not evaluate the literals unprompted.
   */
  lemma PawnRanks(piece: char)
    requires piece == 'p'
    ensures ParseRankJs("p7", piece) == 1 && ParseRankJs("8", piece) == 0
  {
    assert ExpandRank("8") == "        ";
    assert ExpandRank("p7") == "p       ";
    var one := seq(8, i requires 0 <= i < 8 => if "p       "[i] == piece then JsShl(1, i) else 0);
    assert JsShl(1, 0) == 1;
    OrAllSingle(one, 0);
    var none := seq(8, i requires 0 <= i < 8 => if "        "[i] == piece then JsShl(1, i) else 0);
    OrAllSingle(none, 0);
  }

  /** Shifting the value of token i of a lone-pawn board (1 at `at`, else 0) by 8 * i. */
  lemma TokenShift(i: nat, at: nat)
    requires i < 8 && at in {0, 4}
    ensures JsShl(if i == at then 1 else 0, 8 * i) == if i == at then 1 else 0
  {
    if i == at {
      assert (8 * i) % 32 == 0;
    } else {
      ZeroShift((8 * i) % 32);
    }
  }

  /** A pawn alone on the first square of token `at` (0 or 4) of eight. */
  predicate LonePawn(ranks: seq<seq<char>>, at: nat)
  {
    |ranks| == 8 && at < 8 && ranks[at] == "p7" && forall i | 0 <= i < 8 && i != at :: ranks[i] == "8"
  }

  lemma LonePawnShape(ranks: seq<seq<char>>, at: nat)
    requires LonePawn(ranks, at)
    ensures EightRanks(ranks)
    ensures RanksNonEmpty(Join(ranks, '/'))
    ensures Split(Join(ranks, '/'), '/') == ranks
  {
    assert ExpandRank("8") == "        ";
    assert ExpandRank("p7") == "p       ";
    SplitJoin(ranks, '/');
    RankByRank(ranks, 'p', 0);
  }

  /** As written, the lone pawn of token 0 and of token 4 give the same bitboard, 1. */
  lemma LonePawnJs(ranks: seq<seq<char>>, at: nat)
    requires LonePawn(ranks, at) && at in {0, 4}
    ensures RanksNonEmpty(Join(ranks, '/'))
    ensures ParsePieceJs(Join(ranks, '/'), 'p') == 1
  {
    LonePawnShape(ranks, at);
    var shifted := ShiftedRanksJs(ranks, 'p');
    forall i | 0 <= i < 8 ensures shifted[i] == if i == at then 1 else 0 {
      LoneToken(ranks, at, i);
    }
    OrAllSingle(shifted, at);
  }

  lemma LoneToken(ranks: seq<seq<char>>, at: nat, i: nat)
    requires LonePawn(ranks, at) && at in {0, 4} && i < 8
    ensures |ExpandRank(ranks[i])| >= 1
    ensures JsShl(ParseRankJs(ranks[i], 'p'), 8 * i) == if i == at then 1 else 0
  {
    PawnRanks('p');
    assert ranks[i] == if i == at then "p7" else "8";
    TokenShift(i, at);
  }

  /** Exactly, the lone pawn of token `at` sets bit 8 * at and not bit 0 unless at == 0. */
  lemma LonePawnExact(ranks: seq<seq<char>>, at: nat, k: nat)
    requires LonePawn(ranks, at)
    ensures RanksNonEmpty(Join(ranks, '/'))
    ensures Bit(ParsePiece(Join(ranks, '/'), 'p'), k) <==> k == 8 * at
  {
    LonePawnShape(ranks, at);
    RankByRank(ranks, 'p', k);
    if k < 64 && k / 8 != at {
      assert ranks[k / 8] == "8";
    }
  }

  /**
   * The discrepancy, on "p7/8/8/8/8/8/8/8" and "8/8/8/8/p7/8/8/8": as
   * written both decode to 1, while the exact decoder puts the second pawn
   * on bit 32.
   */
  lemma RankFourAliasesRankZero(a: seq<seq<char>>, b: seq<seq<char>>)
    requires LonePawn(a, 0) && LonePawn(b, 4)
    ensures RanksNonEmpty(Join(a, '/')) && RanksNonEmpty(Join(b, '/'))
    ensures ParsePieceJs(Join(a, '/'), 'p') == ParsePieceJs(Join(b, '/'), 'p') == 1
    ensures ParsePiece(Join(a, '/'), 'p') != ParsePiece(Join(b, '/'), 'p')
    ensures Bit(ParsePiece(Join(b, '/'), 'p'), 32) && !Bit(ParsePiece(Join(b, '/'), 'p'), 0)
  {
    LonePawnJs(a, 0);
    LonePawnJs(b, 4);
    LonePawnExact(a, 0, 0);
    LonePawnExact(b, 4, 0);
    LonePawnExact(b, 4, 32);
  }

  /** A 32-bit value congruent to 2^31 modulo 2^32 is -2^31. */
  lemma WrapsToMinimum(r: int)
    requires -0x8000_0000 <= r < 0x8000_0000
    requires (r - 0x8000_0000) % 0x1_0000_0000 == 0
    ensures r == -0x8000_0000
  {
    var d := r - 0x8000_0000;
    assert d == 0x1_0000_0000 * (d / 0x1_0000_0000);
  }

  /**
   * "7p" holds a pawn on its last square only, in either decoder: mask 128.
   * The letter is a parameter fixed by `requires`, not a literal in the
   * body, so that the solver does not evaluate the literals unprompted.
   */
  lemma LastSquarePawn(piece: char)
    requires piece == 'p'
    ensures |ExpandRank("7p")| == 8
    ensures ParseRankJs("7p", piece) == ParseRank("7p", piece) == 128
  {
    assert ExpandRank("7p") == "       p";
    var masks := seq(8, i requires 0 <= i < 8 => if "       p"[i] == piece then JsShl(1, i) else 0);
    SmallShift(7);
    assert Pow2(7) == 128;
    OrAllSingle(masks, 7);
  }

  /** 2^7 shifted by 24 is 2^31. */
  lemma PowerThirtyOne()
    ensures Pow2(7) * Pow2(24) == Pow2(31) == 0x8000_0000
  {
    PowerAdd(7, 24);
    PowerThirty();
  }

  /**
   * As written, 128 << 24 lands on the 32-bit sign bit: -2^31. The operands
   * are parameters fixed by `requires`, not literals in the body, so that
   * the solver does not evaluate the literals unprompted.
   */
  lemma ShiftIntoSign(x: int, n: nat)
    requires x == 128 && n == 24
    ensures JsShl(x, n) == -0x8000_0000
  {
    PowerThirtyOne();
    assert Pow2(7) == 128;
    JsShlCongruent(x, n);
    assert n % 32 == 24;
    assert x * Pow2(n % 32) == 0x8000_0000;
    WrapsToMinimum(JsShl(x, n));
  }

  /** Exactly, 128 shifted by 24 is 2^31. */
  lemma ExactShiftBelowSign()
    ensures Shl64(128, 24) == Pow2(31)
  {
    assert Pow2(7) == 128;
    var exact := Shl64(Pow2(7), 24);
    forall k: nat ensures Bit(exact, k) == Bit(Pow2(31), k) {
      if k >= 24 {
        PowerBit(7, k - 24);
      }
      PowerBit(31, k);
    }
    BitsDetermine(exact, Pow2(31));
  }

  /**
   * Token 3 = "7p" holds a pawn on its last square. As written its mask
   * 128, shifted by 24, lands on the 32-bit sign bit and turns negative;
   * exactly, it is bit 31 of a non-negative bitboard.
   * The letter is a parameter fixed by `requires`, not a literal in the
   * body, so that the solver does not evaluate the literals unprompted.
   */
  lemma SignBitShift(piece: char)
    requires piece == 'p'
    ensures |ExpandRank("7p")| == 8
    ensures JsShl(ParseRankJs("7p", piece), 8 * 3) == -0x8000_0000
    ensures Shl64(ParseRank("7p", piece), 8 * 3) == Pow2(31)
  {
    LastSquarePawn(piece);
    ShiftIntoSign(ParseRankJs("7p", piece), 8 * 3);
    ExactShiftBelowSign();
  }
}
