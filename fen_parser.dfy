/**
 * The FEN decoder of test/fen-parser.ts (class FenParser and its helper
 * i64or): a six-field Forsyth-Edwards Notation string decoded into twelve
 * bitboards, castling rights, the side to move, the en-passant square and
 * the two move counters.
 *
 * Bitboards are exact unsigned 64-bit values. The source shifts with the
 * 32-bit JavaScript `<<`; module FenParserAsWritten models that form and
 * shows where it parts from this one (tokens at index 4 and beyond wrap
 * around, and a piece on the last square of token 3 lands on the sign bit).
 */
module FenParser {
  import opened Bitboards
  import opened JsRuntime
  import Lib

  datatype PiecePlacement = PiecePlacement(pawn: nat, knight: nat, bishop: nat, rook: nat, queen: nat, king: nat)

  datatype Castling = Castling(kingside: bool, queenside: bool)

  datatype Colour = Colour(piecePlacement: PiecePlacement, castling: Castling)

  datatype Board = Board(
    white: Colour,
    black: Colour,
    active: seq<char>,
    enPassant: Option<nat>,
    fiftyMoveRule: nat,
    move: nat)

  /**
   * `squareMap` from src/squares.ts, which is not part of this model: any
   * map from square names to square values.
   */
  type SquareMap = map<seq<char>, nat>

  /** `i64or`: OR through BigInt, exact on integers of any size. */
  function I64Or(a: int, b: int): (r: int)
    ensures forall k: nat :: IntBit(r, k) <==> IntBit(a, k) || IntBit(b, k)
    ensures a >= 0 && b >= 0 ==> r >= 0
  {
    BigIntOr(a, b)
  }

  lemma I64OrBound(a: int, b: int)
    ensures 0 <= a < Pow2(64) && 0 <= b < Pow2(64) ==> I64Or(a, b) < Pow2(64)
  {
    if 0 <= a < Pow2(64) && 0 <= b < Pow2(64) {
      OrBound(a, b, 64);
    }
  }

  /** `.reduce((a, b) => i64or(a, b))`: OR of a non-empty list, from the left. */
  function OrAll(ms: seq<int>): (r: int)
    requires |ms| >= 1
    ensures forall k: nat :: IntBit(r, k) <==> exists i | 0 <= i < |ms| :: IntBit(ms[i], k)
    ensures (forall i | 0 <= i < |ms| :: ms[i] >= 0) ==> r >= 0
    ensures (forall i | 0 <= i < |ms| :: 0 <= ms[i] < Pow2(64)) ==> r < Pow2(64)
    decreases |ms|
  {
    if |ms| == 1 then ms[0]
    else
      var init := ms[..|ms| - 1];
      var acc := OrAll(init);
      var last := ms[|ms| - 1];
      PrefixBounds(ms, init);
      I64OrBound(acc, last);
      var r := I64Or(acc, last);
      forall k: nat ensures IntBit(r, k) <==> exists i | 0 <= i < |ms| :: IntBit(ms[i], k) {
        OrStep(ms, init, acc, k);
      }
      r
  }

  /** Bounds on every entry of a list hold on every entry of its prefix. */
  lemma PrefixBounds(ms: seq<int>, init: seq<int>)
    requires |ms| >= 1 && init == ms[..|ms| - 1]
    ensures (forall i | 0 <= i < |ms| :: ms[i] >= 0) ==> forall i | 0 <= i < |init| :: init[i] >= 0
    ensures (forall i | 0 <= i < |ms| :: 0 <= ms[i] < Pow2(64)) ==>
      forall i | 0 <= i < |init| :: 0 <= init[i] < Pow2(64)
  {
  }

  /** ORing the last entry into the OR of the others sets the bits of some entry. */
  lemma OrStep(ms: seq<int>, init: seq<int>, acc: int, k: nat)
    requires |ms| >= 1 && init == ms[..|ms| - 1]
    requires IntBit(acc, k) <==> exists i | 0 <= i < |init| :: IntBit(init[i], k)
    ensures IntBit(I64Or(acc, ms[|ms| - 1]), k) <==> exists i | 0 <= i < |ms| :: IntBit(ms[i], k)
  {
    if exists i | 0 <= i < |ms| :: IntBit(ms[i], k) {
      var i :| 0 <= i < |ms| && IntBit(ms[i], k);
      if i < |init| {
        assert IntBit(init[i], k);
      }
    }
    if IntBit(acc, k) {
      var i :| 0 <= i < |init| && IntBit(init[i], k);
      assert IntBit(ms[i], k);
    }
  }

  function Spaces(n: nat): (s: seq<char>)
    ensures |s| == n && forall i | 0 <= i < n :: s[i] == ' '
  {
    seq(n, _ => ' ')
  }

  /** One character of a rank: a digit d stands for d empty squares. */
  function ExpandSquare(c: char): (s: seq<char>)
  {
    if IsDigit(c) then Spaces(DigitValue(c)) else [c]
  }

  /** `expandRank`: every digit replaced by that many spaces. */
  function ExpandRank(rank: seq<char>): (r: seq<char>)
    ensures forall i | 0 <= i < |r| :: !IsDigit(r[i])
    decreases |rank|
  {
    if rank == [] then [] else ExpandSquare(rank[0]) + ExpandRank(rank[1..])
  }

  /** A rank without digits is its own expansion. */
  lemma {:induction false} ExpandLetters(rank: seq<char>)
    requires forall i | 0 <= i < |rank| :: !IsDigit(rank[i])
    ensures ExpandRank(rank) == rank
    decreases |rank|
  {
    if rank != [] {
      ExpandLetters(rank[1..]);
      assert rank == [rank[0]] + rank[1..];
    }
  }

  /** A single digit d expands to d empty squares. */
  lemma DigitToken(t: seq<char>)
    requires |t| == 1 && IsDigit(t[0])
    ensures ExpandRank(t) == Spaces(DigitValue(t[0]))
  {
    assert t[1..] == [];
  }

  /** The sum of the digits of a rank. */
  function DigitSum(rank: seq<char>): (n: nat)
    decreases |rank|
  {
    if rank == [] then 0
    else (if IsDigit(rank[0]) then DigitValue(rank[0]) else 0) + DigitSum(rank[1..])
  }

  /** The number of characters of a rank that are not digits. */
  function NonDigitCount(rank: seq<char>): (n: nat)
    decreases |rank|
  {
    if rank == [] then 0 else (if IsDigit(rank[0]) then 0 else 1) + NonDigitCount(rank[1..])
  }

  /** The characters of s other than digits and spaces, in order. */
  function Letters(s: seq<char>): (r: seq<char>)
    decreases |s|
  {
    if s == [] then []
    else (if IsDigit(s[0]) || s[0] == ' ' then [] else [s[0]]) + Letters(s[1..])
  }

  /** An expanded rank is as long as its digits add up to, plus one per other character. */
  lemma {:induction false} ExpandRankLength(rank: seq<char>)
    ensures |ExpandRank(rank)| == DigitSum(rank) + NonDigitCount(rank)
    decreases |rank|
  {
    if rank != [] {
      ExpandRankLength(rank[1..]);
    }
  }

  lemma {:induction false} LettersAppend(a: seq<char>, b: seq<char>)
    ensures Letters(a + b) == Letters(a) + Letters(b)
    decreases |a|
  {
    if a == [] {
      assert a + b == b;
    } else {
      assert (a + b)[1..] == a[1..] + b;
      LettersAppend(a[1..], b);
    }
  }

  lemma {:induction false} LettersOfSpaces(n: nat)
    ensures Letters(Spaces(n)) == []
  {
    if n > 0 {
      assert Spaces(n)[1..] == Spaces(n - 1);
      LettersOfSpaces(n - 1);
    }
  }

  /** Expansion keeps every non-digit, non-space character, in order, and adds none. */
  lemma {:induction false} ExpandKeepsLetters(rank: seq<char>)
    ensures Letters(ExpandRank(rank)) == Letters(rank)
    decreases |rank|
  {
    if rank != [] {
      ExpandKeepsLetters(rank[1..]);
      LettersAppend(ExpandSquare(rank[0]), ExpandRank(rank[1..]));
      if IsDigit(rank[0]) {
        LettersOfSpaces(DigitValue(rank[0]));
      } else {
        assert [rank[0]][1..] == [];
      }
    }
  }

  /** Expansion works character by character. */
  lemma {:induction false} ExpandAppend(a: seq<char>, b: seq<char>)
    ensures ExpandRank(a + b) == ExpandRank(a) + ExpandRank(b)
    decreases |a|
  {
    if a == [] {
      assert a + b == b;
    } else {
      assert (a + b)[1..] == a[1..] + b;
      ExpandAppend(a[1..], b);
    }
  }

  /** `parseRank`: bit f is set when square f of the expanded rank holds the letter. */
  function ParseRank(rank: seq<char>, piece: char): (r: nat)
    requires |ExpandRank(rank)| >= 1
    ensures r < Pow2(64)
    ensures forall k: nat :: Bit(r, k) <==> k < 64 && k < |ExpandRank(rank)| && ExpandRank(rank)[k] == piece
  {
    var squares := ExpandRank(rank);
    var masks := SquareMasks(squares, piece);
    SquareMasksBound(squares, piece);
    var r := OrAll(masks);
    forall k: nat ensures Bit(r, k) <==> k < 64 && k < |squares| && squares[k] == piece {
      SquareMasksBits(squares, piece, k);
      if k < |masks| {
        assert IntBit(masks[k], k) <==> k < 64 && squares[k] == piece;
      }
    }
    r
  }

  /** The masks of every square, the list `parseRank` reduces. */
  function SquareMasks(squares: seq<char>, piece: char): (ms: seq<int>)
    ensures |ms| == |squares|
    ensures forall i | 0 <= i < |ms| :: ms[i] == SquareMask(squares, piece, i)
  {
    seq(|squares|, i requires 0 <= i < |squares| => SquareMask(squares, piece, i))
  }

  lemma SquareMasksBound(squares: seq<char>, piece: char)
    ensures forall i | 0 <= i < |squares| :: 0 <= SquareMasks(squares, piece)[i] < Pow2(64)
  {
    forall i | 0 <= i < |squares| ensures 0 <= SquareMasks(squares, piece)[i] < Pow2(64) {
      SquareMaskBit(squares, piece, i, 0);
    }
  }

  lemma SquareMasksBits(squares: seq<char>, piece: char, k: nat)
    ensures forall i | 0 <= i < |squares| ::
      IntBit(SquareMasks(squares, piece)[i], k) <==> i == k && k < 64 && squares[i] == piece
  {
    forall i | 0 <= i < |squares|
      ensures IntBit(SquareMasks(squares, piece)[i], k) <==> i == k && k < 64 && squares[i] == piece
    {
      SquareMaskBit(squares, piece, i, k);
    }
  }

  /** `1 << index` for a square holding the letter, 0 for any other. */
  function SquareMask(squares: seq<char>, piece: char, i: nat): (m: nat)
    requires i < |squares|
  {
    if squares[i] == piece then Shl64(1, i) else 0
  }

  lemma SquareMaskBit(squares: seq<char>, piece: char, i: nat, k: nat)
    requires i < |squares|
    ensures SquareMask(squares, piece, i) < Pow2(64)
    ensures Bit(SquareMask(squares, piece, i), k) <==> i == k && k < 64 && squares[i] == piece
  {
    ZeroHasNoBits();
    assert Bit(1, 0);
    if i < k {
      OneBit(k - i);
    }
  }

  lemma OneBit(k: nat)
    requires k > 0
    ensures !Bit(1, k)
  {
    ZeroBit(k - 1);
  }

  /** Every '/'-token of the placement expands to at least one square. */
  predicate RanksNonEmpty(board: seq<char>)
  {
    var ranks := Split(board, '/');
    forall i | 0 <= i < |ranks| :: |ExpandRank(ranks[i])| >= 1
  }

  /** Token i, expanded, holds the letter at square k - 8 * i. */
  predicate RankHolds(ranks: seq<seq<char>>, piece: char, i: nat, k: nat)
    requires i < |ranks|
  {
    8 * i <= k && k - 8 * i < |ExpandRank(ranks[i])| && ExpandRank(ranks[i])[k - 8 * i] == piece
  }

  /** Square k is 8 * i + f where token i, expanded, holds the letter at f. */
  predicate Occupied(ranks: seq<seq<char>>, piece: char, k: nat)
  {
    exists i | 0 <= i < |ranks| :: RankHolds(ranks, piece, i, k)
  }

  /** `parsePiece`: token i of the placement, parsed, shifted by 8 * i and ORed in. */
  function ParsePiece(board: seq<char>, piece: char): (r: nat)
    requires RanksNonEmpty(board)
    ensures r < Pow2(64)
    ensures forall k: nat :: Bit(r, k) <==> k < 64 && Occupied(Split(board, '/'), piece, k)
  {
    var ranks := Split(board, '/');
    ShiftedRanksFacts(ranks, piece);
    OrAll(ShiftedRanks(ranks, piece))
  }

  lemma ShiftedRanksFacts(ranks: seq<seq<char>>, piece: char)
    requires |ranks| >= 1
    requires forall i | 0 <= i < |ranks| :: |ExpandRank(ranks[i])| >= 1
    ensures 0 <= OrAll(ShiftedRanks(ranks, piece)) < Pow2(64)
    ensures forall k: nat :: Bit(OrAll(ShiftedRanks(ranks, piece)), k) <==> k < 64 && Occupied(ranks, piece, k)
  {
    ShiftedRanksBound(ranks, piece);
    var r := OrAll(ShiftedRanks(ranks, piece));
    forall k: nat ensures Bit(r, k) <==> k < 64 && Occupied(ranks, piece, k) {
      ShiftedRanksOr(ranks, piece, k);
    }
  }

  lemma ShiftedRanksOr(ranks: seq<seq<char>>, piece: char, k: nat)
    requires |ranks| >= 1
    requires forall i | 0 <= i < |ranks| :: |ExpandRank(ranks[i])| >= 1
    ensures IntBit(OrAll(ShiftedRanks(ranks, piece)), k) <==> k < 64 && Occupied(ranks, piece, k)
  {
    var shifted := ShiftedRanks(ranks, piece);
    ShiftedRanksBits(ranks, piece, k);
    if exists i | 0 <= i < |shifted| :: IntBit(shifted[i], k) {
      var i :| 0 <= i < |shifted| && IntBit(shifted[i], k);
      assert RankHolds(ranks, piece, i, k);
    }
    if k < 64 && Occupied(ranks, piece, k) {
      var i :| 0 <= i < |ranks| && RankHolds(ranks, piece, i, k);
      assert IntBit(shifted[i], k);
    }
  }

  /** Every token parsed and shifted into place, the list `parsePiece` reduces. */
  function ShiftedRanks(ranks: seq<seq<char>>, piece: char): (ms: seq<int>)
    requires forall i | 0 <= i < |ranks| :: |ExpandRank(ranks[i])| >= 1
    ensures |ms| == |ranks|
    ensures forall i | 0 <= i < |ms| :: ms[i] == ShiftedRank(ranks, piece, i)
  {
    seq(|ranks|, i requires 0 <= i < |ranks| => ShiftedRank(ranks, piece, i))
  }

  lemma ShiftedRanksBound(ranks: seq<seq<char>>, piece: char)
    requires forall i | 0 <= i < |ranks| :: |ExpandRank(ranks[i])| >= 1
    ensures forall i | 0 <= i < |ranks| :: 0 <= ShiftedRanks(ranks, piece)[i] < Pow2(64)
  {
    forall i | 0 <= i < |ranks| ensures 0 <= ShiftedRanks(ranks, piece)[i] < Pow2(64) {
      ShiftedRankBit(ranks, piece, i, 0);
    }
  }

  lemma ShiftedRanksBits(ranks: seq<seq<char>>, piece: char, k: nat)
    requires forall i | 0 <= i < |ranks| :: |ExpandRank(ranks[i])| >= 1
    ensures forall i | 0 <= i < |ranks| ::
      IntBit(ShiftedRanks(ranks, piece)[i], k) <==> k < 64 && RankHolds(ranks, piece, i, k)
  {
    forall i | 0 <= i < |ranks|
      ensures IntBit(ShiftedRanks(ranks, piece)[i], k) <==> k < 64 && RankHolds(ranks, piece, i, k)
    {
      ShiftedRankBit(ranks, piece, i, k);
    }
  }

  /** `this.parseRank(rank, piece) << (index * 8)`, on 64 bits. */
  function ShiftedRank(ranks: seq<seq<char>>, piece: char, i: nat): (m: nat)
    requires i < |ranks| && |ExpandRank(ranks[i])| >= 1
  {
    Shl64(ParseRank(ranks[i], piece), 8 * i)
  }

  lemma ShiftedRankBit(ranks: seq<seq<char>>, piece: char, i: nat, k: nat)
    requires i < |ranks| && |ExpandRank(ranks[i])| >= 1
    ensures ShiftedRank(ranks, piece, i) < Pow2(64)
    ensures Bit(ShiftedRank(ranks, piece, i), k) <==> k < 64 && RankHolds(ranks, piece, i, k)
  {
  }

  /** Every token of the placement expands to between one and eight squares. */
  predicate RanksFit(board: seq<char>)
  {
    var ranks := Split(board, '/');
    forall i | 0 <= i < |ranks| :: 1 <= |ExpandRank(ranks[i])| <= 8
  }

  /**
   * When no token overflows its eight squares, bit 8 * i + f is set exactly
   * when token i, expanded, holds the letter at square f.
   */
  lemma PlacementSquare(board: seq<char>, piece: char, i: nat, f: nat)
    requires RanksFit(board)
    requires i < 8 && f < 8
    ensures Bit(ParsePiece(board, piece), 8 * i + f) <==>
      var ranks := Split(board, '/');
      i < |ranks| && f < |ExpandRank(ranks[i])| && ExpandRank(ranks[i])[f] == piece
  {
    var ranks := Split(board, '/');
    var k := 8 * i + f;
    assert Bit(ParsePiece(board, piece), k) <==> Occupied(ranks, piece, k);
    if Occupied(ranks, piece, k) {
      var j :| 0 <= j < |ranks| && RankHolds(ranks, piece, j, k);
      assert |ExpandRank(ranks[j])| <= 8;
      assert j == i;
    }
    if i < |ranks| && f < |ExpandRank(ranks[i])| && ExpandRank(ranks[i])[f] == piece {
      assert RankHolds(ranks, piece, i, k);
    }
  }

  /**
   * Eight tokens without '/' or ' ', each expanding to at least one square
   * and all but the last to at most eight (the tests' "9" is a last rank).
   */
  predicate EightRanks(ranks: seq<seq<char>>)
  {
    && |ranks| == 8
    && (forall i | 0 <= i < 8 :: '/' !in ranks[i] && ' ' !in ranks[i] && |ExpandRank(ranks[i])| >= 1)
    && (forall i | 0 <= i < 7 :: |ExpandRank(ranks[i])| <= 8)
  }

  /** Of such a placement, bit k is square k % 8 of rank k / 8. */
  lemma RankByRank(ranks: seq<seq<char>>, piece: char, k: nat)
    requires EightRanks(ranks)
    ensures RanksNonEmpty(Join(ranks, '/'))
    ensures Bit(ParsePiece(Join(ranks, '/'), piece), k) <==>
      k < 64 && k % 8 < |ExpandRank(ranks[k / 8])| && ExpandRank(ranks[k / 8])[k % 8] == piece
  {
    SplitJoin(ranks, '/');
    var i, f := k / 8, k % 8;
    assert k == 8 * i + f;
    if k < 64 && Occupied(ranks, piece, k) {
      var j :| 0 <= j < |ranks| && RankHolds(ranks, piece, j, k);
      HoldingToken(ranks, piece, j, k);
    }
    if k < 64 && f < |ExpandRank(ranks[i])| && ExpandRank(ranks[i])[f] == piece {
      assert RankHolds(ranks, piece, i, k);
    }
  }

  /** Below bit 64, only token k / 8 can hold square k. */
  lemma HoldingToken(ranks: seq<seq<char>>, piece: char, j: nat, k: nat)
    requires EightRanks(ranks) && j < 8 && k < 64 && RankHolds(ranks, piece, j, k)
    ensures j == k / 8
  {
    if j < 7 {
      assert |ExpandRank(ranks[j])| <= 8;
    }
  }

  /**
   * When no token overflows its eight squares, two different letters never
   * share a square: their bitboards are disjoint.
   */
  lemma PlacementsDisjoint(board: seq<char>, p: char, q: char)
    requires RanksFit(board) && p != q
    ensures And(ParsePiece(board, p), ParsePiece(board, q)) == 0
  {
    var a, b := ParsePiece(board, p), ParsePiece(board, q);
    forall k: nat ensures Bit(And(a, b), k) == Bit(0, k) {
      ZeroBit(k);
      DisjointAt(board, p, q, k);
    }
    BitsDetermine(And(a, b), 0);
  }

  lemma DisjointAt(board: seq<char>, p: char, q: char, k: nat)
    requires RanksFit(board) && p != q
    ensures !(Bit(ParsePiece(board, p), k) && Bit(ParsePiece(board, q), k))
  {
    if k < 64 {
      var i, f := k / 8, k % 8;
      assert 8 * i + f == k;
      PlacementSquare(board, p, i, f);
      PlacementSquare(board, q, i, f);
    }
  }

  /**
   * A letter that does not occur in the placement has an empty bitboard;
   * so an all-digit placement such as "8/8/8/8/8/8/8/8" gives twelve zeros.
   */
  lemma AbsentLetter(board: seq<char>, piece: char)
    requires RanksNonEmpty(board) && piece != ' ' && piece !in board
    ensures ParsePiece(board, piece) == 0
  {
    forall k: nat ensures Bit(ParsePiece(board, piece), k) == Bit(0, k) {
      ZeroBit(k);
      AbsentAt(board, piece, k);
    }
    BitsDetermine(ParsePiece(board, piece), 0);
  }

  lemma AbsentAt(board: seq<char>, piece: char, k: nat)
    requires RanksNonEmpty(board) && piece != ' ' && piece !in board
    ensures !Occupied(Split(board, '/'), piece, k)
  {
    var ranks := Split(board, '/');
    forall i | 0 <= i < |ranks| ensures !RankHolds(ranks, piece, i, k) {
      if 8 * i <= k && k - 8 * i < |ExpandRank(ranks[i])| {
        TokenFromBoard(board, i);
        AbsentFromToken(ranks[i], board, piece, k - 8 * i);
      }
    }
  }

  lemma TokenFromBoard(board: seq<char>, i: nat)
    requires i < |Split(board, '/')|
    ensures forall j | 0 <= j < |Split(board, '/')[i]| :: Split(board, '/')[i][j] in board
  {
    JoinSplit(board, '/');
  }

  /** A token made of characters of the board never expands to a letter absent from it. */
  lemma AbsentFromToken(rank: seq<char>, board: seq<char>, piece: char, f: nat)
    requires forall j | 0 <= j < |rank| :: rank[j] in board
    requires piece != ' ' && piece !in board && f < |ExpandRank(rank)|
    ensures ExpandRank(rank)[f] != piece
  {
    var e := ExpandRank(rank)[f];
    ExpandedFrom(rank, f);
    if e in rank {
      var j :| 0 <= j < |rank| && rank[j] == e;
      assert rank[j] in board;
    }
  }

  /** Every square of an expanded rank is a space or a character of the rank. */
  lemma {:induction false} ExpandedFrom(rank: seq<char>, f: nat)
    requires f < |ExpandRank(rank)|
    ensures ExpandRank(rank)[f] == ' ' || ExpandRank(rank)[f] in rank
    decreases |rank|
  {
    var head := ExpandSquare(rank[0]);
    if f >= |head| {
      ExpandedFrom(rank[1..], f - |head|);
      assert ExpandRank(rank)[f] == ExpandRank(rank[1..])[f - |head|];
    }
  }

  /**
   * The inputs `parse` is modelled on. The source throws below three
   * space-separated fields (`includes` on a missing castling field) and on
   * a placement token that expands to no square (`reduce` on an empty
   * list). With three to five fields it returns a board holding values
   * that are not modelled: with three, `enPassant` is `squareMap[undefined]`
   * and both counters are NaN; with four, both counters are NaN; with five,
   * only `move` is. So six fields are required, and the counters must be
   * spelled in decimal digits, the only numeric spelling modelled.
   */
  predicate ValidFen(raw: seq<char>)
  {
    var fields := Split(raw, ' ');
    |fields| >= 6 && RanksNonEmpty(fields[0]) && AllDigits(fields[4]) && AllDigits(fields[5])
  }

  /** `FenParser.parse`. */
  function Parse(raw: seq<char>, squareMap: SquareMap): (r: Board)
    requires ValidFen(raw)
    ensures var fields := Split(raw, ' ');
      && (forall pc: Lib.Piece :: Bitboard(r, pc) == ParsePiece(fields[0], Lib.Letter(pc)))
      && r.white.castling == Castling('K' in fields[2], 'Q' in fields[2])
      && r.black.castling == Castling('k' in fields[2], 'q' in fields[2])
      && (r.active == "white" <==> fields[1] == "w")
      && (r.active == "black" <==> fields[1] != "w")
      && (r.enPassant.Some? <==> fields[3] in squareMap)
      && (r.enPassant.Some? ==> r.enPassant.value == squareMap[fields[3]])
      && r.fiftyMoveRule == DecimalValue(fields[4])
      && r.move == DecimalValue(fields[5])
  {
    var parts := Split(raw, ' ');
    var piecePlacement := parts[0];
    var active := parts[1];
    var castling := parts[2];
    var enPassant := parts[3];
    var fiftyMoveRule := parts[4];
    var move := parts[5];
    var r := Board(
      white := Colour(
        PiecePlacement(
          pawn := ParsePiece(piecePlacement, 'P'),
          knight := ParsePiece(piecePlacement, 'N'),
          bishop := ParsePiece(piecePlacement, 'B'),
          rook := ParsePiece(piecePlacement, 'R'),
          queen := ParsePiece(piecePlacement, 'Q'),
          king := ParsePiece(piecePlacement, 'K')),
        Castling(kingside := 'K' in castling, queenside := 'Q' in castling)),
      black := Colour(
        PiecePlacement(
          pawn := ParsePiece(piecePlacement, 'p'),
          knight := ParsePiece(piecePlacement, 'n'),
          bishop := ParsePiece(piecePlacement, 'b'),
          rook := ParsePiece(piecePlacement, 'r'),
          queen := ParsePiece(piecePlacement, 'q'),
          king := ParsePiece(piecePlacement, 'k')),
        Castling(kingside := 'k' in castling, queenside := 'q' in castling)),
      active := if active == "w" then "white" else "black",
      enPassant := if enPassant in squareMap then Some(squareMap[enPassant]) else None,
      fiftyMoveRule := DecimalValue(fiftyMoveRule),
      move := DecimalValue(move));
    forall pc: Lib.Piece ensures Bitboard(r, pc) == ParsePiece(piecePlacement, Lib.Letter(pc)) {
      BitboardLetter(r, piecePlacement, pc);
    }
    r
  }

  lemma BitboardLetter(r: Board, placement: seq<char>, pc: Lib.Piece)
    requires RanksNonEmpty(placement)
    requires r.white.piecePlacement == PiecePlacement(
      ParsePiece(placement, 'P'), ParsePiece(placement, 'N'), ParsePiece(placement, 'B'),
      ParsePiece(placement, 'R'), ParsePiece(placement, 'Q'), ParsePiece(placement, 'K'))
    requires r.black.piecePlacement == PiecePlacement(
      ParsePiece(placement, 'p'), ParsePiece(placement, 'n'), ParsePiece(placement, 'b'),
      ParsePiece(placement, 'r'), ParsePiece(placement, 'q'), ParsePiece(placement, 'k'))
    ensures Bitboard(r, pc) == ParsePiece(placement, Lib.Letter(pc))
  {
    var white := pc.player == Lib.White;
    match pc.kind
    case Pawn => assert Lib.Letter(pc) == if white then 'P' else 'p';
    case Knight => assert Lib.Letter(pc) == if white then 'N' else 'n';
    case Bishop => assert Lib.Letter(pc) == if white then 'B' else 'b';
    case Rook => assert Lib.Letter(pc) == if white then 'R' else 'r';
    case Queen => assert Lib.Letter(pc) == if white then 'Q' else 'q';
    case King => assert Lib.Letter(pc) == if white then 'K' else 'k';
  }

  /** The bitboard a board keeps for one piece type of one player. */
  function Bitboard(b: Board, pc: Lib.Piece): (bits: nat)
  {
    var placement := if pc.player == Lib.White then b.white.piecePlacement else b.black.piecePlacement;
    match pc.kind
    case Pawn => placement.pawn
    case Knight => placement.knight
    case Bishop => placement.bishop
    case Rook => placement.rook
    case Queen => placement.queen
    case King => placement.king
  }

  /**
   * Bit k of the bitboard for a piece is set exactly when the placement
   * token k / 8 holds that piece's letter, by the same letter table as
   * `charToPiece`, at square k % 8 of its expansion (or a longer token
   * before it spills over onto k).
   */
  lemma ParseSquares(raw: seq<char>, squareMap: SquareMap, pc: Lib.Piece, k: nat)
    requires ValidFen(raw)
    ensures Bit(Bitboard(Parse(raw, squareMap), pc), k) <==>
      k < 64 && Occupied(Split(Split(raw, ' ')[0], '/'), Lib.Letter(pc), k)
  {
  }

  /**
   * When no token of the placement overflows its eight squares, the twelve
   * bitboards are pairwise disjoint: no square holds two pieces.
   */
  lemma BitboardsDisjoint(raw: seq<char>, squareMap: SquareMap, pc: Lib.Piece, pc': Lib.Piece)
    requires ValidFen(raw) && RanksFit(Split(raw, ' ')[0]) && pc != pc'
    ensures And(Bitboard(Parse(raw, squareMap), pc), Bitboard(Parse(raw, squareMap), pc')) == 0
  {
    var placement := Split(raw, ' ')[0];
    assert Lib.Letter(pc) != Lib.Letter(pc');
    PlacementsDisjoint(placement, Lib.Letter(pc), Lib.Letter(pc'));
  }

  /**
   * Each field is decoded on its own: for any six or more fields without
   * spaces, the board depends on the placement only through its bitboards,
   * and on each of the other fields only through that field.
   */
  lemma ParseFields(fields: seq<seq<char>>, squareMap: SquareMap)
    requires |fields| >= 6 && forall i | 0 <= i < |fields| :: ' ' !in fields[i]
    requires RanksNonEmpty(fields[0]) && AllDigits(fields[4]) && AllDigits(fields[5])
    ensures ValidFen(Join(fields, ' '))
    ensures var r := Parse(Join(fields, ' '), squareMap);
      && (forall pc: Lib.Piece :: Bitboard(r, pc) == ParsePiece(fields[0], Lib.Letter(pc)))
      && r.white.castling == Castling('K' in fields[2], 'Q' in fields[2])
      && r.black.castling == Castling('k' in fields[2], 'q' in fields[2])
      && r.active == (if fields[1] == "w" then "white" else "black")
      && r.enPassant == (if fields[3] in squareMap then Some(squareMap[fields[3]]) else None)
      && r.fiftyMoveRule == DecimalValue(fields[4])
      && r.move == DecimalValue(fields[5])
  {
    SplitJoin(fields, ' ');
  }

  /** Counters written in decimal decode to the numbers they spell. */
  lemma ParseCounters(fields: seq<seq<char>>, squareMap: SquareMap, halfmoves: nat, moves: nat)
    requires |fields| >= 6 && forall i | 0 <= i < |fields| :: ' ' !in fields[i]
    requires RanksNonEmpty(fields[0])
    requires fields[4] == DecimalString(halfmoves) && fields[5] == DecimalString(moves)
    ensures ValidFen(Join(fields, ' '))
    ensures Parse(Join(fields, ' '), squareMap).fiftyMoveRule == halfmoves
    ensures Parse(Join(fields, ' '), squareMap).move == moves
  {
    ParseFields(fields, squareMap);
    DecimalRoundTrip(halfmoves);
    DecimalRoundTrip(moves);
  }
}
