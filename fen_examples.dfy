/**
 * The cases of the table-driven tests in test/fen-parser.ts, stated as
 * lemmas about the decoder. A FEN record is written as its six fields and
 * its placement as its eight ranks (`Record`); the `...Spelling` lemmas
 * show that the placements are the strings the tests use, so a test's FEN
 * string is `Record` of its fields once the `...Spelling` lemma of its row
 * has fixed the placement (for instance the move test's
 * "8/8/8/8/8/8/8/8 w - - 0 58" is `MoveParsing` under `EmptySpelling`).
 * Most tables become one lemma whose parameters range over the table's
 * rows; the piece-placement table becomes one lemma per row
 * (`RookPlacement`, `BishopPlacement`, `PawnPlacement`,
 * `StartingPlacement`).
 *
 * Square constants come from src/squares.ts, which is not part of this
 * model. The tests OR them into expected bitboards, so they are square
 * values (masks). Here an expected bitboard is given by the bits it sets,
 * assuming the layout where a8 is bit 0: the tests' a8 | h8 is then bits 0
 * and 7, the first and last squares of the first rank of the placement.
 */
module FenParserExamples {
  import opened Bitboards
  import opened JsRuntime
  import opened FenParser
  import Lib

  /** The FEN record with the given fields, separated by single spaces. */
  function Record(placement: seq<seq<char>>, active: seq<char>, castling: seq<char>,
                  enPassant: seq<char>, halfmoves: seq<char>, moves: seq<char>): (raw: seq<char>)
    requires |placement| >= 1
  {
    Join([Join(placement, '/'), active, castling, enPassant, halfmoves, moves], ' ')
  }

  /** A character found in no token is found nowhere in the placement. */
  lemma {:induction false} AbsentFromRanks(ranks: seq<seq<char>>, c: char)
    requires |ranks| >= 1 && c != '/'
    requires forall i | 0 <= i < |ranks| :: c !in ranks[i]
    ensures c !in Join(ranks, '/')
    decreases |ranks|
  {
    if |ranks| > 1 {
      AbsentFromRanks(ranks[1..], c);
    }
  }

  /** Six space-free fields joined by spaces split back into those six fields. */
  lemma SixFields(a: seq<char>, b: seq<char>, c: seq<char>, d: seq<char>, e: seq<char>, f: seq<char>)
    requires ' ' !in a && ' ' !in b && ' ' !in c && ' ' !in d && ' ' !in e && ' ' !in f
    ensures Split(Join([a, b, c, d, e, f], ' '), ' ') == [a, b, c, d, e, f]
  {
    var fields := [a, b, c, d, e, f];
    forall i | 0 <= i < |fields| ensures ' ' !in fields[i] {
    }
    SplitJoin(fields, ' ');
  }

  /** A record of space-free fields splits back into those six fields. */
  lemma RecordSplit(placement: seq<seq<char>>, active: seq<char>, castling: seq<char>,
                    enPassant: seq<char>, halfmoves: seq<char>, moves: seq<char>)
    requires |placement| >= 1 && ' ' !in Join(placement, '/')
    requires ' ' !in active && ' ' !in castling && ' ' !in enPassant && ' ' !in halfmoves && ' ' !in moves
    ensures Split(Record(placement, active, castling, enPassant, halfmoves, moves), ' ')
      == [Join(placement, '/'), active, castling, enPassant, halfmoves, moves]
  {
    SixFields(Join(placement, '/'), active, castling, enPassant, halfmoves, moves);
  }

  /** The placement of a record of eight ranks: non-empty tokens, no space. */
  lemma PlacementField(placement: seq<seq<char>>)
    requires EightRanks(placement)
    ensures RanksNonEmpty(Join(placement, '/')) && ' ' !in Join(placement, '/')
  {
    RankByRank(placement, 'P', 0);
    AbsentFromRanks(placement, ' ');
  }

  /**
   * The non-placement fields of a record without spaces, decoded: the
   * general statement the test cases instantiate.
   */
  lemma RecordFields(placement: seq<seq<char>>, active: seq<char>, castling: seq<char>,
                     enPassant: seq<char>, halfmoves: seq<char>, moves: seq<char>, squareMap: SquareMap)
    requires EightRanks(placement)
    requires ' ' !in active && ' ' !in castling && ' ' !in enPassant
    requires AllDigits(halfmoves) && AllDigits(moves)
    ensures ValidFen(Record(placement, active, castling, enPassant, halfmoves, moves))
    ensures var r := Parse(Record(placement, active, castling, enPassant, halfmoves, moves), squareMap);
      && r.white.castling == Castling('K' in castling, 'Q' in castling)
      && r.black.castling == Castling('k' in castling, 'q' in castling)
      && r.active == (if active == "w" then "white" else "black")
      && r.enPassant == (if enPassant in squareMap then Some(squareMap[enPassant]) else None)
      && r.fiftyMoveRule == DecimalValue(halfmoves)
      && r.move == DecimalValue(moves)
  {
    PlacementField(placement);
    NoSpaceInDigits(halfmoves);
    NoSpaceInDigits(moves);
    RecordSplit(placement, active, castling, enPassant, halfmoves, moves);
  }

  lemma NoSpaceInDigits(s: seq<char>)
    requires AllDigits(s)
    ensures ' ' !in s
  {
    forall i | 0 <= i < |s| ensures s[i] != ' ' {
      assert IsDigit(s[i]);
    }
  }

  /** The bitboard of one piece of such a record is parsed from its placement. */
  lemma RecordPlacement(placement: seq<seq<char>>, active: seq<char>, castling: seq<char>,
                        enPassant: seq<char>, halfmoves: seq<char>, moves: seq<char>,
                        squareMap: SquareMap, pc: Lib.Piece)
    requires EightRanks(placement)
    requires ' ' !in active && ' ' !in castling && ' ' !in enPassant
    requires AllDigits(halfmoves) && AllDigits(moves)
    ensures ValidFen(Record(placement, active, castling, enPassant, halfmoves, moves))
    ensures RanksNonEmpty(Join(placement, '/'))
    ensures Bitboard(Parse(Record(placement, active, castling, enPassant, halfmoves, moves), squareMap), pc)
      == ParsePiece(Join(placement, '/'), Lib.Letter(pc))
  {
    PlacementField(placement);
    NoSpaceInDigits(halfmoves);
    NoSpaceInDigits(moves);
    RecordSplit(placement, active, castling, enPassant, halfmoves, moves);
  }

  /** A piece whose letter no rank holds has an empty bitboard. */
  lemma AbsentPiece(ranks: seq<seq<char>>, pc: Lib.Piece)
    requires EightRanks(ranks)
    requires forall i | 0 <= i < 8 :: Lib.Letter(pc) !in ranks[i]
    ensures RanksNonEmpty(Join(ranks, '/'))
    ensures ParsePiece(Join(ranks, '/'), Lib.Letter(pc)) == 0
  {
    PlacementField(ranks);
    var c := Lib.Letter(pc);
    LetterIsNoSeparator(pc);
    AbsentFromRanks(ranks, c);
    AbsentLetter(Join(ranks, '/'), c);
  }

  /** A piece letter is neither a rank separator nor a space. */
  lemma LetterIsNoSeparator(pc: Lib.Piece)
    ensures Lib.Letter(pc) != '/' && Lib.Letter(pc) != ' '
  {
    assert Lib.Letter(pc) in "PNBRQKpnbrqk";
  }

  /** "8": eight empty squares. */
  lemma EightEmpty(t: seq<char>)
    requires t == "8"
    ensures '/' !in t && ' ' !in t
    ensures |ExpandRank(t)| == 8 && forall f | 0 <= f < 8 :: ExpandRank(t)[f] == ' '
  {
    DigitToken(t);
  }

  /** "9": nine empty squares. */
  lemma NineEmpty(t: seq<char>)
    requires t == "9"
    ensures '/' !in t && ' ' !in t
    ensures |ExpandRank(t)| == 9 && forall f | 0 <= f < 9 :: ExpandRank(t)[f] == ' '
  {
    DigitToken(t);
  }

  /** Eight letters: their own expansion. */
  lemma LetterToken(t: seq<char>)
    requires |t| == 8 && forall f | 0 <= f < 8 :: 'A' <= t[f] <= 'Z' || 'a' <= t[f] <= 'z'
    ensures '/' !in t && ' ' !in t && ExpandRank(t) == t
  {
    ExpandLetters(t);
  }

  /** "r6r": a rook, six empty squares, a rook. */
  lemma RookToken(t: seq<char>)
    requires t == "r6r"
    ensures '/' !in t && ' ' !in t
    ensures |ExpandRank(t)| == 8
    ensures forall f | 0 <= f < 8 :: ExpandRank(t)[f] == if f == 0 || f == 7 then 'r' else ' '
  {
    assert t == ['r'] + (['6'] + ['r']);
    ExpandAppend(['r'], ['6'] + ['r']);
    ExpandAppend(['6'], ['r']);
    ExpandLetters(['r']);
    DigitToken(['6']);
  }

  /** "2b2b2": two empty squares, a bishop, two empty, a bishop, two empty. */
  lemma BishopToken(t: seq<char>)
    requires t == "2b2b2"
    ensures '/' !in t && ' ' !in t
    ensures |ExpandRank(t)| == 8
    ensures forall f | 0 <= f < 8 :: ExpandRank(t)[f] == if f == 2 || f == 5 then 'b' else ' '
  {
    var two, b := ['2'], ['b'];
    assert t == two + (b + (two + (b + two)));
    ExpandAppend(two, b + (two + (b + two)));
    ExpandAppend(b, two + (b + two));
    ExpandAppend(two, b + two);
    ExpandAppend(b, two);
    ExpandLetters(b);
    DigitToken(two);
  }

  lemma EmptyShape(ranks: seq<seq<char>>)
    requires EmptyRow(ranks)
    ensures EightRanks(ranks)
  {
    forall i | 0 <= i < 8
      ensures '/' !in ranks[i] && ' ' !in ranks[i] && 1 <= |ExpandRank(ranks[i])| <= 8
    {
      EightEmpty(ranks[i]);
    }
  }

  /** test/fen-parser.ts:151-170: the fullmove field "0", "1" and "58". */
  lemma MoveParsing(ranks: seq<seq<char>>, moves: seq<char>, expected: nat, squareMap: SquareMap)
    requires EmptyRow(ranks)
    requires (moves, expected) in {("0", 0), ("1", 1), ("58", 58)}
    ensures var raw := Record(ranks, "w", "-", "-", "0", moves);
      ValidFen(raw) && Parse(raw, squareMap).move == expected
  {
    EmptyShape(ranks);
    CounterValue(moves, expected);
    CounterValue("0", 0);
    RecordFields(ranks, "w", "-", "-", "0", moves, squareMap);
  }

  /** The counters of the tests, "0", "1" and "58", convert to 0, 1 and 58. */
  lemma CounterValue(s: seq<char>, n: nat)
    requires (s, n) in {("0", 0), ("1", 1), ("58", 58)}
    ensures AllDigits(s) && DecimalValue(s) == n
  {
    if s == "58" {
      assert s[..1] == "5";
    }
  }

  /** test/fen-parser.ts:172-191: the halfmove clock "0", "1" and "58". */
  lemma FiftyMoveRuleParsing(ranks: seq<seq<char>>, halfmoves: seq<char>, expected: nat, squareMap: SquareMap)
    requires EmptyRow(ranks)
    requires (halfmoves, expected) in {("0", 0), ("1", 1), ("58", 58)}
    ensures var raw := Record(ranks, "w", "-", "-", halfmoves, "0");
      ValidFen(raw) && Parse(raw, squareMap).fiftyMoveRule == expected
  {
    EmptyShape(ranks);
    CounterValue(halfmoves, expected);
    CounterValue("0", 0);
    RecordFields(ranks, "w", "-", "-", halfmoves, "0", squareMap);
  }

  /**
   * test/fen-parser.ts:193-208: "e3" gives the square the map assigns it,
   * "-" (which the map does not hold) gives no square.
   */
  lemma EnPassantParsing(ranks: seq<seq<char>>, enPassant: seq<char>, expected: Option<nat>, squareMap: SquareMap)
    requires EmptyRow(ranks)
    requires "e3" in squareMap && "-" !in squareMap
    requires (enPassant, expected) in {("e3", Some(squareMap["e3"])), ("-", None)}
    ensures var raw := Record(ranks, "w", "-", enPassant, "0", "0");
      ValidFen(raw) && Parse(raw, squareMap).enPassant == expected
  {
    EmptyShape(ranks);
    RecordFields(ranks, "w", "-", enPassant, "0", "0", squareMap);
  }

  /** test/fen-parser.ts:210-225: "w" is White to move, "b" Black. */
  lemma ActiveParsing(ranks: seq<seq<char>>, active: seq<char>, expected: seq<char>, squareMap: SquareMap)
    requires EmptyRow(ranks)
    requires (active, expected) in {("w", "white"), ("b", "black")}
    ensures var raw := Record(ranks, active, "-", "-", "0", "0");
      ValidFen(raw) && Parse(raw, squareMap).active == expected
  {
    EmptyShape(ranks);
    RecordFields(ranks, active, "-", "-", "0", "0", squareMap);
  }

  /** The rows of the castling table agree with the letters they hold. */
  lemma CastlingRow(castling: seq<char>, white: Castling, black: Castling)
    requires (castling, white, black) in {
      ("KQkq", Castling(true, true), Castling(true, true)),
      ("Kq", Castling(true, false), Castling(false, true)),
      ("-", Castling(false, false), Castling(false, false))}
    ensures white == Castling('K' in castling, 'Q' in castling)
    ensures black == Castling('k' in castling, 'q' in castling)
  {
  }

  /** test/fen-parser.ts:227-268: castling rights "KQkq", "Kq" and "-". */
  lemma CastlingParsing(ranks: seq<seq<char>>, castling: seq<char>, white: Castling, black: Castling, squareMap: SquareMap)
    requires EmptyRow(ranks)
    requires (castling, white, black) in {
      ("KQkq", Castling(true, true), Castling(true, true)),
      ("Kq", Castling(true, false), Castling(false, true)),
      ("-", Castling(false, false), Castling(false, false))}
    ensures var raw := Record(ranks, "w", castling, "-", "0", "0");
      ValidFen(raw) && Parse(raw, squareMap).white.castling == white
      && Parse(raw, squareMap).black.castling == black
  {
    CastlingRow(castling, white, black);
    EmptyShape(ranks);
    RecordFields(ranks, "w", castling, "-", "0", "0", squareMap);
  }

  /**
   * The test rows' placements. Each is stated rank by rank rather than as
   * one literal list, so that the solver reasons about the ranks without
   * evaluating the whole record.
   */
  predicate EmptyRow(ranks: seq<seq<char>>)
  {
    |ranks| == 8 && forall i | 0 <= i < 8 :: ranks[i] == "8"
  }

  predicate RookRow(ranks: seq<seq<char>>)
  {
    |ranks| == 8 && ranks[0] == "r6r" && forall i | 1 <= i < 8 :: ranks[i] == "8"
  }

  predicate BishopRow(ranks: seq<seq<char>>)
  {
    |ranks| == 8 && ranks[0] == "2b2b2" && forall i | 1 <= i < 8 :: ranks[i] == "8"
  }

  predicate PawnRow(ranks: seq<seq<char>>)
  {
    && |ranks| == 8 && ranks[1] == "pppppppp" && ranks[7] == "9"
    && ranks[0] == "8" && forall i | 2 <= i < 7 :: ranks[i] == "8"
  }

  predicate StartRow(ranks: seq<seq<char>>)
  {
    && |ranks| == 8 && ranks[0] == "rnbqkbnr" && ranks[1] == "pppppppp"
    && (forall i | 2 <= i < 6 :: ranks[i] == "8")
    && ranks[6] == "PPPPPPPP" && ranks[7] == "RNBQKBNR"
  }

  /** The rows' placements spell the first fields of the test records. */
  lemma EmptySpelling(ranks: seq<seq<char>>)
    requires EmptyRow(ranks)
    ensures Join(ranks, '/') == "8/8/8/8/8/8/8/8"
  {
    JoinEight(ranks, '/');
    assert ranks[0] == ranks[1] == ranks[2] == ranks[3] == "8";
    assert ranks[4] == ranks[5] == ranks[6] == ranks[7] == "8";
  }

  lemma RookSpelling(ranks: seq<seq<char>>)
    requires RookRow(ranks)
    ensures Join(ranks, '/') == "r6r/8/8/8/8/8/8/8"
  {
    JoinEight(ranks, '/');
    assert ranks[1] == ranks[2] == ranks[3] == "8";
    assert ranks[4] == ranks[5] == ranks[6] == ranks[7] == "8";
  }

  lemma BishopSpelling(ranks: seq<seq<char>>)
    requires BishopRow(ranks)
    ensures Join(ranks, '/') == "2b2b2/8/8/8/8/8/8/8"
  {
    JoinEight(ranks, '/');
    assert ranks[1] == ranks[2] == ranks[3] == "8";
    assert ranks[4] == ranks[5] == ranks[6] == ranks[7] == "8";
  }

  lemma PawnSpelling(ranks: seq<seq<char>>)
    requires PawnRow(ranks)
    ensures Join(ranks, '/') == "8/pppppppp/8/8/8/8/8/9"
  {
    JoinEight(ranks, '/');
    assert ranks[2] == ranks[3] == ranks[4] == ranks[5] == ranks[6] == "8";
  }

  lemma StartSpelling(ranks: seq<seq<char>>)
    requires StartRow(ranks)
    ensures Join(ranks, '/') == "rnbqkbnr/pppppppp/8/8/8/8/PPPPPPPP/RNBQKBNR"
  {
    JoinEight(ranks, '/');
    assert ranks[2] == ranks[3] == ranks[4] == ranks[5] == "8";
  }

  /** The bitboard of a record's piece is parsed from its placement. */
  lemma RowPlacement(ranks: seq<seq<char>>, squareMap: SquareMap, pc: Lib.Piece)
    requires EightRanks(ranks)
    ensures var raw := Record(ranks, "w", "-", "-", "0", "0");
      && ValidFen(raw) && RanksNonEmpty(Join(ranks, '/'))
      && Bitboard(Parse(raw, squareMap), pc) == ParsePiece(Join(ranks, '/'), Lib.Letter(pc))
  {
    RecordPlacement(ranks, "w", "-", "-", "0", "0", squareMap, pc);
  }

  /**
   * Bit k of a piece's bitboard is set exactly when square k % 8 of rank
   * k / 8 holds that piece, read as the diagram decoder reads a letter.
   */
  lemma RecordSquare(ranks: seq<seq<char>>, squareMap: SquareMap, pc: Lib.Piece, k: nat)
    requires EightRanks(ranks)
    ensures var raw := Record(ranks, "w", "-", "-", "0", "0");
      && ValidFen(raw)
      && (Bit(Bitboard(Parse(raw, squareMap), pc), k) <==>
          k < 64 && k % 8 < |ExpandRank(ranks[k / 8])| && Lib.CharToPiece(ExpandRank(ranks[k / 8])[k % 8]) == Some(pc))
  {
    RowPlacement(ranks, squareMap, pc);
    RankByRank(ranks, Lib.Letter(pc), k);
    if k < 64 && k % 8 < |ExpandRank(ranks[k / 8])| && Lib.CharToPiece(ExpandRank(ranks[k / 8])[k % 8]) == Some(pc) {
      Lib.LetterUnique(ExpandRank(ranks[k / 8])[k % 8], pc);
    }
  }

  /** An empty placement gives twelve empty bitboards. */
  lemma EmptyBoard(ranks: seq<seq<char>>, squareMap: SquareMap, pc: Lib.Piece)
    requires EmptyRow(ranks)
    ensures var raw := Record(ranks, "w", "-", "-", "0", "0");
      ValidFen(raw) && Bitboard(Parse(raw, squareMap), pc) == 0
  {
    EmptyShape(ranks);
    LetterIsNoDigit(pc);
    forall i | 0 <= i < 8 ensures Lib.Letter(pc) !in ranks[i] {
      assert ranks[i] == "8";
    }
    RowPlacement(ranks, squareMap, pc);
    AbsentPiece(ranks, pc);
  }

  /** A piece letter is not the digit 8. */
  lemma LetterIsNoDigit(pc: Lib.Piece)
    ensures Lib.Letter(pc) != '8'
  {
    assert Lib.Letter(pc) in "PNBRQKpnbrqk";
  }

  lemma RookShape(ranks: seq<seq<char>>)
    requires RookRow(ranks)
    ensures EightRanks(ranks)
    ensures forall i | 0 <= i < 8 :: |ExpandRank(ranks[i])| == 8
  {
    forall i | 0 <= i < 8
      ensures '/' !in ranks[i] && ' ' !in ranks[i] && |ExpandRank(ranks[i])| == 8
    {
      if i == 0 {
        RookToken(ranks[i]);
      } else {
        EightEmpty(ranks[i]);
      }
    }
  }

  lemma RookSquare(ranks: seq<seq<char>>, k: nat)
    requires RookRow(ranks) && k < 64
    ensures k % 8 < |ExpandRank(ranks[k / 8])|
    ensures Lib.CharToPiece(ExpandRank(ranks[k / 8])[k % 8]) ==
      if k == 0 || k == 7 then Some(Lib.Piece(Lib.Rook, Lib.Black)) else None
  {
    var r, f := k / 8, k % 8;
    if r == 0 {
      RookToken(ranks[r]);
    } else {
      EightEmpty(ranks[r]);
    }
  }

  /** test/fen-parser.ts:271-289: "r6r/8/8/8/8/8/8/8" has Black rooks on bits 0 and 7 and nothing else. */
  lemma RookPlacement(ranks: seq<seq<char>>, squareMap: SquareMap, pc: Lib.Piece, k: nat)
    requires RookRow(ranks)
    ensures var raw := Record(ranks, "w", "-", "-", "0", "0");
      && ValidFen(raw)
      && (Bit(Bitboard(Parse(raw, squareMap), pc), k) <==>
          pc == Lib.Piece(Lib.Rook, Lib.Black) && (k == 0 || k == 7))
  {
    RookShape(ranks);
    RecordSquare(ranks, squareMap, pc, k);
    if k < 64 {
      RookSquare(ranks, k);
    }
  }

  lemma BishopShape(ranks: seq<seq<char>>)
    requires BishopRow(ranks)
    ensures EightRanks(ranks)
    ensures forall i | 0 <= i < 8 :: |ExpandRank(ranks[i])| == 8
  {
    forall i | 0 <= i < 8
      ensures '/' !in ranks[i] && ' ' !in ranks[i] && |ExpandRank(ranks[i])| == 8
    {
      if i == 0 {
        BishopToken(ranks[i]);
      } else {
        EightEmpty(ranks[i]);
      }
    }
  }

  lemma BishopSquare(ranks: seq<seq<char>>, k: nat)
    requires BishopRow(ranks) && k < 64
    ensures k % 8 < |ExpandRank(ranks[k / 8])|
    ensures Lib.CharToPiece(ExpandRank(ranks[k / 8])[k % 8]) ==
      if k == 2 || k == 5 then Some(Lib.Piece(Lib.Bishop, Lib.Black)) else None
  {
    var r, f := k / 8, k % 8;
    if r == 0 {
      BishopToken(ranks[r]);
    } else {
      EightEmpty(ranks[r]);
    }
  }

  /** test/fen-parser.ts:290-308: "2b2b2/8/8/8/8/8/8/8" has Black bishops on bits 2 and 5 and nothing else. */
  lemma BishopPlacement(ranks: seq<seq<char>>, squareMap: SquareMap, pc: Lib.Piece, k: nat)
    requires BishopRow(ranks)
    ensures var raw := Record(ranks, "w", "-", "-", "0", "0");
      && ValidFen(raw)
      && (Bit(Bitboard(Parse(raw, squareMap), pc), k) <==>
          pc == Lib.Piece(Lib.Bishop, Lib.Black) && (k == 2 || k == 5))
  {
    BishopShape(ranks);
    RecordSquare(ranks, squareMap, pc, k);
    if k < 64 {
      BishopSquare(ranks, k);
    }
  }

  lemma PawnShape(ranks: seq<seq<char>>)
    requires PawnRow(ranks)
    ensures EightRanks(ranks)
    ensures (forall i | 0 <= i < 7 :: |ExpandRank(ranks[i])| == 8) && |ExpandRank(ranks[7])| == 9
  {
    forall i | 0 <= i < 8
      ensures '/' !in ranks[i] && ' ' !in ranks[i] && 1 <= |ExpandRank(ranks[i])|
      ensures |ExpandRank(ranks[i])| == if i < 7 then 8 else 9
    {
      if i == 1 {
        LetterToken(ranks[i]);
      } else if i == 7 {
        NineEmpty(ranks[i]);
      } else {
        EightEmpty(ranks[i]);
      }
    }
  }

  lemma PawnSquare(ranks: seq<seq<char>>, k: nat)
    requires PawnRow(ranks) && k < 64
    ensures k % 8 < |ExpandRank(ranks[k / 8])|
    ensures Lib.CharToPiece(ExpandRank(ranks[k / 8])[k % 8]) ==
      if 8 <= k < 16 then Some(Lib.Piece(Lib.Pawn, Lib.Black)) else None
  {
    var r, f := k / 8, k % 8;
    if r == 1 {
      PawnToken(ranks[r]);
    } else if r == 7 {
      NineEmpty(ranks[r]);
    } else {
      EightEmpty(ranks[r]);
    }
  }

  /** "pppppppp": eight black pawns. */
  lemma PawnToken(t: seq<char>)
    requires t == "pppppppp"
    ensures |ExpandRank(t)| == 8 && forall f | 0 <= f < 8 :: ExpandRank(t)[f] == 'p'
  {
    LetterToken(t);
  }

  /**
   * test/fen-parser.ts:309-327: "8/pppppppp/8/8/8/8/8/9" has Black pawns on
   * bits 8 to 15 and nothing else; the ninth square of the last rank would
   * be bit 64 and is cut off.
   */
  lemma PawnPlacement(ranks: seq<seq<char>>, squareMap: SquareMap, pc: Lib.Piece, k: nat)
    requires PawnRow(ranks)
    ensures var raw := Record(ranks, "w", "-", "-", "0", "0");
      && ValidFen(raw)
      && (Bit(Bitboard(Parse(raw, squareMap), pc), k) <==>
          pc == Lib.Piece(Lib.Pawn, Lib.Black) && 8 <= k < 16)
  {
    PawnShape(ranks);
    RecordSquare(ranks, squareMap, pc, k);
    if k < 64 {
      PawnSquare(ranks, k);
    }
  }

  /** The back ranks and pawn ranks of the starting record hold no digits. */
  lemma StartLetters(ranks: seq<seq<char>>, r: nat)
    requires StartRow(ranks) && r in {0, 1, 6, 7}
    ensures '/' !in ranks[r] && ' ' !in ranks[r] && ExpandRank(ranks[r]) == ranks[r]
  {
    if r == 0 {
      LetterToken(ranks[0]);
    } else if r == 1 {
      LetterToken(ranks[1]);
    } else if r == 6 {
      LetterToken(ranks[6]);
    } else {
      LetterToken(ranks[7]);
    }
  }

  /** Those ranks are the diagram decoder's starting ranks. */
  lemma StartIsDiagram(ranks: seq<seq<char>>, r: nat)
    requires StartRow(ranks) && r in {0, 1, 6, 7}
    ensures ranks[r] == Lib.StartingRanks[r]
  {
  }

  lemma StartShape(ranks: seq<seq<char>>)
    requires StartRow(ranks)
    ensures EightRanks(ranks)
    ensures forall i | 0 <= i < 8 :: |ExpandRank(ranks[i])| == 8
  {
    forall i | 0 <= i < 8
      ensures '/' !in ranks[i] && ' ' !in ranks[i] && |ExpandRank(ranks[i])| == 8
    {
      if i in {0, 1, 6, 7} {
        StartLetters(ranks, i);
      } else {
        EightEmpty(ranks[i]);
      }
    }
  }

  lemma StartSquare(ranks: seq<seq<char>>, k: nat)
    requires StartRow(ranks) && k < 64
    ensures k % 8 < |ExpandRank(ranks[k / 8])|
    ensures Lib.CharToPiece(ExpandRank(ranks[k / 8])[k % 8]) ==
      Lib.CharToPiece(Lib.StartingRanks[k / 8][k % 8])
  {
    var r, f := k / 8, k % 8;
    if r in {0, 1, 6, 7} {
      StartLetterSquare(ranks, r, f);
    } else {
      StartEmptySquare(ranks, r, f);
    }
  }

  lemma StartLetterSquare(ranks: seq<seq<char>>, r: nat, f: nat)
    requires StartRow(ranks) && r in {0, 1, 6, 7} && f < 8
    ensures f < |ExpandRank(ranks[r])| && ExpandRank(ranks[r])[f] == Lib.StartingRanks[r][f]
  {
    StartLetters(ranks, r);
    StartIsDiagram(ranks, r);
  }

  lemma StartEmptySquare(ranks: seq<seq<char>>, r: nat, f: nat)
    requires StartRow(ranks) && 2 <= r < 6 && f < 8
    ensures f < |ExpandRank(ranks[r])|
    ensures Lib.CharToPiece(ExpandRank(ranks[r])[f]) == Lib.CharToPiece(Lib.StartingRanks[r][f]) == None
  {
    EightEmpty(ranks[r]);
    Lib.EmptyRank(r, f);
  }

  /** Entry k of the starting position is square k % 8 of rank k / 8 of its diagram. */
  lemma DiagramSquare(k: nat)
    requires k < 64
    ensures |Lib.StartingPosition| == 64
    ensures Lib.StartingPosition[k] == Lib.CharToPiece(Lib.StartingRanks[k / 8][k % 8])
  {
    var r, f := k / 8, k % 8;
    assert 8 * r + f == k;
    Lib.StartingRanksShape();
    Lib.IndentedSquare(Lib.StartingRanks, r, f);
  }

  /**
   * test/fen-parser.ts:328-346: the starting record sets bit k of a piece's
   * bitboard exactly when entry k of the diagram decoder's starting
   * position holds that piece.
   */
  lemma StartingPlacement(ranks: seq<seq<char>>, squareMap: SquareMap, pc: Lib.Piece, k: nat)
    requires StartRow(ranks)
    ensures |Lib.StartingPosition| == 64
    ensures var raw := Record(ranks, "w", "-", "-", "0", "0");
      && ValidFen(raw)
      && (Bit(Bitboard(Parse(raw, squareMap), pc), k) <==> k < 64 && Lib.StartingPosition[k] == Some(pc))
  {
    DiagramSquare(0);
    StartShape(ranks);
    RecordSquare(ranks, squareMap, pc, k);
    if k < 64 {
      StartSquare(ranks, k);
      DiagramSquare(k);
    }
  }
}
