/**
 * The diagram decoder of src/lib.ts: a plain-text board, one character per
 * square with `.` for an empty one, read into a list that holds a piece or
 * `undefined` for each character once whitespace is removed.
 */
module Lib {
  import opened JsRuntime

  datatype Player = White | Black

  datatype PieceType = Pawn | Knight | Bishop | Rook | Queen | King

  datatype Piece = Piece(kind: PieceType, player: Player)

  /** The side that moves first. */
  const FirstMove: Player := White

  /** The piece type of a letter, either case; `undefined` for anything else. */
  function TypeOf(c: char): (t: Option<PieceType>)
  {
    if c in ['P', 'p'] then Some(Pawn)
    else if c in ['N', 'n'] then Some(Knight)
    else if c in ['B', 'b'] then Some(Bishop)
    else if c in ['R', 'r'] then Some(Rook)
    else if c in ['Q', 'q'] then Some(Queen)
    else if c in ['K', 'k'] then Some(King)
    else None
  }

  /** The owner of a letter: upper case is White, lower case Black. */
  function PlayerOf(c: char): (p: Option<Player>)
  {
    if c in ['P', 'N', 'B', 'R', 'Q', 'K'] then Some(White)
    else if c in ['p', 'n', 'b', 'r', 'q', 'k'] then Some(Black)
    else None
  }

  /** `charToPiece`: a piece when both its type and its owner are known. */
  function CharToPiece(c: char): (r: Option<Piece>)
    ensures r.Some? <==> c in "PNBRQKpnbrqk"
    ensures r.Some? ==> (r.value.player == White <==> c in "PNBRQK")
    ensures r.Some? ==> (r.value.player == Black <==> c in "pnbrqk")
  {
    var t := TypeOf(c);
    var p := PlayerOf(c);
    if t.Some? && p.Some? then Some(Piece(t.value, p.value)) else None
  }

  /** The letter of a piece: the inverse of CharToPiece on the twelve letters. */
  function Letter(p: Piece): (c: char)
    ensures CharToPiece(c) == Some(p)
  {
    if p.player == White then WhiteLetter(p.kind); Upper(p.kind)
    else BlackLetter(p.kind); Lower(p.kind)
  }

  /** The upper-case letter of a piece type, White's. */
  function Upper(k: PieceType): (c: char)
  {
    match k
    case Pawn => 'P'
    case Knight => 'N'
    case Bishop => 'B'
    case Rook => 'R'
    case Queen => 'Q'
    case King => 'K'
  }

  /** The lower-case letter of a piece type, Black's. */
  function Lower(k: PieceType): (c: char)
  {
    match k
    case Pawn => 'p'
    case Knight => 'n'
    case Bishop => 'b'
    case Rook => 'r'
    case Queen => 'q'
    case King => 'k'
  }

  lemma WhiteLetter(k: PieceType)
    ensures CharToPiece(Upper(k)) == Some(Piece(k, White))
  {
  }

  lemma BlackLetter(k: PieceType)
    ensures CharToPiece(Lower(k)) == Some(Piece(k, Black))
  {
  }

  /** Each piece comes from exactly one letter. */
  lemma LetterUnique(c: char, p: Piece)
    requires CharToPiece(c) == Some(p)
    ensures c == Letter(p)
  {
  }

  /** CharToPiece is injective: different letters never give the same piece. */
  lemma CharToPieceInjective(c: char, d: char)
    requires CharToPiece(c).Some? && CharToPiece(c) == CharToPiece(d)
    ensures c == d
  {
    LetterUnique(c, CharToPiece(c).value);
    LetterUnique(d, CharToPiece(d).value);
  }

  /**
   * The two letters of a piece type differ only in ASCII case, and the
   * case decides only the owner: upper case White, lower case Black.
   */
  lemma CaseDecidesOnlyOwner(k: PieceType)
    ensures Lower(k) as int == Upper(k) as int + ('a' as int - 'A' as int)
    ensures CharToPiece(Upper(k)) == Some(Piece(k, White))
    ensures CharToPiece(Lower(k)) == Some(Piece(k, Black))
  {
    WhiteLetter(k);
    BlackLetter(k);
  }

  /** Empty squares and every other character give `undefined`. */
  lemma DotIsEmpty()
    ensures CharToPiece('.') == None
  {
  }

  /** The characters `\s` matches, restricted to ASCII; none of them stands for a square. */
  predicate IsWhitespace(c: char)
    ensures IsWhitespace(c) ==> CharToPiece(c) == None && c != '.'
  {
    c == ' ' || c == '\t' || c == '\n' || c == '\r' || c as int == 0x0B || c as int == 0x0C
  }

  predicate NoWhitespace(s: seq<char>)
  {
    forall i | 0 <= i < |s| :: !IsWhitespace(s[i])
  }

  predicate AllWhitespace(s: seq<char>)
  {
    forall i | 0 <= i < |s| :: IsWhitespace(s[i])
  }

  /** `raw.replace(/\s/gm, '')`. */
  function StripWhitespace(s: seq<char>): (r: seq<char>)
    ensures NoWhitespace(r)
    ensures |r| <= |s|
  {
    if s == [] then []
    else (if IsWhitespace(s[0]) then [] else [s[0]]) + StripWhitespace(s[1..])
  }

  /** `pos`: one entry per character left once whitespace is removed. */
  function Pos(raw: seq<char>): (r: seq<Option<Piece>>)
    ensures |r| == |StripWhitespace(raw)|
  {
    var w := StripWhitespace(raw);
    seq(|w|, i requires 0 <= i < |w| => CharToPiece(w[i]))
  }

  lemma {:induction false} StripAppend(a: seq<char>, b: seq<char>)
    ensures StripWhitespace(a + b) == StripWhitespace(a) + StripWhitespace(b)
    decreases |a|
  {
    if a != [] {
      assert (a + b)[1..] == a[1..] + b;
      StripAppend(a[1..], b);
    } else {
      assert a + b == b;
    }
  }

  lemma {:induction false} StripKeepsText(s: seq<char>)
    requires NoWhitespace(s)
    ensures StripWhitespace(s) == s
    decreases |s|
  {
    if s != [] {
      StripKeepsText(s[1..]);
      assert s == [s[0]] + s[1..];
    }
  }

  lemma {:induction false} StripDropsWhitespace(w: seq<char>)
    requires AllWhitespace(w)
    ensures StripWhitespace(w) == []
    decreases |w|
  {
    if w != [] {
      StripDropsWhitespace(w[1..]);
    }
  }

  /** Decoding distributes over concatenation. */
  lemma PosAppend(a: seq<char>, b: seq<char>)
    ensures Pos(a + b) == Pos(a) + Pos(b)
  {
    StripAppend(a, b);
  }

  /** Inserting or removing whitespace never changes the decoded list. */
  lemma PosIgnoresWhitespace(a: seq<char>, w: seq<char>, b: seq<char>)
    requires AllWhitespace(w)
    ensures Pos(a + w + b) == Pos(a + b)
  {
    StripAppend(a + w, b);
    StripAppend(a, w);
    StripAppend(a, b);
    StripDropsWhitespace(w);
  }

  /** Without whitespace, entry i is the piece (or `undefined`) of character i. */
  lemma PosOfText(raw: seq<char>)
    requires NoWhitespace(raw)
    ensures |Pos(raw)| == |raw|
    ensures forall i | 0 <= i < |raw| :: Pos(raw)[i] == CharToPiece(raw[i])
  {
    StripKeepsText(raw);
  }

  /**
   * The text `startingPosition` is read from: a line break, then each rank
   * on its own line indented by four spaces, then a final line break.
   */
  function Indented(lines: seq<seq<char>>): (s: seq<char>)
  {
    if lines == [] then "\n" else "\n    " + lines[0] + Indented(lines[1..])
  }

  function Concat(lines: seq<seq<char>>): (s: seq<char>)
  {
    if lines == [] then [] else lines[0] + Concat(lines[1..])
  }

  const StartingRanks: seq<seq<char>> :=
    ["rnbqkbnr", "pppppppp", "........", "........", "........", "........", "PPPPPPPP", "RNBQKBNR"]

  const StartingDiagram: seq<char> := Indented(StartingRanks)

  /** `startingPosition`. */
  const StartingPosition: seq<Option<Piece>> := Pos(StartingDiagram)

  const BackRank: seq<PieceType> := [Rook, Knight, Bishop, Queen, King, Bishop, Knight, Rook]

  lemma {:induction false} StripIndented(lines: seq<seq<char>>)
    requires forall i | 0 <= i < |lines| :: NoWhitespace(lines[i])
    ensures StripWhitespace(Indented(lines)) == Concat(lines)
  {
    StripLayout();
    if lines != [] {
      var line, tail := lines[0], lines[1..];
      var indent, rest := "\n    ", Indented(tail);
      assert Indented(lines) == (indent + line) + rest;
      assert forall i | 0 <= i < |tail| :: tail[i] == lines[i + 1];
      StripIndented(tail);
      StripAppend(indent + line, rest);
      StripAppend(indent, line);
      StripKeepsText(line);
      assert StripWhitespace(indent + line) == line;
      assert Concat(lines) == line + Concat(tail);
    }
  }

  /** The line breaks and indentation of the diagram are whitespace only. */
  lemma StripLayout()
    ensures StripWhitespace("\n") == [] && StripWhitespace("\n    ") == []
  {
    StripDropsWhitespace("\n");
    StripDropsWhitespace("\n    ");
  }

  /** Square 8 * r + f of equal-length lines is character f of line r. */
  lemma {:induction false} ConcatAt(lines: seq<seq<char>>, r: nat, f: nat)
    requires forall i | 0 <= i < |lines| :: |lines[i]| == 8
    requires r < |lines| && f < 8
    ensures |Concat(lines)| == 8 * |lines|
    ensures Concat(lines)[8 * r + f] == lines[r][f]
  {
    if r == 0 {
      ConcatLength(lines);
    } else {
      ConcatAt(lines[1..], r - 1, f);
    }
  }

  lemma {:induction false} ConcatLength(lines: seq<seq<char>>)
    requires forall i | 0 <= i < |lines| :: |lines[i]| == 8
    ensures |Concat(lines)| == 8 * |lines|
  {
    if lines != [] {
      ConcatLength(lines[1..]);
    }
  }

  lemma StartingText()
    ensures |StartingPosition| == 64
    ensures forall r, f | 0 <= r < 8 && 0 <= f < 8 ::
      StartingPosition[8 * r + f] == CharToPiece(StartingRanks[r][f])
  {
    StartingRanksShape();
    IndentedSquare(StartingRanks, 0, 0);
    forall r, f | 0 <= r < 8 && 0 <= f < 8
      ensures StartingPosition[8 * r + f] == CharToPiece(StartingRanks[r][f])
    {
      IndentedSquare(StartingRanks, r, f);
    }
  }

  /** Square 8 * r + f of an indented diagram of eight-character lines is character f of line r. */
  lemma IndentedSquare(lines: seq<seq<char>>, r: nat, f: nat)
    requires forall i | 0 <= i < |lines| :: NoWhitespace(lines[i]) && |lines[i]| == 8
    requires r < |lines| && f < 8
    ensures |Pos(Indented(lines))| == 8 * |lines|
    ensures Pos(Indented(lines))[8 * r + f] == CharToPiece(lines[r][f])
  {
    StripIndented(lines);
    ConcatLength(lines);
    ConcatNoWhitespace(lines);
    PosOfText(Concat(lines));
    ConcatAt(lines, r, f);
  }

  /** The diagram has eight lines of eight characters, none of them whitespace. */
  lemma StartingRanksShape()
    ensures |StartingRanks| == 8
    ensures forall i | 0 <= i < 8 :: NoWhitespace(StartingRanks[i]) && |StartingRanks[i]| == 8
  {
    forall i | 0 <= i < 8 ensures NoWhitespace(StartingRanks[i]) && |StartingRanks[i]| == 8 {
    }
  }

  lemma {:induction false} ConcatNoWhitespace(lines: seq<seq<char>>)
    requires forall i | 0 <= i < |lines| :: NoWhitespace(lines[i])
    ensures NoWhitespace(Concat(lines))
  {
    if lines != [] {
      var tail := lines[1..];
      assert forall i | 0 <= i < |tail| :: tail[i] == lines[i + 1];
      ConcatNoWhitespace(tail);
      var a, b := lines[0], Concat(tail);
      assert NoWhitespace(a);
      forall i | 0 <= i < |a + b| ensures !IsWhitespace((a + b)[i]) {
        if i >= |a| {
          assert (a + b)[i] == b[i - |a|];
        }
      }
    }
  }

  /**
   * The starting position has 64 entries: Black's back rank and pawns
   * first, then 32 empty squares, then White's pawns and back rank.
   */
  lemma StartingPositionLayout()
    ensures |StartingPosition| == 64
    ensures forall i | 0 <= i < 8 :: StartingPosition[i] == Some(Piece(BackRank[i], Black))
    ensures forall i | 8 <= i < 16 :: StartingPosition[i] == Some(Piece(Pawn, Black))
    ensures forall i | 16 <= i < 48 :: StartingPosition[i] == None
    ensures forall i | 48 <= i < 56 :: StartingPosition[i] == Some(Piece(Pawn, White))
    ensures forall i | 56 <= i < 64 :: StartingPosition[i] == Some(Piece(BackRank[i - 56], White))
  {
    StartingText();
    forall i | 0 <= i < 8 ensures StartingPosition[i] == Some(Piece(BackRank[i], Black)) {
      StartingSquare(0, i);
    }
    forall i | 8 <= i < 16 ensures StartingPosition[i] == Some(Piece(Pawn, Black)) {
      StartingSquare(1, i - 8);
    }
    forall i | 16 <= i < 48 ensures StartingPosition[i] == None {
      StartingSquare(i / 8, i % 8);
    }
    forall i | 48 <= i < 56 ensures StartingPosition[i] == Some(Piece(Pawn, White)) {
      StartingSquare(6, i - 48);
    }
    forall i | 56 <= i < 64 ensures StartingPosition[i] == Some(Piece(BackRank[i - 56], White)) {
      StartingSquare(7, i - 56);
    }
  }

  /** Entry 8 * r + f of the starting position, by the letter at rank r, file f. */
  lemma StartingSquare(r: nat, f: nat)
    requires r < 8 && f < 8
    ensures |StartingPosition| == 64
    ensures StartingPosition[8 * r + f] ==
      if r == 0 then Some(Piece(BackRank[f], Black))
      else if r == 1 then Some(Piece(Pawn, Black))
      else if r == 6 then Some(Piece(Pawn, White))
      else if r == 7 then Some(Piece(BackRank[f], White))
      else None
  {
    StartingText();
    assert StartingPosition[8 * r + f] == CharToPiece(StartingRanks[r][f]);
    if r == 0 {
      BlackBackRank(f);
    } else if r == 7 {
      WhiteBackRank(f);
    } else if r == 1 {
      PawnRank(f);
      BlackLetter(Pawn);
    } else if r == 6 {
      PawnRank(f);
      WhiteLetter(Pawn);
    } else {
      EmptyRank(r, f);
      DotIsEmpty();
    }
  }

  lemma PawnRank(f: nat)
    requires f < 8
    ensures StartingRanks[1][f] == 'p' && StartingRanks[6][f] == 'P'
  {
  }

  lemma EmptyRank(r: nat, f: nat)
    requires 2 <= r < 6 && f < 8
    ensures StartingRanks[r][f] == '.'
  {
  }

  lemma BlackBackRank(f: nat)
    requires f < 8
    ensures CharToPiece(StartingRanks[0][f]) == Some(Piece(BackRank[f], Black))
  {
    assert StartingRanks[0] == "rnbqkbnr";
  }

  lemma WhiteBackRank(f: nat)
    requires f < 8
    ensures CharToPiece(StartingRanks[7][f]) == Some(Piece(BackRank[f], White))
  {
    assert StartingRanks[7] == "RNBQKBNR";
  }

  /** White moves first. */
  lemma FirstMoveIsWhite()
    ensures FirstMove == White
  {
  }
}
