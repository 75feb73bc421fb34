# chess-lib position decoders, in Dafny

This project models the two text decoders of the chess-lib repository and proves what they compute.

- **The FEN decoder**: class `FenParser` and its helper `i64or` in test/fen-parser.ts.
  - It reads a six-field Forsyth-Edwards Notation record (section 16.1 of the PGN standard).
  - The piece placement becomes twelve bitboards, one per piece letter.
  - The castling field gives four flags.
  - The active-colour field gives "white" or "black".
  - The en-passant field is looked up in a square map.
  - The two counters go through numeric conversion.
- **The diagram decoder**: `pos` and `charToPiece` in src/lib.ts, with the `Player` and `PieceType` enums and the constants `firstMove` and `startingPosition`.
  - It strips whitespace from a plain-text board.
  - It maps every remaining character to a piece or to `undefined`.

Files:

- `bitboards.dfy` (module `Bitboards`): bitboards as natural numbers, with bit access and bitwise OR, AND and AND-NOT. Negative integers are read in two's complement, as BigInt reads them.
- `js_runtime.dfy` (module `JsRuntime`): the JavaScript built-ins the decoders use:
  - `split` and `join` on one separator;
  - unary `+` on decimal digits;
  - ToInt32;
  - the 32-bit `<<`.
- `lib.dfy` (module `Lib`): the diagram decoder.
- `fen_parser.dfy` (module `FenParser`): the FEN decoder with exact 64-bit shifts.
- `fen_examples.dfy` (module `FenParserExamples`): the cases of the source's table-driven tests, stated as lemmas. Most tables become one lemma whose parameters range over the table's rows. The piece-placement table becomes one lemma per row: RookPlacement, BishopPlacement, PawnPlacement and StartingPlacement.
- `fen_as_written.dfy` (module `FenParserAsWritten`): the placement decoder with JavaScript's 32-bit shift, and where it parts from the exact one (see Findings).

Bitboards are exact. When no `/`-token of the placement expands to more than eight squares, bit k of a piece's bitboard is square k % 8 of token k / 8 (FenParser.PlacementSquare). For an eight-token placement this holds even when the last token overflows (FenParser.RankByRank).

The en-passant square map and the named square constants live in src/squares.ts, which is not part of this model:
- `squareMap` is any map from square names to square values.
- The tests OR the square constants together (`a8 | h8`) and compare `enPassant` with them, so the constants are masks.
- Expected bitboards are stated by the bits they set. This assumes the layout where a8 is bit 0 and h8 is bit 7, which src/squares.ts would fix.

## Model

| member | source | states |
|---|---|---|
| JsRuntime.Split | test/fen-parser.ts:70 | `split` yields one field more than the separators in the input, so never an empty list |
| JsRuntime.JoinSplit | test/fen-parser.ts:70-76 | the fields `split` yields hold no separator and only characters of the input, and joining them back gives the input |
| JsRuntime.SplitJoin | test/fen-parser.ts:115-116 | splitting tokens that were joined on a separator they do not contain gives back exactly those tokens |
| JsRuntime.DecimalValue | test/fen-parser.ts:109-110 | unary `+` on a string of n decimal digits gives a value below 10^n |
| JsRuntime.DecimalString | test/fen-parser.ts:109-110 | the decimal spelling of a number is a non-empty string of digits |
| JsRuntime.DecimalRoundTrip | test/fen-parser.ts:109-110 | unary `+` applied to the decimal spelling of n gives n |
| JsRuntime.DecimalLeadingZero | test/fen-parser.ts:109-110 | a leading zero does not change the converted value |
| JsRuntime.ToInt32 | test/fen-parser.ts:118 | the result is a signed 32-bit integer congruent to the input modulo 2^32 |
| JsRuntime.JsShl | test/fen-parser.ts:118 | `x << n` is a signed 32-bit integer |
| JsRuntime.JsShlCongruent | test/fen-parser.ts:118 | `x << n` is x * 2^(n mod 32) reduced modulo 2^32: only the low five bits of the count matter |
| JsRuntime.DoublingsCongruent | test/fen-parser.ts:118 | k wrapped doublings of x are congruent to x * 2^k modulo 2^32 |
| Lib.CharToPiece | src/lib.ts:36-56 | a piece exactly for the twelve letters `PNBRQKpnbrqk`, and `undefined` for every other character; its owner is White exactly for upper case and Black exactly for lower case |
| Lib.Letter | src/lib.ts:37-49 | every (type, player) pair has a letter that `charToPiece` maps back to it |
| Lib.WhiteLetter | src/lib.ts:37-49 | each upper-case letter P N B R Q K decodes to its piece type, owned by White |
| Lib.BlackLetter | src/lib.ts:37-49 | each lower-case letter p n b r q k decodes to its piece type, owned by Black |
| Lib.LetterUnique | src/lib.ts:37-49 | a letter decoding to a piece is that piece's letter: the inverse round-trips |
| Lib.CharToPieceInjective | src/lib.ts:37-49 | two characters that decode to the same piece are the same letter |
| Lib.CaseDecidesOnlyOwner | src/lib.ts:37-49 | the two letters of a piece type differ only in ASCII case; the upper-case one decodes to that type owned by White, the lower-case one to that type owned by Black |
| Lib.DotIsEmpty | src/lib.ts:51-55 | `.` decodes to `undefined` |
| Lib.IsWhitespace | src/lib.ts:32 | no character that stands for a square, a piece letter or `.`, is whitespace, so stripping keeps every square |
| Lib.StripWhitespace | src/lib.ts:32 | removing whitespace leaves no whitespace and never lengthens the text |
| Lib.StripAppend | src/lib.ts:32 | whitespace removal works piece by piece over a concatenation |
| Lib.StripKeepsText | src/lib.ts:32 | text without whitespace is left unchanged |
| Lib.StripDropsWhitespace | src/lib.ts:32 | text made only of whitespace is removed entirely |
| Lib.Pos | src/lib.ts:31-34 | `pos` gives one entry per character left once whitespace is removed |
| Lib.PosAppend | src/lib.ts:31-34 | decoding a concatenation gives the two decodings one after the other |
| Lib.PosIgnoresWhitespace | src/lib.ts:31-34 | inserting or removing whitespace anywhere never changes the decoded list |
| Lib.PosOfText | src/lib.ts:31-34 | without whitespace, entry i is `charToPiece` of character i |
| Lib.StripIndented | src/lib.ts:16-25 | the indented, line-broken diagram loses exactly its line breaks and indentation |
| Lib.IndentedSquare | src/lib.ts:16-34 | for any diagram of eight-character lines without whitespace, each indented on its own line, `pos` gives one entry per character and entry 8r + f decodes character f of line r |
| Lib.StartingText | src/lib.ts:16-25 | `startingPosition` has 64 entries, and entry 8r + f decodes the letter in line r, column f of the diagram |
| Lib.StartingPositionLayout | src/lib.ts:16-25 | entries 0-7 are Black's back rank r n b q k b n r, 8-15 Black pawns, 16-47 empty, 48-55 White pawns, 56-63 White's back rank R N B Q K B N R |
| Lib.StartingSquare | src/lib.ts:16-25 | the entry of every square, by diagram line and column |
| Lib.PawnRank | src/lib.ts:18 | the second diagram line is all black pawns, and the seventh all white pawns |
| Lib.EmptyRank | src/lib.ts:19-22 | the four middle diagram lines are all `.` |
| Lib.BlackBackRank | src/lib.ts:17 | the first diagram line decodes to Black's back rank |
| Lib.WhiteBackRank | src/lib.ts:24 | the last diagram line decodes to White's back rank |
| Lib.FirstMoveIsWhite | src/lib.ts:14 | `firstMove` is White |
| FenParser.I64Or | test/fen-parser.ts:360-362 | `i64or` sets exactly the bits set in either operand, in two's complement, and keeps non-negative operands non-negative |
| FenParser.I64OrBound | test/fen-parser.ts:360-362 | OR of two 64-bit values stays below 2^64 |
| FenParser.OrAll | test/fen-parser.ts:121 | reducing a list with `i64or` sets exactly the bits set in some entry, and stays non-negative and below 2^64 when the entries do |
| FenParser.OrStep | test/fen-parser.ts:121 | ORing the next entry into the accumulated value sets exactly the bits set in some entry seen so far |
| FenParser.ExpandRank | test/fen-parser.ts:138-148 | an expanded rank contains no digit |
| FenParser.ExpandLetters | test/fen-parser.ts:138-148 | a rank without digits expands to itself |
| FenParser.ExpandRankLength | test/fen-parser.ts:138-148 | the expanded length is the sum of the digit values plus the number of other characters, so "9" gives nine squares |
| FenParser.ExpandKeepsLetters | test/fen-parser.ts:138-148 | expansion keeps every character that is neither a digit nor a space, in order, and adds no other |
| FenParser.ExpandAppend | test/fen-parser.ts:138-148 | expansion works character by character over a concatenation |
| FenParser.ExpandedFrom | test/fen-parser.ts:138-148 | every expanded square is a space or a character of the rank |
| FenParser.ParseRank | test/fen-parser.ts:125-136 | bit k is set exactly when square k of the expanded rank holds the letter, and no bit at or above 64 is set |
| FenParser.SquareMaskBit | test/fen-parser.ts:128-133 | the mask of square i has bit i alone when the square holds the letter, and no bit otherwise |
| FenParser.ParsePiece | test/fen-parser.ts:114-123 | bit k is set exactly when some token i, expanded, holds the letter at square k - 8i; the result is below 2^64 |
| FenParser.ShiftedRankBit | test/fen-parser.ts:118 | token i's rank value shifted by 8i sets exactly the bits 8i + f of its occupied squares f |
| FenParser.PlacementSquare | test/fen-parser.ts:114-123 | when every token expands to 1-8 squares, bit 8i + f is set exactly when token i holds the letter at square f |
| FenParser.PlacementsDisjoint | test/fen-parser.ts:114-123 | when every token expands to 1-8 squares, the bitboards of two different letters share no bit |
| FenParser.AbsentLetter | test/fen-parser.ts:114-123 | a letter absent from the placement gets an empty bitboard, so "8/8/8/8/8/8/8/8" gives twelve zeros |
| FenParser.Parse | test/fen-parser.ts:69-112 | every piece's bitboard is its letter's `parsePiece`. Each castling flag holds exactly when the field contains K, Q, k or q. `active` is "white" exactly when the field is "w", and "black" otherwise. `enPassant` is defined exactly when the field is a map key, and is then its value. The counters are the decimal values of their fields |
| FenParser.BitboardLetter | test/fen-parser.ts:78-106 | the twelve record slots are filled with the letter `charToPiece` assigns their (type, player) |
| FenParser.ParseSquares | test/fen-parser.ts:78-106 | bit k of a piece's bitboard is set exactly when the placement holds that piece's letter at square k |
| FenParser.BitboardsDisjoint | test/fen-parser.ts:78-106 | when no token overflows eight squares, no square is in two pieces' bitboards |
| FenParser.ParseFields | test/fen-parser.ts:69-112 | for any six space-free fields, each board field depends only on its own FEN field |
| FenParser.ParseCounters | test/fen-parser.ts:109-110 | counters written as decimal numbers decode to those numbers |
| FenParser.RankByRank | test/fen-parser.ts:114-123 | of an eight-token placement, bit k is square k % 8 of token k / 8, even when the last token overflows |
| FenParserExamples.RecordFields | test/fen-parser.ts:69-112 | the castling, active, en-passant and counter fields of a record decode as `parse` promises |
| FenParserExamples.RecordPlacement | test/fen-parser.ts:78-106 | a record's piece bitboard is `parsePiece` of its placement |
| FenParserExamples.AbsentPiece | test/fen-parser.ts:114-123 | a piece whose letter no token holds has an empty bitboard |
| FenParserExamples.MoveParsing | test/fen-parser.ts:151-170 | the fullmove fields "0", "1" and "58" decode to 0, 1 and 58 |
| FenParserExamples.FiftyMoveRuleParsing | test/fen-parser.ts:172-191 | the halfmove fields "0", "1" and "58" decode to 0, 1 and 58 |
| FenParserExamples.CounterValue | test/fen-parser.ts:151-191 | the counter strings of the tests, "0", "1" and "58", are digit strings that convert to 0, 1 and 58 |
| FenParserExamples.EnPassantParsing | test/fen-parser.ts:193-208 | "e3" gives the map's square for e3, and "-" gives none |
| FenParserExamples.ActiveParsing | test/fen-parser.ts:210-225 | "w" gives "white" and "b" gives "black" |
| FenParserExamples.CastlingRow | test/fen-parser.ts:227-261 | each expected castling row agrees with the letters its field holds |
| FenParserExamples.CastlingParsing | test/fen-parser.ts:227-268 | "KQkq" gives four rights, "Kq" White kingside and Black queenside only, "-" none |
| FenParserExamples.EmptySpelling | test/fen-parser.ts:153 | eight "8" tokens join to "8/8/8/8/8/8/8/8" |
| FenParserExamples.RookSpelling | test/fen-parser.ts:272 | the rook row joins to "r6r/8/8/8/8/8/8/8" |
| FenParserExamples.BishopSpelling | test/fen-parser.ts:291 | the bishop row joins to "2b2b2/8/8/8/8/8/8/8" |
| FenParserExamples.PawnSpelling | test/fen-parser.ts:310 | the pawn row joins to "8/pppppppp/8/8/8/8/8/9" |
| FenParserExamples.StartSpelling | test/fen-parser.ts:329 | the starting row joins to the standard starting placement |
| FenParserExamples.RowPlacement | test/fen-parser.ts:78-106 | a test record's piece bitboard is `parsePiece` of its placement |
| FenParserExamples.RecordSquare | test/fen-parser.ts:78-106 | bit k of a piece's bitboard is set exactly when square k % 8 of token k / 8 decodes, by `charToPiece`, to that piece |
| FenParserExamples.EmptyBoard | test/fen-parser.ts:153 | the empty placement gives twelve empty bitboards |
| FenParserExamples.RookShape | test/fen-parser.ts:272 | the rook placement has eight tokens of eight squares |
| FenParserExamples.RookSquare | test/fen-parser.ts:272 | squares 0 and 7 hold black rooks, and every other square nothing |
| FenParserExamples.RookPlacement | test/fen-parser.ts:271-289 | "r6r/..." sets bits 0 and 7 of the black rook bitboard (a8, h8) and no other bit of any bitboard |
| FenParserExamples.BishopShape | test/fen-parser.ts:291 | the bishop placement has eight tokens of eight squares |
| FenParserExamples.BishopSquare | test/fen-parser.ts:291 | squares 2 and 5 hold black bishops, and every other square nothing |
| FenParserExamples.BishopPlacement | test/fen-parser.ts:290-308 | "2b2b2/..." sets bits 2 and 5 of the black bishop bitboard (c8, f8) and no other bit of any bitboard |
| FenParserExamples.PawnShape | test/fen-parser.ts:310 | the pawn placement's first seven tokens expand to exactly eight squares, and the last to nine |
| FenParserExamples.PawnSquare | test/fen-parser.ts:310 | squares 8-15 hold black pawns, and every other square nothing |
| FenParserExamples.PawnPlacement | test/fen-parser.ts:309-327 | "8/pppppppp/.../9" sets bits 8-15 of the black pawn bitboard (a7-h7) and no other bit; the ninth square of the last token is cut off at bit 64 |
| FenParserExamples.StartLetters | test/fen-parser.ts:329 | the back and pawn tokens of the starting placement contain no digits |
| FenParserExamples.StartIsDiagram | test/fen-parser.ts:329 | those tokens are the lines of the diagram behind `startingPosition` |
| FenParserExamples.StartShape | test/fen-parser.ts:329 | the starting placement has eight tokens of eight squares |
| FenParserExamples.StartSquare | test/fen-parser.ts:329 | each expanded square of the starting placement decodes like the matching square of the diagram |
| FenParserExamples.DiagramSquare | src/lib.ts:16-25 | entry k of `startingPosition` decodes square k % 8 of diagram line k / 8 |
| FenParserExamples.StartingPlacement | test/fen-parser.ts:328-346 | the starting record sets bit k of a piece's bitboard exactly when entry k of `startingPosition` holds that piece |
| FenParserAsWritten.SmallShift | test/fen-parser.ts:129 | the 32-bit `1 << i` is 2^i for every i below 31 |
| FenParserAsWritten.SmallDoublings | test/fen-parser.ts:129 | fewer than 31 wrapped doublings of 1 give the exact power of two |
| FenParserAsWritten.ParseRankJs | test/fen-parser.ts:125-136 | `parseRank` with the 32-bit `1 << index` equals the exact rank value whenever the token expands to at most 31 squares |
| FenParserAsWritten.SmallRanksAgree | test/fen-parser.ts:125-136 | the 32-bit and exact masks reduce to the same rank value on ranks of at most 31 squares |
| FenParserAsWritten.ParsePieceJs | test/fen-parser.ts:114-123 | `parsePiece` as written equals the exact bitboard when every token expands to 1-8 squares and no square from 31 on holds the letter; it differs from it whenever one of squares 31-63 holds the letter |
| FenParserAsWritten.JsAgrees | test/fen-parser.ts:114-123 | on tokens of at most eight squares with no letter from square 31 on, the 32-bit and exact reductions give the same value |
| FenParserAsWritten.ShiftedAgree | test/fen-parser.ts:118 | under the same condition, token i's 32-bit `<< (i * 8)` is its exact 64-bit shift |
| FenParserAsWritten.ExactDoublings | test/fen-parser.ts:118 | while x * 2^k stays below 2^31, k wrapped doublings of x lose nothing |
| FenParserAsWritten.JsDiffers | test/fen-parser.ts:114-123 | a letter on one of squares 31-63 makes the 32-bit reduction differ from the exact bitboard `parsePiece` should give |
| FenParserAsWritten.Int32OrMisses | test/fen-parser.ts:121 | the `i64or` reduction of 32-bit integers never equals a value below 2^64 that has a bit from 31 on |
| FenParserAsWritten.ShiftCountWraps | test/fen-parser.ts:118 | the 32-bit shift by 8(i + 4) equals the shift by 8i: tokens four apart land on the same bits |
| FenParserAsWritten.TokenShift | test/fen-parser.ts:118 | a lone-pawn token's value shifted by 8i: 1 stays 1 at tokens 0 and 4, and 0 stays 0 |
| FenParserAsWritten.PawnRanks | test/fen-parser.ts:125-136 | as written, "p7" has rank value 1 and "8" has 0 |
| FenParserAsWritten.LonePawnJs | test/fen-parser.ts:114-123 | as written, a lone black pawn on the first square of token 0 and one on token 4 both decode to bitboard 1 |
| FenParserAsWritten.LoneToken | test/fen-parser.ts:114-123 | as written, on a lone-pawn board with the pawn in token 0 or 4, token i shifted by 8i is 1 for the pawn's token and 0 for every other |
| FenParserAsWritten.LonePawnExact | test/fen-parser.ts:114-123 | exactly, a lone pawn on the first square of token i sets bit 8i alone |
| FenParserAsWritten.RankFourAliasesRankZero | test/fen-parser.ts:118 | "p7/8/8/8/8/8/8/8" and "8/8/8/8/p7/8/8/8" decode to the same value 1 as written, while the exact bitboards differ: bit 32 set and bit 0 clear for the second |
| FenParserAsWritten.LastSquarePawn | test/fen-parser.ts:125-136 | "7p" has rank value 128 in both decoders |
| FenParserAsWritten.ShiftIntoSign | test/fen-parser.ts:118 | as written, `128 << 24` is -2^31, the 32-bit minimum |
| FenParserAsWritten.ExactShiftBelowSign | test/fen-parser.ts:118 | exactly, 128 shifted by 24 is 2^31 |
| FenParserAsWritten.SignBitShift | test/fen-parser.ts:118 | a pawn on the last square of token 3 gives a negative shifted rank as written, and bit 31 of a non-negative bitboard exactly |

## Left out

- FenParser.ParsePiece: uses an exact 64-bit shift where the source uses JavaScript's 32-bit `<<`. This follows what the source's tests expect. The 32-bit form is `FenParserAsWritten.ParsePieceJs`, whose contract says when the two agree; Findings shows where they part.
- FenParser.ParseRank: uses an exact `1 << index`. `FenParserAsWritten.ParseRankJs` shows it agrees with the 32-bit form only on tokens of at most 31 squares. Longer tokens are not compared.
- FenParser.I64Or: gives the exact BigInt OR. The source converts that back to a Number, and Numbers above 2^53 lose precision; that rounding is not modelled.
- FenParser.Parse: requires `ValidFen`. The source throws on two kinds of input it excludes:
  - fewer than three fields (`castling.includes` on `undefined`);
  - a placement token that expands to no square (`reduce` of an empty list).
- FenParser.Parse: `ValidFen` also excludes three to five fields. There the source does not throw, but returns values that are not modelled:
  - with three fields, `enPassant` is `squareMap[undefined]` and both counters are NaN;
  - with four fields, both counters are NaN;
  - with five fields, only `move` is NaN.
- FenParser.Parse: unary `+` is modelled only on strings of decimal digits. NaN, signs, fractions, hexadecimal and padded spellings are not modelled.
- FenParser.Parse: the counters are exact. Unary `+` yields a double, so a digit string above 2^53 rounds to a nearby double (`+"9007199254740993"` is 9007199254740992).
- JsRuntime.DecimalValue: gives the exact base-10 value, with no rounding to a double above 2^53.
- JsRuntime.DecimalRoundTrip: holds for every n in the model; in the source it holds only up to 2^53, since larger values round.
- FenParser.ParseCounters: the same rounding applies. Counters above 2^53 decode exactly here and rounded in the source.
- FenParser.Parse: `squareMap[enPassant]` is a plain map lookup. Keys inherited from JavaScript's object prototype are not modelled.
- Lib.StripWhitespace: strips the ASCII whitespace characters (space, tab, line feed, carriage return, vertical tab, form feed). The Unicode whitespace that `\s` also matches is not modelled.
- The numeric values of the `Player` and `PieceType` enums are not modelled; they are plain datatypes.
- src/squares.ts is not part of this model. `squareMap` and the square constants the tests use (a8, h8, …) are kept abstract, and expected bitboards are stated by bit index.
- test/first-move.ts imports `possibleMoves`, which src/lib.ts does not define, so there is no move generation to model.
- The Jest harness (`test`, `expect`, `forEach`) is not modelled. Its table rows are restated as lemmas over the rows.

## Findings

| source | as written | input that shows it | evidently intended | confidence | as-written member | corrected member |
|---|---|---|---|---|---|---|
| test/fen-parser.ts:118 | `parseRank(rank) << (index * 8)` is JavaScript's 32-bit shift, whose count is taken modulo 32 | "8/8/8/8/p7/8/8/8" and "p7/8/8/8/8/8/8/8" both decode to a black pawn bitboard of 1 | a 64-bit shift putting the first pawn on bit 32 | not executed | FenParserAsWritten.RankFourAliasesRankZero | FenParser.ParsePiece |
| test/fen-parser.ts:118 | the 32-bit shift result is a signed 32-bit integer | "7p" as token 3: 128 << 24 is -2^31 | a non-negative bitboard with bit 31 set | not executed | FenParserAsWritten.SignBitShift | FenParser.ShiftedRankBit |
