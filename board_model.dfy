/**
 * The chess board as a value: 64 slots, slot `i` holding the occupant of the square
 * `IndexToSquare(i)` or nothing. This module gives the reference definitions the board
 * operations are proved against (decoding, encoding, the default layout, the slot updates
 * and the lookups) and the laws relating them.
 */
module BoardModel {
  import opened Wrappers
  import opened Squares
  import opened Pieces

  const BoardSize: nat := 64

  /** The character of an empty square in the textual board. */
  const EmptyChar: char := '.'

  type Slot = Option<Piece>

  /** The two ways decoding a textual board fails. */
  datatype BoardError =
    | InvalidBoardSize(numSquares: nat)
    | UnrecognizedGlyph(index: nat, glyph: char)

  /* ---------------------------------------------------------------- glyphs */

  /**
   * The character the board writes for a slot: the empty marker exactly for an empty slot,
   * `str()` of the occupant otherwise, and always a character of the board alphabet.
   */
  function SlotChar(slot: Slot): (c: char)
    ensures c == EmptyChar <==> slot.None?
    ensures slot.Some? ==> c == Str(slot.value)
    ensures IsBoardChar(c)
  {
    match slot
    case None => EmptyChar
    case Some(p) => if p.color == White then WhiteGlyph(p.kind) else BlackGlyph(p.kind)
  }

  /**
   * The kind and colour a glyph stands for, tried in the decoder's order. Exactly the twelve
   * glyphs decode, each to white or black and to the piece that renders as it.
   */
  function DecodeGlyph(c: char): (r: Option<(Kind, Color)>)
    ensures r.None? <==> forall k :: c != WhiteGlyph(k) && c != BlackGlyph(k)
    ensures r.Some? ==> r.value.1 == White || r.value.1 == Black
    ensures r.Some? ==> c == if r.value.1 == White then WhiteGlyph(r.value.0) else BlackGlyph(r.value.0)
  {
    if c == WhiteGlyph(Bishop) then Some((Bishop, White))
    else if c == BlackGlyph(Bishop) then Some((Bishop, Black))
    else if c == WhiteGlyph(Rook) then Some((Rook, White))
    else if c == BlackGlyph(Rook) then Some((Rook, Black))
    else if c == WhiteGlyph(Knight) then Some((Knight, White))
    else if c == BlackGlyph(Knight) then Some((Knight, Black))
    else if c == WhiteGlyph(King) then Some((King, White))
    else if c == BlackGlyph(King) then Some((King, Black))
    else if c == WhiteGlyph(Queen) then Some((Queen, White))
    else if c == BlackGlyph(Queen) then Some((Queen, Black))
    else if c == WhiteGlyph(Pawn) then Some((Pawn, White))
    else if c == BlackGlyph(Pawn) then Some((Pawn, Black))
    else None
  }

  /** The alphabet of the textual board: the empty marker and the twelve glyphs. */
  predicate IsBoardChar(c: char)
  {
    c == EmptyChar || DecodeGlyph(c).Some?
  }

  /** Decoding the glyph of a piece gives back its kind and its side. */
  lemma DecodeGlyphOfStr(p: Piece)
    ensures DecodeGlyph(Str(p)) == Some((p.kind, if p.color == White then White else Black))
  {
  }

  /** A glyph that decodes is the glyph of the piece it decodes to, and never the marker. */
  lemma StrOfDecodeGlyph(c: char, value: int, id: nat)
    requires DecodeGlyph(c).Some?
    ensures c != EmptyChar
    ensures DecodeGlyph(c).value.1 == White || DecodeGlyph(c).value.1 == Black
    ensures Str(Piece(DecodeGlyph(c).value.0, DecodeGlyph(c).value.1, value, id)) == c
  {
  }

  /* -------------------------------------------------------------- decoding */

  /** The slot decoded from one character; the new piece gets `id` as its identity. */
  function DecodeSlot(c: char, id: nat): (slot: Slot)
    requires IsBoardChar(c)
    ensures slot.None? <==> c == EmptyChar
    ensures SlotChar(slot) == c
    ensures slot.Some? ==> slot.value.id == id && slot.value.value == KindValue(slot.value.kind)
    ensures slot.Some? ==> slot.value.color == White || slot.value.color == Black
  {
    if c == EmptyChar then None
    else
      var (k, color) := DecodeGlyph(c).value;
      StrOfDecodeGlyph(c, KindValue(k), id);
      Some(NewPiece(k, color, id))
  }

  /** The position of the first character outside the board alphabet, if there is one. */
  function FirstBadChar(s: string): (r: Option<nat>)
    ensures r.Some? ==> r.value < |s| && !IsBoardChar(s[r.value])
    ensures r.Some? ==> forall j :: 0 <= j < r.value ==> IsBoardChar(s[j])
    ensures r.None? <==> forall j :: 0 <= j < |s| ==> IsBoardChar(s[j])
  {
    if s == [] then None
    else if !IsBoardChar(s[0]) then Some(0)
    else
      match FirstBadChar(s[1..])
      case None => None
      case Some(j) => Some(j + 1)
  }

  /** What a decoded slot says about the character it came from. */
  ghost predicate DecodedFrom(b: seq<Slot>, s: string, i: int)
    requires 0 <= i < |b| && i < |s|
  {
    && (b[i].None? <==> s[i] == EmptyChar)
    && SlotChar(b[i]) == s[i]
    && (b[i].Some? ==> b[i].value.id == i && b[i].value.value == KindValue(b[i].value.kind))
    && (b[i].Some? ==> b[i].value.color == White || b[i].value.color == Black)
  }

  /**
   * Decoding a textual board: character `i` fills slot `i`. A length other than 64 is a
   * size error; otherwise the first character outside the alphabet is a glyph error.
   */
  function DecodeBoard(s: string): (r: Result<seq<Slot>, BoardError>)
    ensures (r.Failure? && r.error.InvalidBoardSize?) <==> |s| != BoardSize
    ensures r.Failure? && r.error.InvalidBoardSize? ==> r.error.numSquares == |s|
    ensures r.Failure? && r.error.UnrecognizedGlyph? ==>
      && r.error.index < |s|
      && r.error.glyph == s[r.error.index]
      && !IsBoardChar(s[r.error.index])
      && (forall j :: 0 <= j < r.error.index ==> IsBoardChar(s[j]))
    ensures r.Success? <==> |s| == BoardSize && forall j :: 0 <= j < |s| ==> IsBoardChar(s[j])
    ensures r.Success? ==> |r.value| == BoardSize
    ensures r.Success? ==> forall i :: 0 <= i < BoardSize ==> DecodedFrom(r.value, s, i)
  {
    if |s| != BoardSize then Failure(InvalidBoardSize(|s|))
    else
      match FirstBadChar(s)
      case Some(i) => Failure(UnrecognizedGlyph(i, s[i]))
      case None => Success(seq(BoardSize, i requires 0 <= i < BoardSize => DecodeSlot(s[i], i)))
  }

  /** No piece of a decoded board stands on two slots: slot `i`'s piece has identity `i`. */
  lemma DecodedPiecesDistinct(s: string, i: int, j: int)
    requires DecodeBoard(s).Success?
    requires 0 <= i < BoardSize && 0 <= j < BoardSize
    requires DecodeBoard(s).value[i].Some? && DecodeBoard(s).value[i] == DecodeBoard(s).value[j]
    ensures i == j
  {
    var b := DecodeBoard(s).value;
    assert DecodedFrom(b, s, i);
    assert DecodedFrom(b, s, j);
  }

  /* -------------------------------------------------------------- encoding */

  /**
   * The slot written at output position `k`. From white's side the rows run 7 down to 0
   * and each row's columns 0 up to 7; from any other side the rows run 0 up to 7 and the
   * columns 7 down to 0.
   */
  function SourceSlot(k: int, perspective: Color): (i: Index)
    requires 0 <= k < BoardSize
  {
    if perspective == White then 8 * (7 - k / 8) + k % 8 else 8 * (k / 8) + (7 - k % 8)
  }

  /**
   * The 64-character text of a board seen from `perspective`; it uses only the board
   * alphabet.
   */
  function EncodeBoard(b: seq<Slot>, perspective: Color): (s: string)
    requires |b| == BoardSize
    ensures |s| == BoardSize
    ensures forall k :: 0 <= k < BoardSize ==> IsBoardChar(s[k])
  {
    seq(BoardSize, k requires 0 <= k < BoardSize => SlotChar(b[SourceSlot(k, perspective)]))
  }

  /** From white's side, slot `col + 8 * row` is written at position `(7 - row) * 8 + col`. */
  lemma EncodeWhiteAt(b: seq<Slot>, row: Coord, col: Coord)
    requires |b| == BoardSize
    ensures EncodeBoard(b, White)[(7 - row) * 8 + col] == SlotChar(b[col + 8 * row])
  {
    var k := (7 - row) * 8 + col;
    assert k / 8 == 7 - row && k % 8 == col;
  }

  /** From any other side, slot `col + 8 * row` is written at position `row * 8 + (7 - col)`. */
  lemma EncodeOtherAt(b: seq<Slot>, perspective: Color, row: Coord, col: Coord)
    requires |b| == BoardSize && perspective != White
    ensures EncodeBoard(b, perspective)[row * 8 + (7 - col)] == SlotChar(b[col + 8 * row])
  {
    var k := row * 8 + (7 - col);
    assert k / 8 == row && k % 8 == 7 - col;
  }

  /** Reading a position twice through the same traversal returns to it. */
  lemma SourceSlotInvolution(k: int, perspective: Color)
    requires 0 <= k < BoardSize
    ensures SourceSlot(SourceSlot(k, perspective), perspective) == k
  {
    var i := SourceSlot(k, perspective);
    if perspective == White {
      assert i / 8 == 7 - k / 8 && i % 8 == k % 8;
    } else {
      assert i / 8 == k / 8 && i % 8 == 7 - k % 8;
    }
  }

  /* ------------------------------------------- rank orders of a board text */

  /** The text with its consecutive 8-character ranks in reverse order. */
  function ReverseRanks(s: string): string
    decreases |s|
  {
    if |s| < 8 then s else ReverseRanks(s[8..]) + s[..8]
  }

  /** The characters in reverse order. */
  function Reverse(s: string): (r: string)
    ensures |r| == |s|
  {
    seq(|s|, i requires 0 <= i < |s| => s[|s| - 1 - i])
  }

  /** The text with each consecutive 8-character rank reversed in place. */
  function MirrorRanks(s: string): string
    decreases |s|
  {
    if |s| < 8 then s else Reverse(s[..8]) + MirrorRanks(s[8..])
  }

  lemma {:induction false} ReverseRanksAt(s: string, n: nat)
    requires |s| == 8 * n
    ensures |ReverseRanks(s)| == |s|
    ensures forall k :: 0 <= k < |s| ==> ReverseRanks(s)[k] == s[8 * (n - 1 - k / 8) + k % 8]
  {
    if n > 0 {
      var rest := s[8..];
      ReverseRanksAt(rest, n - 1);
      var r := ReverseRanks(s);
      assert r == ReverseRanks(rest) + s[..8];
      forall k | 0 <= k < |s|
        ensures r[k] == s[8 * (n - 1 - k / 8) + k % 8]
      {
        if k < 8 * (n - 1) {
          assert r[k] == rest[8 * (n - 2 - k / 8) + k % 8];
        } else {
          assert k / 8 == n - 1;
          assert r[k] == s[k - 8 * (n - 1)];
        }
      }
    }
  }

  lemma {:induction false} MirrorRanksAt(s: string, n: nat)
    requires |s| == 8 * n
    ensures |MirrorRanks(s)| == |s|
    ensures forall k :: 0 <= k < |s| ==> MirrorRanks(s)[k] == s[8 * (k / 8) + (7 - k % 8)]
  {
    if n > 0 {
      var rest := s[8..];
      MirrorRanksAt(rest, n - 1);
      var r := MirrorRanks(s);
      assert r == Reverse(s[..8]) + MirrorRanks(rest);
      forall k | 0 <= k < |s|
        ensures r[k] == s[8 * (k / 8) + (7 - k % 8)]
      {
        if k >= 8 {
          assert (k - 8) / 8 == k / 8 - 1 && (k - 8) % 8 == k % 8;
          assert r[k] == rest[8 * ((k - 8) / 8) + (7 - (k - 8) % 8)];
        } else {
          assert r[k] == s[7 - k];
        }
      }
    }
  }

  /**
   * Writing a decoded board from white's side gives the decoded text with its eight
   * ranks in reverse order: the decoder reads slot 0 (a1) first, the white encoding
   * writes rank 8 first.
   */
  lemma WhiteEncodingOfDecoded(s: string)
    requires DecodeBoard(s).Success?
    ensures EncodeBoard(DecodeBoard(s).value, White) == ReverseRanks(s)
  {
    var b := DecodeBoard(s).value;
    ReverseRanksAt(s, 8);
    forall k | 0 <= k < BoardSize
      ensures EncodeBoard(b, White)[k] == ReverseRanks(s)[k]
    {
      assert DecodedFrom(b, s, SourceSlot(k, White));
    }
  }

  /**
   * Writing a decoded board from any side other than white's gives the decoded text with
   * each rank reversed in place.
   */
  lemma OtherEncodingOfDecoded(s: string, perspective: Color)
    requires DecodeBoard(s).Success? && perspective != White
    ensures EncodeBoard(DecodeBoard(s).value, perspective) == MirrorRanks(s)
  {
    var b := DecodeBoard(s).value;
    MirrorRanksAt(s, 8);
    forall k | 0 <= k < BoardSize
      ensures EncodeBoard(b, perspective)[k] == MirrorRanks(s)[k]
    {
      assert DecodedFrom(b, s, SourceSlot(k, perspective));
    }
  }

  /** The order in which a text written from `perspective` lists the slots 0..63 again. */
  function ReadOrder(s: string, perspective: Color): string
  {
    if perspective == White then ReverseRanks(s) else MirrorRanks(s)
  }

  /**
   * Encoding a board, restoring slot order and decoding gives a board with the same empty
   * squares, and on every occupied square a piece of the same kind and the same side.
   */
  lemma DecodeOfEncoding(b: seq<Slot>, perspective: Color)
    requires |b| == BoardSize
    ensures DecodeBoard(ReadOrder(EncodeBoard(b, perspective), perspective)).Success?
    ensures forall i :: 0 <= i < BoardSize ==>
      var d := DecodeBoard(ReadOrder(EncodeBoard(b, perspective), perspective)).value[i];
      && (d.None? <==> b[i].None?)
      && (d.Some? ==> d.value.kind == b[i].value.kind)
      && (d.Some? ==> (d.value.color == White <==> b[i].value.color == White))
  {
    var e := EncodeBoard(b, perspective);
    var t := ReadOrder(e, perspective);
    ReverseRanksAt(e, 8);
    MirrorRanksAt(e, 8);
    assert |t| == BoardSize;
    forall i | 0 <= i < BoardSize
      ensures t[i] == SlotChar(b[i])
    {
      SourceSlotInvolution(i, perspective);
      assert t[i] == e[SourceSlot(i, perspective)];
    }
    var d := DecodeBoard(t).value;
    forall i | 0 <= i < BoardSize
      ensures (d[i].None? <==> b[i].None?)
      ensures d[i].Some? ==> d[i].value.kind == b[i].value.kind
      ensures d[i].Some? ==> (d[i].value.color == White <==> b[i].value.color == White)
    {
      assert DecodedFrom(d, t, i);
      if b[i].Some? {
        GlyphTable();
        assert SlotChar(d[i]) == SlotChar(b[i]);
        StrInjective(d[i].value, b[i].value);
      }
    }
  }

  /* -------------------------------------------------------- default layout */

  /** The back-rank kinds, file a to file h. */
  function BackRank(file: Coord): Kind
  {
    match file
    case 0 => Rook
    case 1 => Knight
    case 2 => Bishop
    case 3 => Queen
    case 4 => King
    case 5 => Bishop
    case 6 => Knight
    case _ => Rook
  }

  /**
   * The starting occupant of a slot: the white back rank on slots 0..7 (rank 1), white
   * pawns on 8..15, nothing on 16..47, black pawns on 48..55 and the black back rank on
   * 56..63 (rank 8). Each piece's identity is its slot.
   */
  function DefaultSlot(i: Index): Slot
  {
    if i < 8 then Some(NewPiece(BackRank(i), White, i))
    else if i < 16 then Some(NewPiece(Pawn, White, i))
    else if i < 48 then None
    else if i < 56 then Some(NewPiece(Pawn, Black, i))
    else Some(NewPiece(BackRank(i - 56), Black, i))
  }

  /**
   * The standard starting position: the occupied slots below 16 are white and those from 48
   * on are black, and each piece's identity is its slot.
   */
  function DefaultLayout(): (b: seq<Slot>)
    ensures |b| == BoardSize
    ensures forall i :: 0 <= i < BoardSize && b[i].Some? ==> (b[i].value.color == White <==> i < 16)
    ensures forall i :: 0 <= i < BoardSize && b[i].Some? ==> (b[i].value.color == Black <==> 48 <= i)
    ensures forall i :: 0 <= i < BoardSize && b[i].Some? ==> b[i].value.id == i
  {
    seq(BoardSize, i requires 0 <= i < BoardSize => DefaultSlot(i))
  }

  predicate IsPawnOf(slot: Slot, color: Color)
  {
    slot.Some? && slot.value.kind == Pawn && slot.value.color == color
  }

  /** White pawns stand on exactly slots 8..15 and black pawns on exactly slots 48..55. */
  lemma DefaultPawns()
    ensures forall i :: 0 <= i < BoardSize ==> (IsPawnOf(DefaultLayout()[i], White) <==> 8 <= i < 16)
    ensures forall i :: 0 <= i < BoardSize ==> (IsPawnOf(DefaultLayout()[i], Black) <==> 48 <= i < 56)
  {
  }

  /** Rank 1 holds R, N, B, Q, K, B, N, R in white and rank 8 the same in black. */
  lemma DefaultBackRanks(file: Coord)
    ensures DefaultLayout()[SquareToIndex(Square(file, 0))] == Some(NewPiece(BackRank(file), White, file))
    ensures DefaultLayout()[SquareToIndex(Square(file, 7))] == Some(NewPiece(BackRank(file), Black, 56 + file))
  {
    assert SquareToIndex(Square(file, 0)) == file;
    assert SquareToIndex(Square(file, 7)) == 56 + file;
    assert DefaultSlot(file) == Some(NewPiece(BackRank(file), White, file));
    assert DefaultSlot(56 + file) == Some(NewPiece(BackRank(file), Black, 56 + file));
  }

  /** The empty slots of the starting position are exactly slots 16..47. */
  lemma DefaultEmptyMiddle()
    ensures forall i :: 0 <= i < BoardSize ==> (DefaultLayout()[i].None? <==> 16 <= i < 48)
  {
  }

  /** No piece of the starting position appears in two slots. */
  lemma DefaultPiecesDistinct()
    ensures forall i, j :: 0 <= i < BoardSize && 0 <= j < BoardSize && DefaultLayout()[i].Some? && DefaultLayout()[i] == DefaultLayout()[j] ==> i == j
  {
  }

  const WhiteBackRankText: string := "RNBQKBNR"
  const WhitePawnText: string := "PPPPPPPP"
  const EmptyRankText: string := "........"
  const BlackPawnText: string := "pppppppp"
  const BlackBackRankText: string := "rnbqkbnr"

  /** The starting position written from white's side: rank 8 first, rank 1 last. */
  const StartWhiteView: string :=
    BlackBackRankText + BlackPawnText + EmptyRankText + EmptyRankText +
    EmptyRankText + EmptyRankText + WhitePawnText + WhiteBackRankText

  /** The starting text as the decoder reads it, slot 0 (a1) first. */
  const StartSlotOrder: string :=
    WhiteBackRankText + (WhitePawnText + (EmptyRankText + (EmptyRankText +
    (EmptyRankText + (EmptyRankText + (BlackPawnText + BlackBackRankText))))))

  /** The glyphs of the back rank read R, N, B, Q, K, B, N, R in white and in black. */
  lemma BackRankGlyphs(file: Coord)
    ensures WhiteGlyph(BackRank(file)) == "RNBQKBNR"[file]
    ensures BlackGlyph(BackRank(file)) == "rnbqkbnr"[file]
  {
  }

  /** Slot `i` of the starting position is written as character `i` of the slot-order text. */
  lemma DefaultSlotChar(i: Index)
    ensures SlotChar(DefaultSlot(i)) == StartSlotOrder[i]
  {
    if i < 8 {
      BackRankGlyphs(i);
    } else if i >= 56 {
      BackRankGlyphs(i - 56);
    }
  }

  /** Decoding the slot-order starting text rebuilds the starting position exactly. */
  lemma DecodeStartSlotOrder()
    ensures DecodeBoard(StartSlotOrder) == Success(DefaultLayout())
  {
    var s := StartSlotOrder;
    forall j | 0 <= j < |s|
      ensures IsBoardChar(s[j])
    {
      DefaultSlotChar(j);
    }
    var b := DecodeBoard(s).value;
    forall i | 0 <= i < BoardSize
      ensures b[i] == DefaultLayout()[i]
    {
      assert DecodedFrom(b, s, i);
      DefaultSlotChar(i);
      var d := DefaultSlot(i);
      if d.Some? {
        StrInjective(b[i].value, d.value);
      }
    }
    assert |b| == BoardSize;
    assert b == DefaultLayout();
  }

  /** Reversing the ranks of a text moves its first rank to the end. */
  lemma ReverseRanksCons(rank: string, t: string)
    requires |rank| == 8
    ensures ReverseRanks(rank + t) == ReverseRanks(t) + rank
  {
    assert (rank + t)[8..] == t;
    assert (rank + t)[..8] == rank;
  }

  /** The starting position written from white's side is the standard text. */
  lemma EncodeStartFromWhite()
    ensures EncodeBoard(DefaultLayout(), White) == StartWhiteView
  {
    DecodeStartSlotOrder();
    WhiteEncodingOfDecoded(StartSlotOrder);
    var wb, wp, e, bp, bb := WhiteBackRankText, WhitePawnText, EmptyRankText, BlackPawnText, BlackBackRankText;
    assert ReverseRanks(bb) == bb by {
      ReverseRanksCons(bb, []);
      assert bb + [] == bb;
    }
    ReverseRanksCons(bp, bb);
    ReverseRanksCons(e, bp + bb);
    ReverseRanksCons(e, e + (bp + bb));
    ReverseRanksCons(e, e + (e + (bp + bb)));
    ReverseRanksCons(e, e + (e + (e + (bp + bb))));
    ReverseRanksCons(wp, e + (e + (e + (e + (bp + bb)))));
    ReverseRanksCons(wb, wp + (e + (e + (e + (e + (bp + bb))))));
    assert ReverseRanks(StartSlotOrder) == StartWhiteView;
  }

  /**
   * Decoding the white view of the starting position does not give the starting
   * position back: its e1 holds the black King and its e8 the white King.
   */
  lemma DecodeStartWhiteViewFlips()
    ensures DecodeBoard(StartWhiteView).Success?
    ensures DecodeBoard(StartWhiteView).value[SquareToIndex(Square(4, 0))] == Some(NewPiece(King, Black, 4))
    ensures DecodeBoard(StartWhiteView).value[SquareToIndex(Square(4, 7))] == Some(NewPiece(King, White, 60))
  {
    var s := StartWhiteView;
    EncodeStartFromWhite();
    var b := DecodeBoard(s).value;
    assert DecodedFrom(b, s, 4);
    assert DecodedFrom(b, s, 60);
  }

  /* ------------------------------------------------------------ occupants */

  /** Whether a piece passes the optional colour filter. */
  predicate Keeps(p: Piece, color: Option<Color>)
  {
    color.None? || p.color == color.value
  }

  predicate Kept(slot: Slot, color: Option<Color>)
  {
    slot.Some? && Keeps(slot.value, color)
  }

  /** The occupants of the slots in ascending slot order, keeping only `color` if given. */
  function Occupants(b: seq<Slot>, color: Option<Color>): (r: seq<Piece>)
    ensures |r| <= |b|
    ensures forall p :: p in r ==> Keeps(p, color)
  {
    if b == [] then []
    else
      var rest := Occupants(b[1..], color);
      if Kept(b[0], color) then [b[0].value] + rest else rest
  }

  /** The listed pieces are exactly the occupants of slots that pass the filter. */
  lemma {:induction false} OccupantsMembers(b: seq<Slot>, color: Option<Color>)
    ensures forall p :: p in Occupants(b, color) <==> exists i :: 0 <= i < |b| && b[i] == Some(p) && Keeps(p, color)
  {
    if b != [] {
      OccupantsMembers(b[1..], color);
      assert forall i :: 1 <= i < |b| ==> b[i] == b[1..][i - 1];
      forall p | (exists i :: 0 <= i < |b| && b[i] == Some(p) && Keeps(p, color))
        ensures p in Occupants(b, color)
      {
        var i :| 0 <= i < |b| && b[i] == Some(p) && Keeps(p, color);
        if i > 0 {
          assert b[1..][i - 1] == Some(p);
        }
      }
    }
  }

  /** Occupants of consecutive runs of slots are listed one run after the other. */
  lemma {:induction false} OccupantsAppend(b1: seq<Slot>, b2: seq<Slot>, color: Option<Color>)
    ensures Occupants(b1 + b2, color) == Occupants(b1, color) + Occupants(b2, color)
  {
    if b1 == [] {
      assert b1 + b2 == b2;
    } else {
      assert (b1 + b2)[0] == b1[0];
      assert (b1 + b2)[1..] == b1[1..] + b2;
      OccupantsAppend(b1[1..], b2, color);
    }
  }

  /** A run of slots none of which passes the filter lists no occupant. */
  lemma {:induction false} OccupantsNoneKept(b: seq<Slot>, color: Option<Color>)
    requires forall i :: 0 <= i < |b| ==> !Kept(b[i], color)
    ensures Occupants(b, color) == []
  {
    if b != [] {
      OccupantsNoneKept(b[1..], color);
    }
  }

  /** A run of slots every one of which passes the filter lists one occupant per slot. */
  lemma {:induction false} OccupantsAllKept(b: seq<Slot>, color: Option<Color>)
    requires forall i :: 0 <= i < |b| ==> Kept(b[i], color)
    ensures |Occupants(b, color)| == |b|
  {
    if b != [] {
      OccupantsAllKept(b[1..], color);
    }
  }

  /** Slots 0..15 hold white pieces, 16..47 nothing and 48..63 black pieces. */
  lemma DefaultRuns()
    ensures forall i :: 0 <= i < 16 ==> DefaultLayout()[i].Some? && DefaultLayout()[i].value.color == White
    ensures forall i :: 16 <= i < 48 ==> DefaultLayout()[i].None?
    ensures forall i :: 48 <= i < BoardSize ==> DefaultLayout()[i].Some? && DefaultLayout()[i].value.color == Black
  {
  }

  /** A run of empty slots contributes nothing to the occupant list. */
  lemma OccupantsSkipEmpty(b: seq<Slot>, lo: nat, hi: nat, color: Option<Color>)
    requires lo <= hi <= |b|
    requires forall i :: lo <= i < hi ==> b[i].None?
    ensures Occupants(b, color) == Occupants(b[..lo], color) + Occupants(b[hi..], color)
  {
    var mid := b[lo..hi];
    assert b == b[..lo] + (mid + b[hi..]);
    OccupantsAppend(b[..lo], mid + b[hi..], color);
    OccupantsAppend(mid, b[hi..], color);
    assert forall i :: 0 <= i < |mid| ==> mid[i] == b[lo + i];
    OccupantsNoneKept(mid, color);
  }

  /** The occupants of the starting position are those of its first two and last two ranks. */
  lemma DefaultSplit(color: Option<Color>)
    ensures Occupants(DefaultLayout(), color) == Occupants(DefaultLayout()[..16], color) + Occupants(DefaultLayout()[48..], color)
  {
    assert forall i :: 16 <= i < 48 ==> DefaultLayout()[i].None?;
    OccupantsSkipEmpty(DefaultLayout(), 16, 48, color);
  }

  /** A run of slots all holding pieces of one colour lists all of them, and none for another colour. */
  lemma OneColorRun(r: seq<Slot>, color: Color, other: Color)
    requires forall i :: 0 <= i < |r| ==> r[i].Some? && r[i].value.color == color
    requires other != color
    ensures |Occupants(r, None)| == |r| && |Occupants(r, Some(color))| == |r|
    ensures Occupants(r, Some(other)) == []
  {
    OccupantsAllKept(r, None);
    OccupantsAllKept(r, Some(color));
    OccupantsNoneKept(r, Some(other));
  }

  /** The first two ranks hold 16 pieces, all white. */
  lemma DefaultLowRuns()
    ensures |Occupants(DefaultLayout()[..16], None)| == 16
    ensures |Occupants(DefaultLayout()[..16], Some(White))| == 16
    ensures Occupants(DefaultLayout()[..16], Some(Black)) == []
  {
    var lo := DefaultLayout()[..16];
    DefaultRuns();
    assert forall i :: 0 <= i < 16 ==> lo[i] == DefaultLayout()[i];
    assert White != Black;
    OneColorRun(lo, White, Black);
  }

  /** The last two ranks hold 16 pieces, all black. */
  lemma DefaultHighRuns()
    ensures |Occupants(DefaultLayout()[48..], None)| == 16
    ensures |Occupants(DefaultLayout()[48..], Some(Black))| == 16
    ensures Occupants(DefaultLayout()[48..], Some(White)) == []
  {
    var hi := DefaultLayout()[48..];
    DefaultRuns();
    assert forall i :: 0 <= i < 16 ==> hi[i] == DefaultLayout()[48 + i];
    assert White != Black;
    OneColorRun(hi, Black, White);
  }

  /** The starting position has 32 pieces, 16 of each colour. */
  lemma DefaultPieceCount()
    ensures |Occupants(DefaultLayout(), None)| == 32
    ensures |Occupants(DefaultLayout(), Some(White))| == 16
    ensures |Occupants(DefaultLayout(), Some(Black))| == 16
  {
    DefaultLowRuns();
    DefaultHighRuns();
    DefaultSplit(None);
    DefaultSplit(Some(White));
    DefaultSplit(Some(Black));
  }

  /* ------------------------------------------------------------------ kings */

  predicate IsKingOf(slot: Slot, color: Color)
  {
    slot.Some? && slot.value.kind == King && slot.value.color == color
  }

  /** The lowest slot holding a King of `color`, if any. */
  function KingIndex(b: seq<Slot>, color: Color): (r: Option<nat>)
    ensures r.Some? ==> r.value < |b| && IsKingOf(b[r.value], color)
    ensures r.Some? ==> forall j :: 0 <= j < r.value ==> !IsKingOf(b[j], color)
    ensures r.None? <==> forall j :: 0 <= j < |b| ==> !IsKingOf(b[j], color)
  {
    if b == [] then None
    else if IsKingOf(b[0], color) then Some(0)
    else
      match KingIndex(b[1..], color)
      case None => None
      case Some(j) => Some(j + 1)
  }

  /**
   * The first King in the colour-filtered occupant list is the occupant of the lowest slot
   * holding a King of that colour.
   */
  lemma {:induction false} FirstKingOfOccupants(b: seq<Slot>, color: Color, k: nat)
    requires k < |Occupants(b, Some(color))|
    requires Occupants(b, Some(color))[k].kind == King
    requires forall j :: 0 <= j < k ==> Occupants(b, Some(color))[j].kind != King
    ensures KingIndex(b, color).Some?
    ensures b[KingIndex(b, color).value] == Some(Occupants(b, Some(color))[k])
  {
    var occ := Occupants(b, Some(color));
    var rest := Occupants(b[1..], Some(color));
    if IsKingOf(b[0], color) {
      assert occ[0] == b[0].value;
      assert k == 0;
    } else if Kept(b[0], Some(color)) {
      assert occ == [b[0].value] + rest;
      assert occ[0].kind != King;
      assert forall j :: 0 <= j < |rest| ==> rest[j] == occ[j + 1];
      FirstKingOfOccupants(b[1..], color, k - 1);
    } else {
      assert occ == rest;
      FirstKingOfOccupants(b[1..], color, k);
    }
  }

  /* ------------------------------------------------------------ slot updates */

  /** `move`: the occupant of `from` is copied to `to`, then `from` is cleared. */
  function Moved(b: seq<Slot>, from: nat, to: nat): (r: seq<Slot>)
    requires from < |b| && to < |b|
    ensures |r| == |b|
    ensures r[from] == None
    ensures to != from ==> r[to] == b[from]
    ensures forall i :: 0 <= i < |b| && i != from && i != to ==> r[i] == b[i]
  {
    b[to := b[from]][from := None]
  }

  /** `swap_pieces`: the occupants of the two slots change places. */
  function Swapped(b: seq<Slot>, i: nat, j: nat): (r: seq<Slot>)
    requires i < |b| && j < |b|
    ensures |r| == |b|
    ensures r[i] == b[j] && r[j] == b[i]
    ensures forall k :: 0 <= k < |b| && k != i && k != j ==> r[k] == b[k]
  {
    b[i := b[j]][j := b[i]]
  }

  /** Swapping the same pair twice restores the board. */
  lemma SwapTwice(b: seq<Slot>, i: nat, j: nat)
    requires i < |b| && j < |b|
    ensures Swapped(Swapped(b, i, j), i, j) == b
  {
    var r := Swapped(Swapped(b, i, j), i, j);
    assert forall k :: 0 <= k < |b| ==> r[k] == b[k];
  }

  /** Swapping a slot with itself changes nothing. */
  lemma SwapSelf(b: seq<Slot>, i: nat)
    requires i < |b|
    ensures Swapped(b, i, i) == b
  {
  }

  /** The order of the two squares does not matter. */
  lemma SwapSymmetric(b: seq<Slot>, i: nat, j: nat)
    requires i < |b| && j < |b|
    ensures Swapped(b, i, j) == Swapped(b, j, i)
  {
  }

  /** Swapping rearranges the slots and keeps every occupant. */
  lemma SwapPermutes(b: seq<Slot>, i: nat, j: nat)
    requires i < |b| && j < |b|
    ensures multiset(Swapped(b, i, j)) == multiset(b)
  {
    if i != j {
      calc {
        multiset(Swapped(b, i, j));
        multiset(b[i := b[j]][j := b[i]]);
        multiset(b[i := b[j]]) - multiset{b[i := b[j]][j]} + multiset{b[i]};
        multiset(b) - multiset{b[i]} + multiset{b[j]} - multiset{b[j]} + multiset{b[i]};
        multiset(b);
      }
    }
  }

  /** Moving to an empty square and back again restores the board. */
  lemma MoveBack(b: seq<Slot>, from: nat, to: nat)
    requires from < |b| && to < |b| && from != to && b[to].None?
    ensures Moved(Moved(b, from, to), to, from) == b
  {
    var r := Moved(Moved(b, from, to), to, from);
    assert forall k :: 0 <= k < |b| ==> r[k] == b[k];
  }

  /** Moving a2 to a4 on the starting position empties a2 and puts the same a2 pawn on a4. */
  lemma DefaultMoveA2A4()
    ensures var a2, a4 := SquareToIndex(Square(0, 1)), SquareToIndex(Square(0, 3));
      && Moved(DefaultLayout(), a2, a4)[a2] == None
      && Moved(DefaultLayout(), a2, a4)[a4] == Some(NewPiece(Pawn, White, 8))
      && Moved(DefaultLayout(), a2, a4)[a4] == DefaultLayout()[a2]
  {
  }

  /** Moving a square onto itself empties it. */
  lemma MoveOntoItself(b: seq<Slot>, sq: nat)
    requires sq < |b|
    ensures Moved(b, sq, sq) == b[sq := None]
  {
  }
}
