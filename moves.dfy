/** History snapshots and the human-readable description of the move that produced each. */
module Moves {
  import opened Rules

  /** Coordinate labels `(col,row)`, both 1-based, indexed by cell. */
  const HumanReadableCoordinates: seq<string> := [
    "(1,1)", "(2,1)", "(3,1)",
    "(1,2)", "(2,2)", "(3,2)",
    "(1,3)", "(2,3)", "(3,3)"
  ]

  /** The label of the snapshot: the sentinel first entry, or move `number` by `player` at `cell`. */
  datatype Description = GameStart | Move(number: nat, player: Mark, cell: Cell)

  /** One history entry: the board after the move and the move's description. */
  datatype Snapshot = Snapshot(squares: Board, description: Description)

  const StartSnapshot := Snapshot(EmptyBoard, GameStart)

  /** How a mark is written in descriptions and status lines. */
  function MarkName(m: Mark): string
  {
    match m
    case X => "X"
    case O => "O"
    case Empty => ""
  }

  predicate IsDigit(c: char)
  {
    '0' <= c <= '9'
  }

  function DigitChar(d: nat): (c: char)
    requires d < 10
    ensures IsDigit(c)
  {
    (48 + d) as char
  }

  function DigitValue(c: char): (d: nat)
    requires IsDigit(c)
    ensures d < 10
  {
    (c as int - 48) as nat
  }

  /** Decimal rendering of a number, as template-literal interpolation produces it. */
  function NatToString(n: nat): (s: string)
    ensures |s| >= 1
    ensures forall c | c in s :: IsDigit(c)
    ensures s[0] == '0' <==> n == 0
    ensures s[0] == '0' ==> |s| == 1
    decreases n
  {
    if n < 10 then [DigitChar(n)] else NatToString(n / 10) + [DigitChar(n % 10)]
  }

  /** Reading a decimal string back (the partner of NatToString). */
  function StringToNat(s: string): nat
    requires forall c | c in s :: IsDigit(c)
    decreases |s|
  {
    if s == [] then 0 else StringToNat(s[..|s| - 1]) * 10 + DigitValue(s[|s| - 1])
  }

  /** A rendered move number reads back as the same number. */
  lemma {:induction false} NatToStringRoundTrip(n: nat)
    ensures StringToNat(NatToString(n)) == n
    decreases n
  {
    var s := NatToString(n);
    if n < 10 {
      assert s[..|s| - 1] == [];
    } else {
      NatToStringRoundTrip(n / 10);
      assert s[..|s| - 1] == NatToString(n / 10);
    }
  }

  /** A string of zeros reads as 0. */
  lemma {:induction false} ZeroValueMeansZeros(s: string)
    requires forall c | c in s :: IsDigit(c)
    requires StringToNat(s) == 0
    ensures forall k | 0 <= k < |s| :: s[k] == '0'
    decreases |s|
  {
    if s != [] {
      var front := s[..|s| - 1];
      ZeroValueMeansZeros(front);
      forall k | 0 <= k < |s| ensures s[k] == '0' {
        if k < |s| - 1 {
          assert s[k] == front[k];
        }
      }
    }
  }

  /**
   * Every digit string without a leading zero is the rendering of the number it
   * reads as: together with the round trip, the rendering is the unique
   * canonical decimal form.
   */
  lemma {:induction false} NatToStringCanonical(s: string)
    requires |s| >= 1 && forall c | c in s :: IsDigit(c)
    requires s[0] == '0' ==> |s| == 1
    ensures NatToString(StringToNat(s)) == s
    decreases |s|
  {
    var front := s[..|s| - 1];
    var d := DigitValue(s[|s| - 1]);
    assert DigitChar(d) == s[|s| - 1];
    if |s| == 1 {
      assert front == [];
    } else {
      assert front[0] == s[0];
      if StringToNat(front) == 0 {
        ZeroValueMeansZeros(front);
        assert false;
      }
      NatToStringCanonical(front);
      var n := StringToNat(s);
      assert n / 10 == StringToNat(front) && n % 10 == d;
      assert s == front + [s[|s| - 1]];
    }
  }

  /** The coordinate label of a cell is `(col+1,row+1)` with col = i % 3, row = i / 3. */
  lemma CoordinateLabel(i: Cell)
    ensures HumanReadableCoordinates[i] ==
              "(" + NatToString(i % 3 + 1) + "," + NatToString(i / 3 + 1) + ")"
  {
    match i
    case 0 => case 1 => case 2 => case 3 => case 4 =>
    case 5 => case 6 => case 7 => case 8 =>
  }

  /**
   * The text shown for a history entry: the sentinel reads `Game start`, and a
   * text starts with `Move ` exactly when it describes a move (see `MoveText`).
   */
  function DescriptionText(d: Description): (t: string)
    ensures d.GameStart? ==> t == "Game start"
    ensures |t| >= 5 && (t[..5] == "Move " <==> d.Move?)
  {
    match d
    case GameStart =>
      assert "Game start"[..5][0] == 'G';
      "Game start"
    case Move(k, p, i) =>
      "Move " + NatToString(k) + ": " + MarkName(p) + " to " + HumanReadableCoordinates[i]
  }

  /**
   * The text of a move is `Move k: P to (c,r)`: the move number reads back from
   * it, and (c,r) are the 1-based column and row of the cell.
   */
  lemma MoveText(k: nat, p: Mark, i: Cell)
    ensures var digits := NatToString(k);
            && StringToNat(digits) == k
            && DescriptionText(Move(k, p, i)) ==
                 "Move " + digits + ": " + MarkName(p) + " to " +
                 "(" + NatToString(i % 3 + 1) + "," + NatToString(i / 3 + 1) + ")"
  {
    NatToStringRoundTrip(k);
    CoordinateLabel(i);
  }
}
