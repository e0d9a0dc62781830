/** A board coordinate: an immutable (row, column) pair compared by value. */
module Positions {

  /** The values a Java `Object` reference can hold when it is handed to
      `equals`: no object, a position, or an object of some other class. */
  datatype Obj = Null | PositionObj(pos: Position) | OtherObj

  datatype Position = Position(row: int, column: int) {

    function GetRow(): int {
      row
    }

    function GetColumn(): int {
      column
    }

    /** Value equality: a null reference and objects of another class are
        never equal; two positions are equal when both fields agree. The
        reference-identity shortcut of the source returns true only for the
        same object, whose fields trivially agree, so it needs no case here. */
    function Equals(o: Obj): (eq: bool)
      ensures eq <==> o == PositionObj(this)
    {
      match o
      case Null => false
      case OtherObj => false
      case PositionObj(c) => GetRow() == c.GetRow() && GetColumn() == c.GetColumn()
    }

    /** `Objects.hash(row, column)`, that is `31 * (31 * 1 + row) + column`
        evaluated in 32-bit two's-complement arithmetic. */
    function HashCode(): (h: int)
      ensures MinInt <= h <= MaxInt
      ensures (h - (961 + 31 * row + column)) % 0x1_0000_0000 == 0
    {
      Wrap32(31 * (31 * 1 + row) + column)
    }
  }

  const MinInt: int := -0x8000_0000
  const MaxInt: int := 0x7fff_ffff

  /** The 32-bit two's-complement value congruent to `x`, as Java's `int`
      arithmetic produces it. */
  function Wrap32(x: int): (w: int)
    ensures MinInt <= w <= MaxInt
    ensures (w - x) % 0x1_0000_0000 == 0
    ensures MinInt <= x <= MaxInt ==> w == x
  {
    var m := x % 0x1_0000_0000;
    if m <= MaxInt then m else m - 0x1_0000_0000
  }

  lemma ConstructorStoresArguments(row: int, column: int)
    ensures Position(row, column).GetRow() == row
    ensures Position(row, column).GetColumn() == column
  {
  }

  lemma EqualsReflexive(p: Position)
    ensures p.Equals(PositionObj(p))
  {
  }

  lemma EqualsSymmetric(p: Position, q: Position)
    ensures p.Equals(PositionObj(q)) == q.Equals(PositionObj(p))
  {
  }

  lemma EqualsRejectsNonPositions(p: Position)
    ensures !p.Equals(Null) && !p.Equals(OtherObj)
  {
  }

  /** Equal positions hash alike, so a hash set deduplicates by cell. */
  lemma HashConsistentWithEquals(p: Position, q: Position)
    requires p.Equals(PositionObj(q))
    ensures p.HashCode() == q.HashCode()
  {
  }
}
