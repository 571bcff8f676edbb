/** Value types of TexUI_module/datatype_extend.py: the integer `Position` with
    its component-wise arithmetic and its component-wise (not lexicographic)
    ordering, and the one-character check of `Character`. */
module DatatypeExtend {
  import opened Errors

  /** Python's floor division `a // b`. Dafny's `/` is Euclidean, which only
      agrees with flooring for a positive divisor. */
  function FloorDiv(a: int, b: int): (q: int)
    requires b != 0
    ensures b > 0 ==> b * q <= a < b * q + b
    ensures b < 0 ==> b * q + b < a <= b * q
  {
    if b > 0 then a / b else (-a) / (-b)
  }

  datatype Position = Position(x: int, y: int) {

    /** `__add__`: component-wise sum. */
    function Add(other: Position): Position {
      Position(x + other.x, y + other.y)
    }

    /** `__sub__`: component-wise difference. */
    function Sub(other: Position): Position {
      Position(x - other.x, y - other.y)
    }

    /** `__mul__`: both components scaled by the same integer. */
    function Mul(scalar: int): Position {
      Position(x * scalar, y * scalar)
    }

    /** `__truediv__`: floor division of each component; dividing by 0 fails. */
    function Div(scalar: int): (r: Result<Position>)
      ensures r.Failure? <==> scalar == 0
      ensures r.Failure? ==> r.error == DivideByZero
      ensures r.Success? && scalar > 0 ==>
        scalar * r.value.x <= x < scalar * r.value.x + scalar &&
        scalar * r.value.y <= y < scalar * r.value.y + scalar
      ensures r.Success? && scalar < 0 ==>
        scalar * r.value.x + scalar < x <= scalar * r.value.x &&
        scalar * r.value.y + scalar < y <= scalar * r.value.y
    {
      if scalar == 0 then Failure(DivideByZero)
      else Success(Position(FloorDiv(x, scalar), FloorDiv(y, scalar)))
    }

    /** `__eq__`: both components equal. */
    predicate Equals(other: Position) {
      x == other.x && y == other.y
    }

    /** `__lt__`: BOTH components strictly smaller. */
    predicate Lt(other: Position) {
      x < other.x && y < other.y
    }

    /** `__le__`: both components smaller or equal. */
    predicate Le(other: Position) {
      x <= other.x && y <= other.y
    }

    /** `__gt__`: both components strictly greater. */
    predicate Gt(other: Position) {
      x > other.x && y > other.y
    }

    /** `__ge__`: both components greater or equal. */
    predicate Ge(other: Position) {
      x >= other.x && y >= other.y
    }
  }

  lemma AddSubRoundTrip(p: Position, q: Position)
    ensures p.Add(q).Sub(q) == p
    ensures p.Sub(q).Add(q) == p
  {
  }

  lemma MulScalesBoth(p: Position, k: int)
    ensures p.Mul(k).x == k * p.x && p.Mul(k).y == k * p.y
    ensures p.Mul(1) == p
    ensures p.Mul(0) == Position(0, 0)
  {
  }

  /** Division really floors: -7 // 2 is -4 (Dafny's Euclidean -7 / 2 is also -4)
      and 7 // -2 is -4 (Dafny's Euclidean 7 / -2 is -3). */
  lemma DivFloorsNegative()
    ensures Position(-7, 7).Div(2) == Success(Position(-4, 3))
    ensures Position(7, -7).Div(-2) == Success(Position(-4, 3))
  {
    assert FloorDiv(7, -2) == -4;
    assert FloorDiv(-7, -2) == 3;
  }

  lemma EqualsIffSameComponents(p: Position, q: Position)
    ensures p.Equals(q) <==> p == q
  {
  }

  /** The ordering is not total: (0, 1) and (1, 0) are neither <, > nor ==. */
  lemma OrderNotTotal()
    ensures !Position(0, 1).Lt(Position(1, 0))
    ensures !Position(0, 1).Gt(Position(1, 0))
    ensures !Position(0, 1).Equals(Position(1, 0))
    ensures !Position(0, 1).Le(Position(1, 0)) && !Position(0, 1).Ge(Position(1, 0))
  {
  }

  lemma OrderRelations(p: Position, q: Position)
    ensures p.Lt(q) ==> p.Le(q)
    ensures p.Gt(q) <==> q.Lt(p)
    ensures p.Ge(q) <==> q.Le(p)
    ensures p.Le(q) && q.Le(p) <==> p.Equals(q)
    ensures !p.Lt(p)
  {
  }

  /** `Character(c)`: accepted exactly when `c` is a string of length one. */
  function CharacterOf(s: string): (r: Result<char>)
    ensures r.Success? <==> |s| == 1
    ensures r.Success? ==> [r.value] == s
    ensures r.Failure? ==> r.error == InvalidCharacter
  {
    if |s| == 1 then Success(s[0]) else Failure(InvalidCharacter)
  }

  /** Stand-in for `str.isprintable` on one character: control characters
      (C0, DEL, C1), the non-ASCII space separators, the line and paragraph
      separators, the common format characters and private-use code points are
      not printable; the plain space is. */
  predicate IsPrintable(c: char) {
    !(c < ' ' || ('\U{007F}' <= c <= '\U{00A0}') || c == '\U{00AD}'
      || ('\U{2000}' <= c <= '\U{200F}') || ('\U{2028}' <= c <= '\U{202F}')
      || ('\U{205F}' <= c <= '\U{206F}') || c == '\U{3000}' || c == '\U{FEFF}'
      || ('\U{E000}' <= c <= '\U{F8FF}'))
  }

  /** `s.isprintable()`: every character printable (true of ""). */
  predicate AllPrintable(s: string) {
    forall i :: 0 <= i < |s| ==> IsPrintable(s[i])
  }
}
