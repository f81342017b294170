/** A position on a world grid (GridPosition.hpp). The C++ class is a small
    value type that is copied everywhere, so it is a datatype here; its
    modifiers (Set, Shift, MakeInvalid) become functions returning the new
    value. A position made invalid by setting both coordinates to NaN is the
    constructor Invalid. */
module Position {
  import opened Wrappers
  import opened Decimal

  datatype GridPosition = Pos(x: int, y: int) | Invalid

  predicate IsValid(p: GridPosition) { p.Pos? }

  function Abs(n: int): nat { if n < 0 then -n else n }

  /** GridPosition::Shift (and operator+=): add to both coordinates; NaN stays NaN. */
  function Shift(p: GridPosition, dx: int, dy: int): (r: GridPosition)
    ensures r.Pos? <==> p.Pos?
    ensures r.Pos? ==> r.x - p.x == dx && r.y - p.y == dy
  {
    match p
    case Pos(x, y) => Pos(x + dx, y + dy)
    case Invalid => Invalid
  }

  /** GridPosition::GetOffset: the position at the given offset, this one unchanged. */
  function GetOffset(p: GridPosition, dx: int, dy: int): GridPosition
  {
    Shift(p, dx, dy)
  }

  /** Above, Below, ToLeft, ToRight: the neighbour dist cells away along one
      axis, up and left towards smaller coordinates; NaN stays NaN. */
  function Above(p: GridPosition, dist: int): (r: GridPosition)
    ensures r.Pos? <==> p.Pos?
    ensures r.Pos? ==> r.x == p.x && p.y - r.y == dist
  {
    GetOffset(p, 0, -dist)
  }

  function Below(p: GridPosition, dist: int): (r: GridPosition)
    ensures r.Pos? <==> p.Pos?
    ensures r.Pos? ==> r.x == p.x && r.y - p.y == dist
  {
    GetOffset(p, 0, dist)
  }

  function ToLeft(p: GridPosition, dist: int): (r: GridPosition)
    ensures r.Pos? <==> p.Pos?
    ensures r.Pos? ==> p.x - r.x == dist && r.y == p.y
  {
    GetOffset(p, -dist, 0)
  }

  function ToRight(p: GridPosition, dist: int): (r: GridPosition)
    ensures r.Pos? <==> p.Pos?
    ensures r.Pos? ==> r.x - p.x == dist && r.y == p.y
  {
    GetOffset(p, dist, 0)
  }

  /** The four neighbours move along one axis only, up and left towards smaller
      coordinates, and each lies dist away in Manhattan distance. */
  lemma NeighboursMoveOneAxis(p: GridPosition, dist: int)
    requires p.Pos?
    ensures Above(p, dist) == Pos(p.x, p.y - dist) && Below(p, dist) == Pos(p.x, p.y + dist)
    ensures ToLeft(p, dist) == Pos(p.x - dist, p.y) && ToRight(p, dist) == Pos(p.x + dist, p.y)
    ensures MDistance(p, Above(p, dist)) == Some(Abs(dist))
    ensures MDistance(p, ToRight(p, dist)) == Some(Abs(dist))
  {
  }

  /** Shifting back by the negated amounts restores the position. */
  lemma ShiftUndo(p: GridPosition, dx: int, dy: int)
    ensures Shift(Shift(p, dx, dy), -dx, -dy) == p
  {
  }

  /** The defaulted operator== of GridPosition: equal coordinates, where a
      NaN coordinate is equal to nothing, not even itself. */
  function SamePosition(p: GridPosition, q: GridPosition): (r: bool)
    ensures r <==> p.Pos? && p == q
    ensures r <==> MDistance(p, q) == Some(0)
  {
    match (p, q)
    case (Pos(x1, y1), Pos(x2, y2)) => x1 == x2 && y1 == y2
    case _ => false
  }

  /** GridPosition::MDistance: the Manhattan distance; NaN coordinates make the
      result NaN, which is None here. */
  function MDistance(p: GridPosition, q: GridPosition): (r: Option<nat>)
    ensures r.Some? <==> p.Pos? && q.Pos?
    ensures r.Some? ==> r.value == Abs(p.x - q.x) + Abs(p.y - q.y)
  {
    if p.Pos? && q.Pos? then Some(Abs(p.x - q.x) + Abs(p.y - q.y)) else None
  }

  /** The Manhattan distance is a metric on valid positions. */
  lemma MDistanceMetric(p: GridPosition, q: GridPosition, s: GridPosition)
    requires p.Pos? && q.Pos? && s.Pos?
    ensures MDistance(p, q) == MDistance(q, p)
    ensures MDistance(p, q) == Some(0) <==> p == q
    ensures MDistance(p, s).value <= MDistance(p, q).value + MDistance(q, s).value
  {
  }

  /** GridPosition::IsNear: squared Euclidean distance at most max_dist squared.
      A comparison involving NaN is false, and a valid position is near
      itself whatever the distance. */
  function IsNear(p: GridPosition, q: GridPosition, maxDist: int): (b: bool)
    ensures b ==> p.Pos? && q.Pos?
    ensures p.Pos? && p == q ==> b
  {
    p.Pos? && q.Pos? &&
    (p.x - q.x) * (p.x - q.x) + (p.y - q.y) * (p.y - q.y) <= maxDist * maxDist
  }

  /** Every position within Manhattan distance maxDist is near, and nearness
      does not depend on the order of the two positions. */
  lemma {:induction false} NearWithinManhattan(p: GridPosition, q: GridPosition, maxDist: nat)
    requires p.Pos? && q.Pos?
    requires MDistance(p, q).value <= maxDist
    ensures IsNear(p, q, maxDist) && IsNear(q, p, maxDist)
  {
    var a, b := Abs(p.x - q.x), Abs(p.y - q.y);
    SquareOfAbs(p.x - q.x);
    SquareOfAbs(p.y - q.y);
    SquareOfAbs(q.x - p.x);
    SquareOfAbs(q.y - p.y);
    SumOfSquares(a, b, maxDist);
  }

  lemma SquareOfAbs(d: int)
    ensures d * d == Abs(d) * Abs(d)
  {
  }

  /** a² + b² stays within m² when a + b does not exceed m. */
  lemma SumOfSquares(a: nat, b: nat, m: nat)
    requires a + b <= m
    ensures a * a + b * b <= m * m
  {
    assert a * a + b * b <= (a + b) * (a + b);
    MulMonotone(a + b, m);
  }

  lemma MulMonotone(u: nat, v: nat)
    requires u <= v
    ensures u * u <= v * v
  {
  }

  /** GridPosition::ToString: "(x,y)"; the NaN position prints as "(nan,nan)". */
  function ToString(p: GridPosition): (s: string)
    ensures |s| >= 5 && s[0] == '(' && s[|s| - 1] == ')' && ',' in s
  {
    match p
    case Pos(x, y) => "(" + IntToString(x) + "," + IntToString(y) + ")"
    case Invalid => "(nan,nan)"
  }

  /** Skip the white space `is >> c` skips before reading a character. */
  function SkipSpace(s: string): (t: string)
    ensures |t| <= |s|
  {
    s[SkipSpaces(s, 0)..]
  }

  /** `is >> ch` followed by the check `ch == c`: the rest of the stream when
      the next non-blank character is c, None otherwise. */
  function ExpectChar(s: string, c: char): (r: Option<string>)
    ensures r.Some? ==> |r.value| < |s| && r.value == s[|s| - |r.value|..]
  {
    var t := SkipSpace(s);
    if t != [] && t[0] == c then Some(t[1..]) else None
  }

  lemma ExpectCharOf(c: char, rest: string)
    requires !IsSpace(c)
    ensures ExpectChar([c] + rest, c) == Some(rest)
  {
    SkipSpacesOver([c] + rest, 0, 0);
  }

  /** GridPosition::FromString / FromStream: the text must be "(x,y)" (white
      space allowed before each part); any deviation makes the position
      invalid. Text after the closing parenthesis is not read. */
  function FromString(s: string): (r: GridPosition)
    ensures ExpectChar(s, '(').None? ==> r == Invalid
    ensures r.Pos? ==> ExpectChar(s, '(').Some? && ExtractInt(ExpectChar(s, '(').value).Some?
  {
    match ExpectChar(s, '(')
    case None => Invalid
    case Some(r0) =>
      match ExtractInt(r0)
      case None => Invalid
      case Some((x, r1)) =>
        match ReadCommaY(r1)
        case None => Invalid
        case Some(y) => Pos(x, y)
  }

  /** The part of FromString after x: ",y)". */
  function ReadCommaY(r1: string): Option<int>
  {
    match ExpectChar(r1, ',')
    case None => None
    case Some(r2) => ReadYClose(r2)
  }

  /** The part of FromString after the comma: "y)". */
  function ReadYClose(r2: string): Option<int>
  {
    match ExtractInt(r2)
    case None => None
    case Some((y, r3)) => if ExpectChar(r3, ')').Some? then Some(y) else None
  }

  /** FromString reads back what ToString wrote, for every valid position. */
  lemma FromStringToString(p: GridPosition, rest: string)
    requires p.Pos?
    ensures FromString(ToString(p) + rest) == p
  {
    var xs := IntToString(p.x);
    var r1 := [','] + (IntToString(p.y) + ([')'] + rest));
    assert ToString(p) + rest == ['('] + (xs + r1);
    ExpectCharOf('(', xs + r1);
    ExtractIntOfIntToString(p.x, r1);
    ReadCommaYOf(p.y, rest);
  }

  lemma ReadCommaYOf(y: int, rest: string)
    ensures ReadCommaY([','] + (IntToString(y) + ([')'] + rest))) == Some(y)
  {
    var r2 := [')'] + rest;
    ExpectCharOf(',', IntToString(y) + r2);
    ReadYCloseOf(y, rest);
  }

  lemma ReadYCloseOf(y: int, rest: string)
    ensures ReadYClose(IntToString(y) + ([')'] + rest)) == Some(y)
  {
    ExtractIntOfIntToString(y, [')'] + rest);
    ExpectCharOf(')', rest);
  }

  /** Text without a comma or without a closing parenthesis is always rejected. */
  lemma FromStringRejects(s: string)
    requires ',' !in s || ')' !in s
    ensures FromString(s) == Invalid
  {
    match ExpectChar(s, '(')
    case None =>
    case Some(r0) =>
      match ExtractInt(r0)
      case None =>
      case Some((x, r1)) =>
        assert r1 == s[|s| - |r1|..];
        NotInSuffix(s, r1, ',');
        NotInSuffix(s, r1, ')');
        ReadCommaYRejects(r1);
  }

  lemma ReadCommaYRejects(r1: string)
    requires ',' !in r1 || ')' !in r1
    ensures ReadCommaY(r1).None?
  {
    if ',' !in r1 {
      NotExpected(r1, ',');
    } else {
      match ExpectChar(r1, ',')
      case None =>
      case Some(r2) =>
        match ExtractInt(r2)
        case None =>
        case Some((y, r3)) =>
          assert r3 == r2[|r2| - |r3|..];
          NotInSuffix(r2, r3, ')');
          NotInSuffix(r1, r2, ')');
          NotExpected(r3, ')');
    }
  }

  lemma NotInSuffix(s: string, r: string, c: char)
    requires |r| <= |s| && r == s[|s| - |r|..]
    ensures c !in s ==> c !in r
  {
    if c !in s {
      forall i | 0 <= i < |r| ensures r[i] != c {
        assert r[i] == s[|s| - |r| + i];
      }
    }
  }

  lemma NotExpected(r: string, c: char)
    requires c !in r
    ensures ExpectChar(r, c).None?
  {
    var t := SkipSpace(r);
    if t != [] {
      assert t[0] == r[SkipSpaces(r, 0)];
    }
  }
}
