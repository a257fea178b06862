/** The height schedule shared by the two wall managers (Assets/Scripts/WallManagement.cs and
    the copy nested in Assets/Scripts/SpawnScript.cs): a move record, the time and height
    interpolations, and how a grid value seeds a wall's height quality. Floats are reals. */
module Interpolation {

  /** The values of a C# `uint`. */
  type uint = x: int | 0 <= x < 0x1_0000_0000

  const UintMax: uint := 0xFFFF_FFFF

  /** `x - 1` on a uint: 0 wraps to UintMax. */
  function Dec(x: uint): (r: uint)
    ensures x > 0 ==> r + 1 == x
    ensures x == 0 ==> r == UintMax
  {
    if x == 0 then UintMax else x - 1
  }

  /** `x + 1` on a uint: UintMax wraps to 0. */
  function Inc(x: uint): (r: uint)
    ensures x < UintMax ==> r == x + 1
    ensures x == UintMax ==> r == 0
  {
    if x == UintMax then 0 else x + 1
  }

  /** One scheduled move: the wall at (wallRow, wallCol) goes from height quality
      startHeightQuality at startTime to endHeightQuality at endTime. */
  datatype InterpData = InterpData(
    startHeightQuality: real,
    endHeightQuality: real,
    startTime: real,
    endTime: real,
    wallRow: uint,
    wallCol: uint)

  /** Where x lies between a and b, as a fraction of the way from a to b. */
  function Quality(x: real, a: real, b: real): (q: real)
    requires a != b
    ensures Linterp(q, a, b) == x
    ensures q == 0.0 <==> x == a
    ensures q == 1.0 <==> x == b
  {
    var q := (x - a) / (b - a);
    assert q * (b - a) == x - a;
    ProductSign(q, b - a);
    ProductSign(q - 1.0, b - a);
    assert (q - 1.0) * (b - a) == x - b;
    q
  }

  /** The sign of x * y follows the sign of x when y is not zero. */
  lemma ProductSign(x: real, y: real)
    requires y != 0.0
    ensures x * y == 0.0 <==> x == 0.0
    ensures y > 0.0 ==> (x * y < 0.0 <==> x < 0.0) && (x * y > 0.0 <==> x > 0.0)
  {
  }

  /** The point a fraction q of the way from a to b. */
  function Linterp(q: real, a: real, b: real): (r: real)
    ensures q == 0.0 ==> r == a
    ensures q == 1.0 ==> r == b
  {
    q * (b - a) + a
  }

  /** A fraction in [0, 1] interpolates to a point between the two ends, in either order. */
  lemma LinterpBetween(q: real, a: real, b: real)
    requires 0.0 <= q <= 1.0
    ensures a <= b ==> a <= Linterp(q, a, b) <= b
    ensures b <= a ==> b <= Linterp(q, a, b) <= a
  {
    if a <= b {
      ProductNonNegative(q, b - a);
      ProductNonNegative(1.0 - q, b - a);
    } else {
      ProductNonNegative(q, a - b);
      ProductNonNegative(1.0 - q, a - b);
    }
  }

  lemma ProductNonNegative(x: real, y: real)
    requires 0.0 <= x && 0.0 <= y
    ensures 0.0 <= x * y
  {
  }

  /** Quality undoes Linterp: the fraction recovered from the interpolated point is q. */
  lemma QualityOfLinterp(q: real, a: real, b: real)
    requires a != b
    ensures Quality(Linterp(q, a, b), a, b) == q
  {
    var x := Linterp(q, a, b);
    var p := Quality(x, a, b);
    assert p * (b - a) + a == q * (b - a) + a;
    assert (p - q) * (b - a) == 0.0;
  }

  /** On an increasing interval, the quality is below 0 exactly before a, above 1 exactly
      after b, and otherwise a fraction in [0, 1]. */
  lemma QualityRange(x: real, a: real, b: real)
    requires a != b
    ensures a < b ==> (Quality(x, a, b) < 0.0 <==> x < a)
    ensures a < b ==> (Quality(x, a, b) > 1.0 <==> x > b)
    ensures a < b ==> (0.0 <= Quality(x, a, b) <= 1.0 <==> a <= x <= b)
  {
    var q := Quality(x, a, b);
    assert q * (b - a) == x - a;
    assert (q - 1.0) * (b - a) == x - b;
    ProductSign(q, b - a);
    ProductSign(q - 1.0, b - a);
  }

  /** The vertical position of a wall of the given height whose height quality is h:
      quality 0 sinks it so that its top is at ground level, quality 1 raises it so that its
      base is at ground level; in general its top stands h * wallHeight above the ground. */
  function YPos(wallHeight: real, h: real): (y: real)
    ensures y + wallHeight / 2.0 == h * wallHeight
    ensures h == 0.0 ==> y == -wallHeight / 2.0
    ensures h == 1.0 ==> y == wallHeight / 2.0
  {
    Linterp(h, -wallHeight / 2.0, wallHeight / 2.0)
  }

  /** The height quality a wall starts with: 1 (raised) over a wall cell, 0 (sunk) over a
      maze cell, 0.5 for any other grid value. */
  function SeedQuality(cellValue: int, wallValue: int, mazeValue: int): (q: real)
    requires wallValue != mazeValue
    ensures q == 1.0 <==> cellValue == wallValue
    ensures q == 0.0 <==> cellValue == mazeValue
    ensures q == 0.5 <==> cellValue != wallValue && cellValue != mazeValue
  {
    if cellValue == wallValue then 1.0
    else if cellValue == mazeValue then 0.0
    else 0.5
  }

  /** Where `quality(now, startTime, endTime)` falls against the tests `< 0` and `> 1` of the
      managers' Update loops. */
  datatype Phase = NotStarted | Running(q: real) | Finished | Undefined

  /** The float division of `quality` taken at its word: with startTime == endTime it divides
      by zero, which gives +infinity after the start (Finished), -infinity before it
      (NotStarted) and NaN at it (Undefined: neither test holds). */
  function TimePhase(now: real, d: InterpData): (p: Phase)
    ensures d.startTime < d.endTime ==>
      && (p == NotStarted <==> now < d.startTime)
      && (p == Finished <==> now > d.endTime)
      && (p.Running? <==> d.startTime <= now <= d.endTime)
    ensures p.Running? ==> 0.0 <= p.q <= 1.0 && Linterp(p.q, d.startTime, d.endTime) == now
    ensures p == Undefined <==> d.startTime == d.endTime == now
  {
    if d.startTime == d.endTime then
      if now > d.startTime then Finished
      else if now < d.startTime then NotStarted
      else Undefined
    else
      var q := Quality(now, d.startTime, d.endTime);
      QualityRange(now, d.startTime, d.endTime);
      if q < 0.0 then NotStarted
      else if q > 1.0 then Finished
      else Running(q)
  }

  predicate InUnit(x: real) {
    0.0 <= x <= 1.0
  }

  /** A move between two qualities in [0, 1] keeps its wall's position between the sunk
      position -wallHeight/2 and the raised one wallHeight/2. */
  lemma YPosBetween(wallHeight: real, q: real, a: real, b: real)
    requires 0.0 <= wallHeight && 0.0 <= q <= 1.0 && 0.0 <= a <= 1.0 && 0.0 <= b <= 1.0
    ensures -wallHeight / 2.0 <= YPos(wallHeight, Linterp(q, a, b)) <= wallHeight / 2.0
  {
    var x := Linterp(q, a, b);
    LinterpBetween(q, a, b);
    ProductNonNegative(x, wallHeight);
    ProductNonNegative(1.0 - x, wallHeight);
  }

  /** How many entries of s target the wall at (r, c). */
  function CountAt(s: seq<InterpData>, r: int, c: int): (n: nat)
    ensures n <= |s|
  {
    if s == [] then 0
    else
      var last := s[|s| - 1];
      CountAt(s[..|s| - 1], r, c) + (if last.wallRow == r && last.wallCol == c then 1 else 0)
  }

  /** No entry targets (r, c) exactly when the count there is 0. */
  lemma {:induction false} CountAtZero(s: seq<InterpData>, r: int, c: int)
    ensures CountAt(s, r, c) == 0 <==> forall d :: d in s ==> !(d.wallRow == r && d.wallCol == c)
    decreases |s|
  {
    if s != [] {
      var last := s[|s| - 1];
      assert forall d :: d in s ==> d in s[..|s| - 1] || d == last;
      assert last in s;
      CountAtZero(s[..|s| - 1], r, c);
    }
  }

  lemma CountAtSnoc(s: seq<InterpData>, d: InterpData, r: int, c: int)
    ensures CountAt(s + [d], r, c) == CountAt(s, r, c) + (if d.wallRow == r && d.wallCol == c then 1 else 0)
  {
    assert (s + [d])[..|s|] == s;
  }

  lemma {:induction false} CountAtAppend(s: seq<InterpData>, t: seq<InterpData>, r: int, c: int)
    ensures CountAt(s + t, r, c) == CountAt(s, r, c) + CountAt(t, r, c)
    decreases |t|
  {
    if t != [] {
      var t' := t[..|t| - 1];
      assert (s + t)[..|s + t| - 1] == s + t';
      assert (s + t)[|s + t| - 1] == t[|t| - 1];
      CountAtAppend(s, t', r, c);
    } else {
      assert s + t == s;
    }
  }

  // Two facts about sequences that the managers' Update loops use.

  lemma TakeSnoc<T>(s: seq<T>, n: nat)
    requires n < |s|
    ensures s[..n + 1] == s[..n] + [s[n]]
  {
  }

  /** Removing the entry just after p from p + t leaves p followed by the rest of t. */
  lemma RemoveAt<T>(p: seq<T>, t: seq<T>)
    requires t != []
    ensures (p + t)[..|p|] + (p + t)[|p| + 1..] == p + t[1..]
    ensures p + t == (p + [t[0]]) + t[1..]
  {
    assert (p + t)[..|p|] == p;
    assert (p + t)[|p| + 1..] == t[1..];
  }
}
