/** The direction enums and the helper that rotates them and turns them into degrees. */
module Directions {

  /** Four directions, in declaration order (the order gives each its enum value 0..3). */
  datatype Direction = Down | Left | Up | Right

  /** Eight directions, in declaration order (enum values 0..7). */
  datatype EightDirection = Down | DownLeft | Left | LeftUp | Up | UpRight | Right | RightDown

  /** A rotation in a direction. */
  datatype RotationalDirection = Clockwise | AntiClockwise

  /** Number of names the Direction enum declares. */
  const NumDirections: nat := 4

  /** Number of names the EightDirection enum declares. */
  const NumEightDirections: nat := 8

  /** The integer value of a Direction, `(int)dir`. */
  function Ordinal(d: Direction): (i: nat)
    ensures i < NumDirections
  {
    match d
    case Down => 0
    case Left => 1
    case Up => 2
    case Right => 3
  }

  /** The cast `(Direction)i`, defined only on the declared values. */
  function ToDirection(i: int): (d: Direction)
    requires 0 <= i < NumDirections
    ensures Ordinal(d) == i
  {
    if i == 0 then Direction.Down
    else if i == 1 then Direction.Left
    else if i == 2 then Direction.Up
    else Direction.Right
  }

  /** The integer value of an EightDirection, `(int)dir`. */
  function EightOrdinal(d: EightDirection): (i: nat)
    ensures i < NumEightDirections
  {
    match d
    case Down => 0
    case DownLeft => 1
    case Left => 2
    case LeftUp => 3
    case Up => 4
    case UpRight => 5
    case Right => 6
    case RightDown => 7
  }

  /** The cast `(EightDirection)i`, defined only on the declared values. */
  function ToEightDirection(i: int): (d: EightDirection)
    requires 0 <= i < NumEightDirections
    ensures EightOrdinal(d) == i
  {
    if i == 0 then EightDirection.Down
    else if i == 1 then EightDirection.DownLeft
    else if i == 2 then EightDirection.Left
    else if i == 3 then EightDirection.LeftUp
    else if i == 4 then EightDirection.Up
    else if i == 5 then EightDirection.UpRight
    else if i == 6 then EightDirection.Right
    else EightDirection.RightDown
  }

  /** The step a rotation adds to an enum value: +1 clockwise, -1 anticlockwise. */
  function Turn(rot: RotationalDirection): int
  {
    if rot == Clockwise then 1 else -1
  }

  /** C#'s `%` on `int`, which truncates toward zero (so a negative dividend gives a non-positive remainder). */
  function CsRemainder(a: int, n: int): (r: int)
    requires n > 0
    ensures a >= 0 ==> r == a % n
    ensures -n < r < n
  {
    if a >= 0 then a % n else -((-a) % n)
  }

  /** Every enum value round-trips through the cast. */
  lemma OrdinalRoundTrip(d: Direction)
    ensures ToDirection(Ordinal(d)) == d
  {
  }

  lemma EightOrdinalRoundTrip(d: EightDirection)
    ensures ToEightDirection(EightOrdinal(d)) == d
  {
  }

  /**
   * RotateDirection(Direction, RotationalDirection). The special case for value 0 turning anticlockwise keeps
   * the truncating `%` away from -1; the cast is only ever applied to a declared value, which the
   * precondition of ToDirection checks. The result is the rotation as addition modulo four.
   */
  function RotateDirection(dir: Direction, rot: RotationalDirection): (r: Direction)
    ensures Ordinal(r) == (Ordinal(dir) + Turn(rot)) % NumDirections
  {
    var numDirs := NumDirections;
    if Ordinal(dir) == 0 && rot == AntiClockwise then
      ToDirection(numDirs - 1)
    else
      ToDirection(CsRemainder(Ordinal(dir) + Turn(rot), numDirs))
  }

  /** RotateDirection(EightDirection, RotationalDirection): the same rotation, modulo eight. */
  function RotateEightDirection(dir: EightDirection, rot: RotationalDirection): (r: EightDirection)
    ensures EightOrdinal(r) == (EightOrdinal(dir) + Turn(rot)) % NumEightDirections
  {
    var numDirs := NumEightDirections;
    if EightOrdinal(dir) == 0 && rot == AntiClockwise then
      ToEightDirection(numDirs - 1)
    else
      ToEightDirection(CsRemainder(EightOrdinal(dir) + Turn(rot), numDirs))
  }

  /** Clockwise steps to the next value and wraps the last one to Down; anticlockwise is the reverse. */
  lemma RotateSteps(dir: Direction)
    ensures Ordinal(RotateDirection(dir, Clockwise)) == if Ordinal(dir) == NumDirections - 1 then 0 else Ordinal(dir) + 1
    ensures Ordinal(RotateDirection(dir, AntiClockwise)) == if Ordinal(dir) == 0 then NumDirections - 1 else Ordinal(dir) - 1
    ensures RotateDirection(Direction.Right, Clockwise) == Direction.Down
    ensures RotateDirection(Direction.Down, AntiClockwise) == Direction.Right
  {
  }

  lemma RotateEightSteps(dir: EightDirection)
    ensures EightOrdinal(RotateEightDirection(dir, Clockwise)) ==
      if EightOrdinal(dir) == NumEightDirections - 1 then 0 else EightOrdinal(dir) + 1
    ensures EightOrdinal(RotateEightDirection(dir, AntiClockwise)) ==
      if EightOrdinal(dir) == 0 then NumEightDirections - 1 else EightOrdinal(dir) - 1
    ensures RotateEightDirection(EightDirection.RightDown, Clockwise) == EightDirection.Down
    ensures RotateEightDirection(EightDirection.Down, AntiClockwise) == EightDirection.RightDown
  {
  }

  /** The opposite rotation undoes a rotation, in both orders. */
  lemma RotateInverse(dir: Direction)
    ensures RotateDirection(RotateDirection(dir, Clockwise), AntiClockwise) == dir
    ensures RotateDirection(RotateDirection(dir, AntiClockwise), Clockwise) == dir
  {
    OrdinalRoundTrip(dir);
  }

  lemma RotateEightInverse(dir: EightDirection)
    ensures RotateEightDirection(RotateEightDirection(dir, Clockwise), AntiClockwise) == dir
    ensures RotateEightDirection(RotateEightDirection(dir, AntiClockwise), Clockwise) == dir
  {
    EightOrdinalRoundTrip(dir);
  }

  /** `k` successive rotations in the same sense. */
  function RotateTimes(dir: Direction, rot: RotationalDirection, k: nat): Direction
  {
    if k == 0 then dir else RotateDirection(RotateTimes(dir, rot, k - 1), rot)
  }

  function RotateEightTimes(dir: EightDirection, rot: RotationalDirection, k: nat): EightDirection
  {
    if k == 0 then dir else RotateEightDirection(RotateEightTimes(dir, rot, k - 1), rot)
  }

  /** Adding a step to a residue is adding it before taking the residue. */
  lemma ModAddStep(x: int, t: int, n: int)
    requires n > 0
    ensures (x % n + t) % n == (x + t) % n
  {
    var q := x / n;
    assert x == q * n + x % n;
    assert x + t == q * n + (x % n + t);
    ModShift(x % n + t, q, n);
  }

  lemma ModShift(y: int, q: int, n: int)
    requires n > 0
    ensures (q * n + y) % n == y % n
  {
    var r := y % n;
    var p := y / n;
    assert y == p * n + r;
    assert q * n + y == (q + p) * n + r by {
      assert q * n + p * n == (q + p) * n;
    }
    ModUnique(q * n + y, q + p, r, n);
  }

  /** Quotient and remainder are unique: `a == k * n + r` with `0 <= r < n` pins `a % n` to `r`. */
  lemma ModUnique(a: int, k: int, r: int, n: int)
    requires n > 0 && 0 <= r < n && a == k * n + r
    ensures a % n == r
  {
    var k', r' := a / n, a % n;
    assert a == k' * n + r';
    assert (k - k') * n == r' - r by {
      assert k * n - k' * n == (k - k') * n;
    }
    if k - k' >= 1 {
      assert (k - k') * n >= n by { MulMonotone(k - k', n); }
    } else if k - k' <= -1 {
      assert (k' - k) * n >= n by { MulMonotone(k' - k, n); }
    }
  }

  lemma MulMonotone(m: int, n: int)
    requires m >= 1 && n > 0
    ensures m * n >= n
  {
    assert m * n == (m - 1) * n + n;
    assert (m - 1) * n >= 0;
  }

  /** `k` rotations add `k` steps modulo four. */
  lemma {:induction false} RotateTimesOrdinal(dir: Direction, rot: RotationalDirection, k: nat)
    ensures Ordinal(RotateTimes(dir, rot, k)) == (Ordinal(dir) + k * Turn(rot)) % NumDirections
  {
    if k > 0 {
      RotateTimesOrdinal(dir, rot, k - 1);
      var x := Ordinal(dir) + (k - 1) * Turn(rot);
      ModAddStep(x, Turn(rot), NumDirections);
      assert x + Turn(rot) == Ordinal(dir) + k * Turn(rot);
    }
  }

  lemma {:induction false} RotateEightTimesOrdinal(dir: EightDirection, rot: RotationalDirection, k: nat)
    ensures EightOrdinal(RotateEightTimes(dir, rot, k)) == (EightOrdinal(dir) + k * Turn(rot)) % NumEightDirections
  {
    if k > 0 {
      RotateEightTimesOrdinal(dir, rot, k - 1);
      var x := EightOrdinal(dir) + (k - 1) * Turn(rot);
      ModAddStep(x, Turn(rot), NumEightDirections);
      assert x + Turn(rot) == EightOrdinal(dir) + k * Turn(rot);
    }
  }

  /** A full turn (four rotations in the same sense) returns to the start, and so does any multiple of it. */
  lemma FullTurn(dir: Direction, rot: RotationalDirection, m: nat)
    ensures RotateTimes(dir, rot, m * NumDirections) == dir
  {
    RotateTimesOrdinal(dir, rot, m * NumDirections);
    ModShift(Ordinal(dir), m * Turn(rot), NumDirections);
    assert Ordinal(dir) + (m * NumDirections) * Turn(rot) == (m * Turn(rot)) * NumDirections + Ordinal(dir);
    OrdinalRoundTrip(dir);
    OrdinalRoundTrip(RotateTimes(dir, rot, m * NumDirections));
  }

  lemma EightFullTurn(dir: EightDirection, rot: RotationalDirection, m: nat)
    ensures RotateEightTimes(dir, rot, m * NumEightDirections) == dir
  {
    RotateEightTimesOrdinal(dir, rot, m * NumEightDirections);
    ModShift(EightOrdinal(dir), m * Turn(rot), NumEightDirections);
    assert EightOrdinal(dir) + (m * NumEightDirections) * Turn(rot) == (m * Turn(rot)) * NumEightDirections + EightOrdinal(dir);
    EightOrdinalRoundTrip(dir);
    EightOrdinalRoundTrip(RotateEightTimes(dir, rot, m * NumEightDirections));
  }

  /** DirectionToDegrees(Direction): a right angle per step, starting at 180 for Down. */
  function DirectionToDegrees(dir: Direction): (deg: int)
    ensures 180 <= deg <= 450
    ensures deg % 90 == 0
  {
    180 + 90 * Ordinal(dir)
  }

  /** DirectionToDegrees(EightDirection): half a right angle per step, starting at 180 for Down. */
  function EightDirectionToDegrees(dir: EightDirection): (deg: int)
    ensures 180 <= deg <= 495
    ensures deg % 45 == 0
  {
    180 + 45 * EightOrdinal(dir)
  }

  /** Degrees grow strictly with the enum value, so no two directions share an angle. */
  lemma DegreesStrictlyIncreasing(a: Direction, b: Direction)
    ensures Ordinal(a) < Ordinal(b) <==> DirectionToDegrees(a) < DirectionToDegrees(b)
    ensures DirectionToDegrees(a) == DirectionToDegrees(b) ==> a == b
  {
    OrdinalRoundTrip(a);
    OrdinalRoundTrip(b);
  }

  lemma EightDegreesStrictlyIncreasing(a: EightDirection, b: EightDirection)
    ensures EightOrdinal(a) < EightOrdinal(b) <==> EightDirectionToDegrees(a) < EightDirectionToDegrees(b)
    ensures EightDirectionToDegrees(a) == EightDirectionToDegrees(b) ==> a == b
  {
    EightOrdinalRoundTrip(a);
    EightOrdinalRoundTrip(b);
  }

  /** A clockwise rotation turns the Euler angle by one step, modulo a full circle. */
  lemma DegreesOfRotation(dir: Direction)
    ensures (DirectionToDegrees(RotateDirection(dir, Clockwise)) - DirectionToDegrees(dir)) % 360 == 90
    ensures (DirectionToDegrees(RotateDirection(dir, AntiClockwise)) - DirectionToDegrees(dir)) % 360 == 270
  {
  }

  lemma EightDegreesOfRotation(dir: EightDirection)
    ensures (EightDirectionToDegrees(RotateEightDirection(dir, Clockwise)) - EightDirectionToDegrees(dir)) % 360 == 45
    ensures (EightDirectionToDegrees(RotateEightDirection(dir, AntiClockwise)) - EightDirectionToDegrees(dir)) % 360 == 315
  {
  }
}
