/** The orientation of a die (class `DiceFaces`, tridice.js:15-216).

    A die shows five slots `[left, top, right, up, down]`. Four of them hold
    the numbers 1..4 and one of the two secondary slots (`up`, `down`) holds
    the sentinel 0. Which secondary slot holds the 0 is the die's pointing
    direction. The operations are written over any 5-slot sequence, exactly as
    the source computes them; their guarantees are proved for valid faces.
 */
module DiceFaces {
  import opened Outcomes

  datatype Direction = Up | Down | Left | Right

  datatype Pointing = PointsUp | PointsDown

  /** Slots in the order of `faceNameToIndex`: left, top, right, up, down. */
  type Faces = f: seq<int> | |f| == 5 witness [1, 2, 3, 4, 0]

  /** The orientation every die starts with (the constructor default). */
  const Initial: Faces := [1, 2, 3, 4, 0]

  /** `faceDirectionInverter` */
  function Inverse(d: Direction): Direction {
    match d
    case Up => Down
    case Down => Up
    case Left => Right
    case Right => Left
  }

  function Top(f: Faces): int {
    f[1]
  }

  /** The five slots hold five distinct numbers drawn from 0..4, so they hold
      a permutation of 0..4, and the 0 is in a secondary slot. */
  predicate Valid(f: Faces) {
    && (forall i, j :: 0 <= i < j < 5 ==> f[i] != f[j])
    && (forall i :: 0 <= i < 5 ==> 0 <= f[i] <= 4)
    && (f[3] == 0 || f[4] == 0)
  }

  function NullIndex(f: Faces): (i: nat)
    ensures i == 3 || i == 4
  {
    if f[4] == 0 then 4 else 3
  }

  function PointingDirection(f: Faces): Pointing {
    if NullIndex(f) == 4 then PointsUp else PointsDown
  }

  /** The number in the secondary slot that does not hold the null. */
  function NullZoneNumber(f: Faces): int {
    if NullIndex(f) == 4 then f[3] else f[4]
  }

  /** `Array.prototype.indexOf` for a value that is present: the first slot holding it. */
  function IndexOf(s: seq<int>, v: int): (i: nat)
    requires v in s
    ensures i < |s| && s[i] == v
    ensures forall j :: 0 <= j < i ==> s[j] != v
  {
    if s[0] == v then 0 else 1 + IndexOf(s[1..], v)
  }

  /** Puts `n` into the null slot and the null into the other secondary slot,
      returning the number that slot held. */
  function MoveNumberToNullZone(f: Faces, n: int): (r: (Faces, int))
    ensures Valid(f) ==> && r.1 == f[7 - NullIndex(f)]
                         && r.0[0] == f[0] && r.0[1] == f[1] && r.0[2] == f[2]
                         && r.0[NullIndex(f)] == n
                         && r.0[7 - NullIndex(f)] == 0
  {
    var oldNumber := NullZoneNumber(f);
    var oldNull := NullIndex(f);
    assert oldNumber == f[7 - oldNull];
    var newNull := IndexOf(f, oldNumber);
    assert Valid(f) ==> newNull == 7 - oldNull;
    (f[oldNull := n][newNull := 0], oldNumber)
  }

  /** `move`: tipping the die over one of its edges. Tipping down is only
      possible while the down slot holds the null, tipping up only while the up
      slot does; a refused tip changes nothing. */
  function Move(f: Faces, d: Direction): (r: Result<Faces>)
    ensures r.Err? <==> (d == Down && f[4] != 0) || (d == Up && f[3] != 0)
    ensures r.Err? ==> r.error == IllegalTip
    ensures Valid(f) && r.Ok? ==> Valid(r.value) && NullIndex(r.value) == 7 - NullIndex(f)
  {
    match d
    case Right =>
      var (g, prev) := MoveNumberToNullZone(f, f[2]);
      Ok([prev, g[0], g[1], g[3], g[4]])
    case Left =>
      var (g, prev) := MoveNumberToNullZone(f, f[0]);
      Ok([g[1], g[2], prev, g[3], g[4]])
    case Down =>
      if f[4] != 0 then Err(IllegalTip) else TipOverTop(f)
    case Up =>
      if f[3] != 0 then Err(IllegalTip) else TipOverTop(f)
  }

  /** The shared body of a legal up or down tip: the top number goes into the
      null slot and the other secondary number comes up on top. */
  function TipOverTop(f: Faces): (r: Result<Faces>)
    ensures r.Ok?
  {
    var (g, prev) := MoveNumberToNullZone(f, f[1]);
    Ok([g[0], prev, g[2], g[3], g[4]])
  }

  /** `rotate`: a turn in place. The requested direction is corrected by the
      null position, so a null in the down slot always turns right and a null
      in the up slot always turns left. */
  function Rotate(f: Faces, d: Direction): (r: Faces)
    ensures Valid(f) ==> Valid(r) && Top(r) == Top(f) && NullIndex(r) == 7 - NullIndex(f)
  {
    var turn :=
      if d == Right && NullIndex(f) == 3 then Left
      else if d == Left && NullIndex(f) == 4 then Right
      else d;
    if turn == Right then
      var (g, prev) := MoveNumberToNullZone(f, f[2]);
      [g[0], g[1], prev, g[3], g[4]]
    else
      var (g, prev) := MoveNumberToNullZone(f, f[0]);
      [prev, g[1], g[2], g[3], g[4]]
  }


  /** The starting orientation is valid and points up. */
  lemma InitialValid()
    ensures Valid(Initial) && PointingDirection(Initial) == PointsUp && Top(Initial) == 2
  {
  }

  /** On valid faces the only refused tip is the one towards the slot that
      does not hold the null: down needs a die pointing up, up one pointing down. */
  lemma MoveLegality(f: Faces, d: Direction)
    requires Valid(f)
    ensures Move(f, d).Err? <==> (d == Down && PointingDirection(f) == PointsDown)
                                  || (d == Up && PointingDirection(f) == PointsUp)
  {
  }

  /** Faces showing `a, b, c` on the left, top and right, the null in slot
      `nullAt` and `s` in the other secondary slot. */
  function Arrange(a: int, b: int, c: int, nullAt: nat, s: int): Faces
  {
    if nullAt == 4 then [a, b, c, s, 0] else [a, b, c, 0, s]
  }

  /** What a legal tip does to the four numbers, in slot terms: tipping right
      brings the secondary number to the left and shifts left and top one slot
      right, the right number dropping into the old null slot; tipping left is
      the mirror image; tipping up or down swaps the top number with the
      secondary one. In every case the null moves to the other secondary slot. */
  lemma MoveClosedForm(f: Faces, d: Direction)
    requires Valid(f) && Move(f, d).Ok?
    ensures var n, s := NullIndex(f), NullZoneNumber(f);
            && f == Arrange(f[0], f[1], f[2], n, s)
            && Move(f, d).value == match d
                 case Right => Arrange(s, f[0], f[1], 7 - n, f[2])
                 case Left => Arrange(f[1], f[2], s, 7 - n, f[0])
                 case _ => Arrange(f[0], s, f[2], 7 - n, f[1])
  {
    if NullIndex(f) == 4 {
      assert f == [f[0], f[1], f[2], f[3], 0];
    } else {
      assert f == [f[0], f[1], f[2], 0, f[4]];
    }
  }

  /** Tipping back the opposite way restores the faces exactly; the undo log
      relies on this. */
  lemma MoveRoundTrip(f: Faces, d: Direction)
    requires Valid(f) && Move(f, d).Ok?
    ensures Move(Move(f, d).value, Inverse(d)) == Ok(f)
  {
    var g := Move(f, d).value;
    MoveClosedForm(f, d);
    assert Move(g, Inverse(d)).Ok?;
    MoveClosedForm(g, Inverse(d));
  }

  /** The requested turn direction does not matter: left and right give the same faces. */
  lemma RotateIgnoresDirection(f: Faces)
    ensures Rotate(f, Left) == Rotate(f, Right)
  {
  }
}
