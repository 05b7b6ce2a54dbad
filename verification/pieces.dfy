/** The pieces: a die with its speculative moves (class `Dice`,
    tridice.js:217-330) and a player's bookkeeping (class `Player`,
    tridice.js:395-422).

    A die keeps two orientations. `faces` is the committed one, the one that
    decides which cells it fits. `temporary` is where the moves of the
    current turn are tried out. Each tried move is logged with the cell it
    leads to and the direction that undoes it, and spends one of the die's
    moves. Cell references are held as ids; the game record resolves them. */
module Pieces {
  import opened Outcomes
  import opened DiceFaces
  import opened OrderedMaps
  import opened Topology

  /** One entry of `movementTracking`: the cell moved to and the direction
      that tips the die back. */
  datatype LoggedMove = LoggedMove(cell: CellId, undo: Direction)

  datatype Dice = Dice(
    id: DiceId,
    owner: int,
    currentCell: Option<CellId>,
    faces: Faces,
    temporary: Faces,
    moveCount: int,
    log: seq<LoggedMove>)

  /** A new die is off the board, in the initial orientation, with as many
      moves as its top number. */
  function NewDice(id: DiceId, owner: int): (d: Dice)
    ensures d.currentCell == None && d.log == [] && Valid(d.faces)
    ensures d.temporary == d.faces && d.moveCount == Top(d.faces)
  {
    InitialValid();
    Dice(id, owner, None, Initial, Initial, Top(Initial), [])
  }

  /** Undoing the logged moves, most recent first, starting from the
      temporary faces. */
  function Rewind(t: Faces, log: seq<LoggedMove>): Result<Faces>
    decreases |log|
  {
    if log == [] then Ok(t)
    else
      match Move(t, log[|log| - 1].undo)
      case Err(e) => Err(e)
      case Ok(prev) => Rewind(prev, log[..|log| - 1])
  }

  /** The temporary faces are the committed ones with the logged moves
      applied: undoing them all leads back to the committed faces. */
  ghost predicate Sound(d: Dice) {
    Valid(d.faces) && Valid(d.temporary) && Rewind(d.temporary, d.log) == Ok(d.faces)
  }

  /** `tryMoveTo`: tries one tip of the temporary faces towards the neighbour
      of the committed cell in direction `dir`. `neighbor` is that
      neighbour slot, `None` when the die is in no cell. Every failure happens
      before anything changes. */
  function TryMoveTo(d: Dice, neighbor: Option<Link>, dir: Direction): (r: Result<Dice>)
    ensures d.moveCount == 0 ==> r == Err(NoMovesLeft)
    ensures d.moveCount != 0 && (neighbor.None? || neighbor.value.Pending?) ==> r == Err(InvalidDirection)
    ensures d.moveCount != 0 && neighbor.Some? && neighbor.value.Linked? ==>
              (r == Err(IllegalTip) <==> Move(d.temporary, dir).Err?)
    ensures r.Ok? ==> && neighbor.Some? && neighbor.value.Linked?
                      && r.value == d.(temporary := r.value.temporary,
                                       moveCount := d.moveCount - 1,
                                       log := d.log + [LoggedMove(neighbor.value.id, Inverse(dir))])
                      && Ok(r.value.temporary) == Move(d.temporary, dir)
    ensures r.Ok? ==> |r.value.log| + r.value.moveCount == |d.log| + d.moveCount
    ensures r.Ok? && Valid(d.temporary) ==> Valid(r.value.temporary)
  {
    if d.moveCount == 0 then Err(NoMovesLeft)
    else if neighbor.None? || neighbor.value.Pending? then Err(InvalidDirection)
    else
      match Move(d.temporary, dir)
      case Err(e) => Err(e)
      case Ok(t) =>
        Ok(d.(temporary := t, moveCount := d.moveCount - 1,
              log := d.log + [LoggedMove(neighbor.value.id, Inverse(dir))]))
  }

  /** `undoMove`: pops the last logged move and tips the temporary faces back,
      returning the cell the undone move had led to. The pop happens before
      the tip, so a refused tip leaves the log one entry shorter. */
  function UndoMove(d: Dice): (r: Outcome<Dice, CellId>)
    ensures d.log == [] <==> r == Threw(NoMoves, d)
    ensures r.Threw? && d.log != [] ==> r.error == IllegalTip && r.state == d.(log := d.log[..|d.log| - 1])
    ensures r.Returned? ==> && d.log != []
                            && r.value == d.log[|d.log| - 1].cell
                            && r.state.log == d.log[..|d.log| - 1]
                            && r.state.moveCount == d.moveCount + 1
                            && r.state == d.(temporary := r.state.temporary, moveCount := r.state.moveCount,
                                             log := r.state.log)
    ensures r.Returned? ==> |r.state.log| + r.state.moveCount == |d.log| + d.moveCount
  {
    if d.log == [] then Threw(NoMoves, d)
    else
      var last := d.log[|d.log| - 1];
      var popped := d.(log := d.log[..|d.log| - 1]);
      match Move(d.temporary, last.undo)
      case Err(e) => Threw(e, popped)
      case Ok(t) => Returned(popped.(temporary := t, moveCount := d.moveCount + 1), last.cell)
  }

  /** `resetTemporaryMoves`: drops the tried moves. */
  function ResetTemporaryMoves(d: Dice): (r: Dice)
    ensures r.log == [] && r.moveCount == Top(r.faces)
    ensures Valid(d.faces) ==> Sound(r)
    ensures r.(temporary := d.temporary, moveCount := d.moveCount, log := d.log) == d
  {
    d.(log := [], moveCount := Top(d.faces), temporary := d.faces)
  }

  /** `roll`, with the random orientation as a parameter. The log is kept,
      so only a die with nothing logged comes out sound. */
  function Roll(d: Dice, rolled: Faces): (r: Dice)
    ensures Valid(rolled) && d.log == [] ==> Sound(r)
    ensures r.faces == rolled && r.moveCount == Top(r.faces)
    ensures r.(faces := d.faces, temporary := d.temporary, moveCount := d.moveCount) == d
  {
    d.(faces := rolled, moveCount := Top(rolled), temporary := rolled)
  }

  /** On a die with nothing logged, rolling is replacing the committed
      faces and then dropping the tried moves. */
  lemma RollIsReset(d: Dice, rolled: Faces)
    requires d.log == []
    ensures Roll(d, rolled) == ResetTemporaryMoves(d.(faces := rolled))
  {
  }

  /** `Dice.rotate`: turns the committed faces and copies them to the
      temporary ones; the move count is left alone. */
  function RotateDice(d: Dice, dir: Direction): (r: Dice)
    ensures Valid(d.faces) ==> && Valid(r.faces) && Top(r.faces) == Top(d.faces)
                               && PointingDirection(r.faces) != PointingDirection(d.faces)
    ensures r.temporary == r.faces
    ensures r == d.(faces := r.faces, temporary := r.faces)
  {
    var f := Rotate(d.faces, dir);
    d.(faces := f, temporary := f)
  }

  /** A successful `tryMoveTo` followed by `undoMove` gives back the die as it
      was, and the undo reports the cell the move went to. */
  lemma TryThenUndo(d: Dice, neighbor: Option<Link>, dir: Direction)
    requires Valid(d.temporary) && TryMoveTo(d, neighbor, dir).Ok?
    ensures UndoMove(TryMoveTo(d, neighbor, dir).value) == Returned(d, neighbor.value.id)
  {
    var e := TryMoveTo(d, neighbor, dir).value;
    MoveRoundTrip(d.temporary, dir);
    assert e.log[..|e.log| - 1] == d.log;
  }

  /** Tried moves keep the die sound. */
  lemma {:induction false} TryMoveToKeepsSound(d: Dice, neighbor: Option<Link>, dir: Direction)
    requires Sound(d) && TryMoveTo(d, neighbor, dir).Ok?
    ensures Sound(TryMoveTo(d, neighbor, dir).value)
  {
    var e := TryMoveTo(d, neighbor, dir).value;
    MoveRoundTrip(d.temporary, dir);
    assert e.log[..|e.log| - 1] == d.log;
    assert Rewind(e.temporary, e.log) == Rewind(d.temporary, d.log);
  }

  /** On a sound die an undo with something to undo always succeeds: the
      logged directions are legal tips back, and undoing keeps the die sound. */
  lemma {:induction false} UndoMoveOnSound(d: Dice)
    requires Sound(d) && d.log != []
    ensures UndoMove(d).Returned? && Sound(UndoMove(d).state)
  {
    var t := Move(d.temporary, d.log[|d.log| - 1].undo);
    assert t.Ok?;
  }
}

/** A player's three id collections. `dice` and `lostDice` are only read by
    key or size; `diceOnBoard` is iterated by the AI, so its insertion order
    is kept. */
module Players {
  import opened OrderedMaps
  import opened Topology

  datatype Player = Player(id: int, dice: seq<DiceId>, lostDice: seq<DiceId>, diceOnBoard: seq<DiceId>)

  /** A player's dice are numbered `id * 10 + i` for `i` below the count. */
  function NewPlayer(id: int, count: nat): (p: Player)
    ensures p.id == id && |p.dice| == count && p.lostDice == [] && p.diceOnBoard == []
    ensures forall i, j :: 0 <= i < j < count ==> p.dice[i] != p.dice[j]
  {
    Player(id, seq(count, i => id * 10 + i), [], [])
  }

  /** With at most ten dice, a player's dice are exactly the ids whose tens
      name the player and whose units are below the count. */
  lemma NewPlayerDiceIds(id: int, count: nat, d: DiceId)
    requires count <= 10
    ensures d in NewPlayer(id, count).dice <==> d / 10 == id && d % 10 < count
  {
    var p := NewPlayer(id, count);
    if d in p.dice {
      var i :| 0 <= i < count && p.dice[i] == d;
      assert d == id * 10 + i;
    }
    if d / 10 == id && d % 10 < count {
      assert p.dice[d % 10] == d;
    }
  }

  /** Two players with different ids never share a die id. */
  lemma {:induction false} NewPlayersDisjoint(a: int, b: int, count: nat, d: DiceId)
    requires a != b && count <= 10
    ensures !(d in NewPlayer(a, count).dice && d in NewPlayer(b, count).dice)
  {
    NewPlayerDiceIds(a, count, d);
    NewPlayerDiceIds(b, count, d);
  }

  /** `placeDice` */
  function PlaceDice(p: Player, d: DiceId): (r: Player)
    ensures d in r.diceOnBoard
    ensures forall x :: x != d ==> (x in r.diceOnBoard <==> x in p.diceOnBoard)
    ensures r == p.(diceOnBoard := r.diceOnBoard)
    ensures Unique(p.diceOnBoard) ==> Unique(r.diceOnBoard)
  {
    assert Unique(p.diceOnBoard) ==> Unique(Insert(p.diceOnBoard, d)) by {
      if Unique(p.diceOnBoard) {
        InsertKeepsUnique(p.diceOnBoard, d);
      }
    }
    p.(diceOnBoard := Insert(p.diceOnBoard, d))
  }

  /** `loseDice` sets the die on the board and deletes it again: the die
      leaves `diceOnBoard`, and `lostDice` is never written. */
  function LoseDice(p: Player, d: DiceId): (r: Player)
    ensures r.lostDice == p.lostDice
    ensures d !in r.diceOnBoard
    ensures forall x :: x != d ==> (x in r.diceOnBoard <==> x in p.diceOnBoard)
    ensures r == p.(diceOnBoard := r.diceOnBoard)
  {
    p.(diceOnBoard := Delete(Insert(p.diceOnBoard, d), d))
  }

  /** Losing a die is exactly deleting it from the dice on the board. */
  lemma LoseDiceIsDelete(p: Player, d: DiceId)
    ensures LoseDice(p, d).diceOnBoard == Delete(p.diceOnBoard, d)
  {
    InsertThenDelete(p.diceOnBoard, d);
  }
}
