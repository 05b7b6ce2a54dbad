/** The turn engine (class `Tridice`, tridice.ts:13-273).

    The game is one record: the cells by id, the dice by id, the two players,
    whose turn it is and which die is selected. The source's object graph
    becomes ids that point into the two maps; `Wf` states that every id
    points at something and that cells and dice agree about who sits where.
    Each method returns an `Outcome`: its state is the game as the source
    leaves it, also after a throw. */
module Engine {
  import opened Outcomes
  import opened DiceFaces
  import opened OrderedMaps
  import opened Topology
  import opened Pieces
  import opened Players

  /** `Tridice.PLAYER_DICE_COUNT` */
  const PlayerDiceCount: nat := 4

  /** `currentPlayerIndex`: 0 for the first player, 1 for the second. */
  type PlayerIndex = i: int | 0 <= i < 2

  datatype Game = Game(
    cells: map<CellId, Cell>,
    dice: map<DiceId, Dice>,
    p1: Player,
    p2: Player,
    current: PlayerIndex,
    selected: Option<DiceId>,
    upFacing: seq<CellId>,
    downFacing: seq<CellId>)

  /** What `board()` shows of the die in an occupied cell. */
  datatype Snapshot = Snapshot(top: int, up: int, down: int, left: int, right: int, owner: int)

  function PlayerAt(g: Game, i: PlayerIndex): Player {
    if i == 0 then g.p1 else g.p2
  }

  function WithPlayer(g: Game, i: PlayerIndex, p: Player): (r: Game)
    ensures PlayerAt(r, i) == p && PlayerAt(r, 1 - i) == PlayerAt(g, 1 - i)
    ensures r == g.(p1 := r.p1, p2 := r.p2)
  {
    if i == 0 then g.(p1 := p) else g.(p2 := p)
  }

  /** `currentPlayer` */
  function CurrentPlayer(g: Game): Player {
    PlayerAt(g, g.current)
  }

  /** `nextPlayer`: the player whose turn it is not. */
  function NextIndex(g: Game): PlayerIndex {
    1 - g.current
  }

  /** Every id refers to something, each die sits where its cell says it
      does, and the faces are valid orientations. */
  ghost predicate Wf(g: Game) {
    && Linkage(g.cells)
    && g.p1.id == 1 && g.p2.id == 2
    && (forall d :: d in g.dice ==> DiceWf(g, d))
    && (g.selected.Some? ==> g.selected.value in g.dice)
    && (forall c :: c in g.cells && g.cells[c].content.Some? ==>
          && g.cells[c].content.value in g.dice
          && g.dice[g.cells[c].content.value].currentCell == Some(c))
    && (forall d :: d in g.p1.diceOnBoard ==> d in g.dice)
    && (forall d :: d in g.p2.diceOnBoard ==> d in g.dice)
  }

  ghost predicate DiceWf(g: Game, d: DiceId)
    requires d in g.dice
  {
    var x := g.dice[d];
    && x.id == d
    && (x.owner == 1 || x.owner == 2)
    && Valid(x.faces) && Valid(x.temporary)
    && (x.currentCell.Some? ==> x.currentCell.value in g.cells && g.cells[x.currentCell.value].content == Some(d))
    && (forall i :: 0 <= i < |x.log| ==> x.log[i].cell in g.cells)
  }

  /** No operation adds or removes cells or dice. */
  ghost predicate SameKeys(a: Game, b: Game) {
    a.cells.Keys == b.cells.Keys && a.dice.Keys == b.dice.Keys
  }

  /** Nothing is ever added to a player's lost dice. */
  ghost predicate LostKept(a: Game, b: Game) {
    a.p1.lostDice == b.p1.lostDice && a.p2.lostDice == b.p2.lostDice
  }

  /** The cells of `ids` pointing `p`, in order. */
  function Facing(ids: seq<CellId>, p: Pointing): (r: seq<CellId>)
    ensures forall id :: id in r <==> id in ids && CellPointing(id) == p
  {
    if ids == [] then []
    else (if CellPointing(ids[0]) == p then [ids[0]] else []) + Facing(ids[1..], p)
  }

  /** The dice a player starts with: one per id, owned by the player, off
      the board, sound and with their full count of moves. */
  function StartingDice(p: Player): (m: map<DiceId, Dice>)
    ensures forall d :: d in m <==> d in p.dice
    ensures forall d :: d in m ==> && m[d].id == d && m[d].owner == p.id && m[d].currentCell == None
                                   && Sound(m[d]) && m[d].moveCount == Top(m[d].faces)
  {
    map d | d in p.dice :: NewDice(d, p.id)
  }

  /** The game the constructor sets up on a given board. */
  function Setup(cells: map<CellId, Cell>, ids: seq<CellId>): (g: Game)
    ensures g.current == 0 && g.selected == None
    ensures g.p1 == NewPlayer(1, PlayerDiceCount) && g.p2 == NewPlayer(2, PlayerDiceCount)
  {
    var p1, p2 := NewPlayer(1, PlayerDiceCount), NewPlayer(2, PlayerDiceCount);
    Game(cells, StartingDice(p1) + StartingDice(p2), p1, p2, 0, None, Facing(ids, PointsUp), Facing(ids, PointsDown))
  }

  /** The `Tridice` constructor. */
  function NewGame(): (g: Game)
    ensures Wf(g)
  {
    BuildShape();
    SetupWf(Build().value, CellIds());
    Setup(Build().value, CellIds())
  }

  lemma {:induction false} StartingDiceOf(id: int)
    requires id == 1 || id == 2
    ensures var p := NewPlayer(id, PlayerDiceCount);
            && p.dice == [id * 10, id * 10 + 1, id * 10 + 2, id * 10 + 3]
            && forall d :: d in StartingDice(p) ==> StartingDice(p)[d] == NewDice(d, d / 10)
  {
    var p := NewPlayer(id, PlayerDiceCount);
    assert p.dice == [id * 10, id * 10 + 1, id * 10 + 2, id * 10 + 3];
  }

  /** Whatever the board, the set-up dice are the players' dice, each new
      and owned by the player its id names. */
  lemma {:induction false} SetupDice(cells: map<CellId, Cell>, ids: seq<CellId>)
    ensures var g := Setup(cells, ids);
            && g.p1.dice == [10, 11, 12, 13] && g.p2.dice == [20, 21, 22, 23]
            && (forall d :: d in g.dice <==> d in g.p1.dice || d in g.p2.dice)
            && forall d :: d in g.dice ==> g.dice[d] == NewDice(d, d / 10) && (d / 10 == 1 || d / 10 == 2)
  {
    var g := Setup(cells, ids);
    StartingDiceOf(1);
    StartingDiceOf(2);
  }

  lemma {:induction false} SetupWf(cells: map<CellId, Cell>, ids: seq<CellId>)
    requires Linkage(cells)
    requires forall c :: c in cells ==> cells[c].content == None
    ensures Wf(Setup(cells, ids))
  {
    var g := Setup(cells, ids);
    SetupDice(cells, ids);
    InitialValid();
    forall d | d in g.dice
      ensures DiceWf(g, d)
    {
      assert g.dice[d] == NewDice(d, d / 10);
    }
  }

  /** The new game: the sixteen linked, empty cells, the eight dice
      numbered 10..13 and 20..23 off the board, nobody has lost anything,
      and the game is well formed. */
  lemma {:induction false} NewGameStart()
    ensures var g := NewGame();
            && Wf(g) && g.current == 0 && g.selected == None
            && (forall id :: id in g.cells <==> id in CellIds())
            && Resolved(g.cells)
            && (forall c :: c in g.cells ==> g.cells[c].content == None)
            && g.p1.dice == [10, 11, 12, 13] && g.p2.dice == [20, 21, 22, 23]
            && (forall d :: d in g.dice <==> d in g.p1.dice || d in g.p2.dice)
            && (forall d :: d in g.dice ==> g.dice[d].currentCell == None && g.dice[d].owner == d / 10)
            && g.p1.lostDice == [] && g.p2.lostDice == [] && g.p1.diceOnBoard == [] && g.p2.diceOnBoard == []
  {
    BuildShape();
    var cells := Build().value;
    SetupDice(cells, CellIds());
    SetupWf(cells, CellIds());
  }

  /** Odd ids point up, even ids point down, and the two facing lists split
      the board between them. */
  lemma {:induction false} FacingPartition()
    ensures var g := NewGame();
            && (forall c :: c in g.upFacing <==> c in g.cells && c % 2 == 1)
            && (forall c :: c in g.downFacing <==> c in g.cells && c % 2 == 0)
            && (forall c :: c in g.cells ==> (c in g.upFacing <==> c !in g.downFacing))
            && (forall c :: c in g.cells ==> (c in g.upFacing <==> g.cells[c].pointing == PointsUp))
  {
    BuildShape();
    var cells := Build().value;
    SetupFacing(cells, CellIds());
  }

  lemma {:induction false} SetupFacing(cells: map<CellId, Cell>, ids: seq<CellId>)
    requires Linkage(cells) && forall c :: c in cells <==> c in ids
    ensures var g := Setup(cells, ids);
            && (forall c :: c in g.upFacing <==> c in g.cells && c % 2 == 1)
            && (forall c :: c in g.downFacing <==> c in g.cells && c % 2 == 0)
            && (forall c :: c in g.cells ==> (c in g.upFacing <==> c !in g.downFacing))
            && (forall c :: c in g.cells ==> (c in g.upFacing <==> g.cells[c].pointing == PointsUp))
  {
  }

  /** `selectDice`: the previously selected die drops its tried moves, then
      the handle moves to `d`. */
  function SelectDice(g: Game, d: DiceId): (r: Game)
    requires d in g.dice
    ensures r.selected == Some(d)
    ensures r.dice.Keys == g.dice.Keys
    ensures forall e :: e in g.dice && Some(e) != g.selected ==> r.dice[e] == g.dice[e]
    ensures g.selected.Some? && g.selected.value in g.dice ==>
              var x := r.dice[g.selected.value];
              && x.log == [] && x.moveCount == Top(x.faces) && x.temporary == x.faces
              && x == g.dice[g.selected.value].(log := [], moveCount := x.moveCount, temporary := x.temporary)
    ensures r == g.(dice := r.dice, selected := r.selected)
    ensures Wf(g) ==> Wf(r)
  {
    var dice := if g.selected.Some? && g.selected.value in g.dice
                then g.dice[g.selected.value := ResetTemporaryMoves(g.dice[g.selected.value])]
                else g.dice;
    g.(dice := dice, selected := Some(d))
  }

  /** `nextTurn` */
  function NextTurn(g: Game): (r: Game)
    ensures r.current != g.current
    ensures r == g.(current := r.current)
  {
    g.(current := (g.current + 1) % 2)
  }

  /** Two turns bring the turn back. */
  lemma NextTurnInvolution(g: Game)
    ensures NextTurn(NextTurn(g)) == g
  {
  }

  /** `Cell.removeDice`: empties the cell and takes the die out of it. */
  function RemoveDice(g: Game, c: CellId): (r: Outcome<Game, DiceId>)
    requires c in g.cells
    ensures g.cells[c].content.None? <==> r == Threw(EmptyCell, g)
    ensures r.Returned? ==> && Some(r.value) == g.cells[c].content
                            && r.state.cells == g.cells[c := g.cells[c].(content := None)]
                            && r.state.dice.Keys == g.dice.Keys
                            && (r.value in g.dice ==> r.state.dice[r.value] == g.dice[r.value].(currentCell := None))
                            && (forall e :: e in g.dice && e != r.value ==> r.state.dice[e] == g.dice[e])
                            && r.state == g.(cells := r.state.cells, dice := r.state.dice)
  {
    match g.cells[c].content
    case None => Threw(EmptyCell, g)
    case Some(d) =>
      var cells := g.cells[c := g.cells[c].(content := None)];
      var dice := if d in g.dice then g.dice[d := g.dice[d].(currentCell := None)] else g.dice;
      Returned(g.(cells := cells, dice := dice), d)
  }

  /** `Dice.moveTo`: the die enters cell `c`, which must be empty and point
      the way the committed faces do, then leaves the cell it was in; its log
      is cleared. */
  function MoveTo(g: Game, d: DiceId, c: CellId): (r: Outcome<Game, ()>)
    requires Wf(g) && d in g.dice && c in g.cells
    ensures g.cells[c].content.Some? ==> r == Threw(AlreadyFull, g)
    ensures g.cells[c].content.None? && PointingDirection(g.dice[d].faces) != g.cells[c].pointing
            ==> r == Threw(DiceDoesntFit, g)
    ensures g.cells[c].content.None? && PointingDirection(g.dice[d].faces) == g.cells[c].pointing
            ==> r.Returned?
    ensures r.Returned? ==>
              && r.state.cells.Keys == g.cells.Keys && r.state.dice.Keys == g.dice.Keys
              && r.state.cells[c].content == Some(d)
              && r.state.dice[d] == g.dice[d].(currentCell := Some(c), log := [])
              && (g.dice[d].currentCell.Some? ==> r.state.cells[g.dice[d].currentCell.value].content == None)
              && (forall x :: x in g.cells && x != c && Some(x) != g.dice[d].currentCell
                    ==> r.state.cells[x] == g.cells[x])
              && (forall e :: e in g.dice && e != d ==> r.state.dice[e] == g.dice[e])
              && r.state == g.(cells := r.state.cells, dice := r.state.dice)
              && Wf(r.state)
  {
    var cell := g.cells[c];
    var die := g.dice[d];
    if cell.content.Some? then Threw(AlreadyFull, g)
    else if PointingDirection(die.faces) != cell.pointing then Threw(DiceDoesntFit, g)
    else
      var g1 := g.(cells := g.cells[c := cell.(content := Some(d))]);
      match die.currentCell
      case None =>
        var r := g1.(dice := g.dice[d := die.(currentCell := Some(c), log := [])]);
        assert Wf(r) by { MoveToWf(g, d, c, r); }
        Returned(r, ())
      case Some(prev) =>
        assert g1.cells[prev].content == Some(d);
        var s := RemoveDice(g1, prev).state;
        var r := s.(dice := s.dice[d := die.(currentCell := Some(c), log := [])]);
        assert r.cells == g.cells[c := cell.(content := Some(d))][prev := g.cells[prev].(content := None)];
        assert Wf(r) by { MoveToWf(g, d, c, r); }
        Returned(r, ())
  }

  /** The game `MoveTo` builds is well formed. */
  lemma {:induction false} MoveToWf(g: Game, d: DiceId, c: CellId, r: Game)
    requires Wf(g) && d in g.dice && c in g.cells
    requires g.cells[c].content.None?
    requires r.dice == g.dice[d := g.dice[d].(currentCell := Some(c), log := [])]
    requires g.dice[d].currentCell.None? ==> r.cells == g.cells[c := g.cells[c].(content := Some(d))]
    requires g.dice[d].currentCell.Some? ==>
               var prev := g.dice[d].currentCell.value;
               r.cells == g.cells[c := g.cells[c].(content := Some(d))][prev := g.cells[prev].(content := None)]
    requires r == g.(cells := r.cells, dice := r.dice)
    ensures Wf(r)
  {
    var prev := g.dice[d].currentCell;
    assert prev != Some(c);
    assert r.cells.Keys == g.cells.Keys;
    forall x | x in r.cells ensures r.cells[x].id == x && r.cells[x].pointing == CellPointing(x)
    {
      assert r.cells[x].id == g.cells[x].id && r.cells[x].pointing == g.cells[x].pointing;
    }
    forall x, dir | x in r.cells ensures Neighbor(r.cells[x], dir) == Neighbor(g.cells[x], dir)
    {
    }
    forall e | e in r.dice ensures DiceWf(r, e)
    {
      if e != d {
        assert g.dice[e].currentCell != prev || prev.None?;
        assert g.dice[e].currentCell != Some(c);
      }
    }
    forall x | x in r.cells && r.cells[x].content.Some?
      ensures r.cells[x].content.value in r.dice
      ensures r.dice[r.cells[x].content.value].currentCell == Some(x)
    {
      if x != c && Some(x) != prev {
        assert r.cells[x] == g.cells[x];
      }
    }
  }

  /** `placeSelectedDiceAt`: the selected die enters the cell and joins the
      current player's dice on the board. */
  function PlaceSelectedDiceAt(g: Game, c: CellId): (r: Outcome<Game, ()>)
    requires Wf(g)
    ensures SameKeys(g, r.state) && LostKept(g, r.state)
    ensures g.selected.None? ==> r == Threw(NoSelectedDice, g)
    ensures g.selected.Some? && c !in g.cells ==> r == Threw(UndefinedCell, g)
    ensures g.selected.Some? && c in g.cells ==>
              (r.Threw? <==> MoveTo(g, g.selected.value, c).Threw?)
              && (r.Threw? ==> r == MoveTo(g, g.selected.value, c))
    ensures r.Returned? ==> && g.selected.Some? && c in g.cells
                            && r.state.cells[c].content == g.selected
                            && r.state.dice[g.selected.value].currentCell == Some(c)
                            && g.selected.value in CurrentPlayer(r.state).diceOnBoard
                            && r.state.current == g.current && r.state.selected == g.selected
    ensures r.Returned? ==>
              var d := g.selected.value;
              var from := g.dice[d].currentCell;
              && r.state.dice[d] == g.dice[d].(currentCell := Some(c), log := [])
              && (from.Some? ==> r.state.cells[from.value].content == None)
              && (forall x :: x in g.cells && x != c && Some(x) != from ==> r.state.cells[x] == g.cells[x])
              && (forall e :: e in g.dice && e != d ==> r.state.dice[e] == g.dice[e])
              && CurrentPlayer(r.state) == PlaceDice(CurrentPlayer(g), d)
              && PlayerAt(r.state, NextIndex(g)) == PlayerAt(g, NextIndex(g))
    ensures Wf(r.state)
  {
    if g.selected.None? then Threw(NoSelectedDice, g)
    else if c !in g.cells then Threw(UndefinedCell, g)
    else
      var d := g.selected.value;
      match MoveTo(g, d, c)
      case Threw(e, s) => Threw(e, s)
      case Returned(s, _) => Returned(JoinBoard(s, d), ())
  }

  /** The last step of `placeSelectedDiceAt`: the die joins the current
      player's dice on the board; nothing else changes. */
  function JoinBoard(s: Game, d: DiceId): (r: Game)
    requires Wf(s) && d in s.dice
    ensures Wf(r) && SameKeys(s, r) && LostKept(s, r)
    ensures CurrentPlayer(r) == PlaceDice(CurrentPlayer(s), d)
    ensures PlayerAt(r, NextIndex(s)) == PlayerAt(s, NextIndex(s))
    ensures r == s.(p1 := r.p1, p2 := r.p2)
  {
    WithPlayer(s, s.current, PlaceDice(CurrentPlayer(s), d))
  }

  /** `captureDiceAt`: empties the cell and hands its die to the next
      player's `loseDice`. */
  function CaptureDiceAt(g: Game, c: CellId): (r: Outcome<Game, DiceId>)
    requires Wf(g)
    ensures SameKeys(g, r.state) && LostKept(g, r.state)
    ensures c !in g.cells ==> r == Threw(UndefinedCell, g)
    ensures c in g.cells && g.cells[c].content.None? ==> r == Threw(EmptyCell, g)
    ensures c in g.cells && g.cells[c].content.Some? ==> r.Returned?
    ensures r.Returned? ==> && c in g.cells && g.cells[c].content == Some(r.value)
                            && r.state.cells[c].content == None
                            && r.state.dice[r.value].currentCell == None
                            && r.value !in PlayerAt(r.state, NextIndex(g)).diceOnBoard
                            && PlayerAt(r.state, NextIndex(g)) == LoseDice(PlayerAt(g, NextIndex(g)), r.value)
                            && CurrentPlayer(r.state) == CurrentPlayer(g)
                            && r.state.selected == g.selected && r.state.current == g.current
    ensures r.Returned? ==> && (forall x :: x in g.cells && x != c ==> r.state.cells[x] == g.cells[x])
                            && r.state.dice[r.value] == g.dice[r.value].(currentCell := None)
                            && (forall e :: e in g.dice && e != r.value ==> r.state.dice[e] == g.dice[e])
    ensures Wf(r.state)
  {
    if c !in g.cells then Threw(UndefinedCell, g)
    else
      match RemoveDice(g, c)
      case Threw(e, s) => Threw(e, s)
      case Returned(s, d) =>
        var i := NextIndex(g);
        var r := WithPlayer(s, i, LoseDice(PlayerAt(s, i), d));
        assert Wf(r) by { RemoveDiceWf(g, c, s, r); }
        Returned(r, d)
  }

  lemma {:induction false} RemoveDiceWf(g: Game, c: CellId, s: Game, r: Game)
    requires Wf(g) && c in g.cells && g.cells[c].content.Some?
    requires RemoveDice(g, c) == Returned(s, g.cells[c].content.value)
    requires r == s.(p1 := r.p1, p2 := r.p2)
    requires r.p1.id == 1 && r.p2.id == 2
    requires forall d :: d in r.p1.diceOnBoard ==> d in g.p1.diceOnBoard
    requires forall d :: d in r.p2.diceOnBoard ==> d in g.p2.diceOnBoard
    ensures Wf(r)
  {
    var d := g.cells[c].content.value;
    forall x, dir | x in r.cells ensures Neighbor(r.cells[x], dir) == Neighbor(g.cells[x], dir)
    {
    }
    forall e | e in r.dice ensures DiceWf(r, e)
    {
      if e != d {
        assert g.dice[e].currentCell != Some(c);
      }
    }
  }

  /** `Tridice.moveDice`: the selected die, if it is the current player's,
      tries one move. */
  function MoveDice(g: Game, dir: Direction): (r: Outcome<Game, ()>)
    requires Wf(g)
    ensures SameKeys(g, r.state) && LostKept(g, r.state)
    ensures g.selected.None? ==> r == Threw(NoSelectedDice, g)
    ensures g.selected.Some? && g.dice[g.selected.value].owner != CurrentPlayer(g).id ==> r == Threw(WrongTurnMove, g)
    ensures g.selected.Some? && g.dice[g.selected.value].owner == CurrentPlayer(g).id ==>
              var d := g.dice[g.selected.value];
              var t := TryMoveTo(d, NeighborSlot(g, d, dir), dir);
              && (t.Err? ==> r == Threw(t.error, g))
              && (t.Ok? ==> r == Returned(g.(dice := g.dice[g.selected.value := t.value]), ()))
    ensures Wf(r.state)
  {
    if g.selected.None? then Threw(NoSelectedDice, g)
    else
      var id := g.selected.value;
      var d := g.dice[id];
      if d.owner != CurrentPlayer(g).id then Threw(WrongTurnMove, g)
      else
        match TryMoveTo(d, NeighborSlot(g, d, dir), dir)
        case Err(e) => Threw(e, g)
        case Ok(next) =>
          var r := g.(dice := g.dice[id := next]);
          assert DiceWf(r, id) by {
            var c := d.currentCell.value;
            assert Neighbor(g.cells[c], dir).id == c + Offset(dir);
            assert next.log[|next.log| - 1].cell in g.cells;
          }
          assert forall e :: e in r.dice && e != id ==> r.dice[e] == g.dice[e];
          Returned(r, ())
  }

  /** The neighbour slot of the die's committed cell in direction `dir`, or
      `None` when the die is in no cell. */
  function NeighborSlot(g: Game, d: Dice, dir: Direction): (r: Option<Link>)
    requires d.currentCell.Some? ==> d.currentCell.value in g.cells
    ensures r.Some? <==> d.currentCell.Some?
  {
    match d.currentCell
    case None => None
    case Some(c) => Some(Neighbor(g.cells[c], dir))
  }

  /** `Tridice.undoMove`: undoes the selected die's last move; with no die
      selected it does nothing. */
  function UndoSelected(g: Game): (r: Outcome<Game, ()>)
    requires Wf(g)
    ensures SameKeys(g, r.state) && LostKept(g, r.state)
    ensures g.selected.None? ==> r == Returned(g, ())
    ensures g.selected.Some? ==>
              var u := UndoMove(g.dice[g.selected.value]);
              && r.state == g.(dice := g.dice[g.selected.value := u.state])
              && (r.Threw? <==> u.Threw?)
              && (r.Threw? ==> r.error == u.error)
    ensures Wf(r.state)
  {
    match g.selected
    case None => Returned(g, ())
    case Some(id) =>
      var u := UndoMove(g.dice[id]);
      var r := g.(dice := g.dice[id := u.state]);
      assert DiceWf(r, id);
      assert forall e :: e in r.dice && e != id ==> r.dice[e] == g.dice[e];
      match u
      case Threw(e, _) => Threw(e, r)
      case Returned(_, _) => Returned(r, ())
  }

  /** `fixTemporaryFaces`: commits the tried moves. With moves left it
      refuses and changes nothing; otherwise the temporary faces become the
      committed ones first, and then the die moves to the last logged cell.
      With nothing logged the lookup of the last entry fails on `undefined`. */
  function FixTemporaryFaces(g: Game, id: DiceId): (r: Outcome<Game, ()>)
    requires Wf(g) && id in g.dice
    ensures SameKeys(g, r.state) && LostKept(g, r.state)
    ensures g.dice[id].moveCount != 0 ==> r == Threw(HasMovesLeft, g)
    ensures g.dice[id].moveCount == 0 && g.dice[id].log == [] ==> r == Threw(NullDereference, CommitFaces(g, id))
    ensures g.dice[id].moveCount == 0 && g.dice[id].log != [] ==>
              var m := MoveTo(CommitFaces(g, id), id, g.dice[id].log[|g.dice[id].log| - 1].cell);
              && (r.Returned? <==> m.Returned?)
              && (r.Threw? ==> r == m)
    ensures r.Returned? ==>
              var d := g.dice[id];
              && d.moveCount == 0 && d.log != []
              && r.state.dice[id] == d.(faces := d.temporary, currentCell := Some(d.log[|d.log| - 1].cell),
                                        log := [], moveCount := Top(d.temporary))
              && r.state.cells[d.log[|d.log| - 1].cell].content == Some(id)
              && r.state.selected == g.selected && r.state.current == g.current
    ensures r.Returned? ==>
              var from := g.dice[id].currentCell;
              var to := g.dice[id].log[|g.dice[id].log| - 1].cell;
              && (from.Some? ==> r.state.cells[from.value].content == None)
              && (forall x :: x in g.cells && x != to && Some(x) != from ==> r.state.cells[x] == g.cells[x])
              && (forall e :: e in g.dice && e != id ==> r.state.dice[e] == g.dice[e])
              && r.state.p1 == g.p1 && r.state.p2 == g.p2
    ensures Wf(r.state)
  {
    var d := g.dice[id];
    if d.moveCount != 0 then Threw(HasMovesLeft, g)
    else
      var g1 := CommitFaces(g, id);
      if d.log == [] then Threw(NullDereference, g1)
      else
        match MoveTo(g1, id, d.log[|d.log| - 1].cell)
        case Threw(e, s) => Threw(e, s)
        case Returned(s, _) => Returned(RefillMoves(s, id), ())
  }

  /** The last step of `fixTemporaryFaces`: the count becomes the new top. */
  function RefillMoves(s: Game, id: DiceId): (r: Game)
    requires Wf(s) && id in s.dice
    ensures Wf(r) && SameKeys(s, r) && LostKept(s, r)
    ensures r.dice[id].moveCount == Top(r.dice[id].faces)
    ensures r == s.(dice := s.dice[id := r.dice[id]])
    ensures r.dice[id].(moveCount := s.dice[id].moveCount) == s.dice[id]
  {
    var x := s.dice[id];
    var r := s.(dice := s.dice[id := x.(moveCount := Top(x.faces))]);
    assert DiceWf(r, id);
    assert forall e :: e in r.dice && e != id ==> r.dice[e] == s.dice[e];
    r
  }

  /** The first step of `fixTemporaryFaces`: the tried orientation becomes
      the committed one, before anything else can fail. */
  function CommitFaces(g: Game, id: DiceId): (g1: Game)
    requires Wf(g) && id in g.dice
    ensures Wf(g1) && SameKeys(g, g1) && LostKept(g, g1)
    ensures g1.dice[id].faces == g.dice[id].temporary
    ensures g1 == g.(dice := g.dice[id := g1.dice[id]])
    ensures g1.dice[id].(faces := g.dice[id].faces) == g.dice[id]
  {
    var d := g.dice[id];
    var g1 := g.(dice := g.dice[id := d.(faces := d.temporary)]);
    assert Wf(g1) by {
      assert DiceWf(g1, id);
      assert forall e :: e in g1.dice && e != id ==> g1.dice[e] == g.dice[e];
    }
    g1
  }

  /** A die that has wandered back to the cell it is committed to cannot
      end its moves there: the cell is still occupied by the die itself. */
  lemma FixTemporaryFacesAtHome(g: Game, id: DiceId)
    requires Wf(g) && id in g.dice
    requires g.dice[id].moveCount == 0 && g.dice[id].log != []
    requires Some(g.dice[id].log[|g.dice[id].log| - 1].cell) == g.dice[id].currentCell
    ensures FixTemporaryFaces(g, id).Threw? && FixTemporaryFaces(g, id).error == AlreadyFull
  {
  }

  /** `endTurn(placingDice)`: unless a die was being placed, the selected die
      commits its moves; then the selection is dropped and the turn passes. */
  function EndTurn(g: Game, placingDice: bool): (r: Outcome<Game, ()>)
    requires Wf(g)
    ensures SameKeys(g, r.state) && LostKept(g, r.state)
    ensures !placingDice && g.selected.Some? ==>
              var f := FixTemporaryFaces(g, g.selected.value);
              && (f.Threw? ==> r == f)
              && (f.Returned? ==> r == Returned(NextTurn(f.state.(selected := None)), ()))
    ensures placingDice || g.selected.None? ==> r == Returned(NextTurn(g.(selected := None)), ())
    ensures r.Returned? ==> r.state.selected == None && r.state.current == 1 - g.current
    ensures r.Threw? && r.error == HasMovesLeft ==> r.state == g
    ensures Wf(r.state)
  {
    if !placingDice && g.selected.Some? then
      match FixTemporaryFaces(g, g.selected.value)
      case Threw(e, s) => Threw(e, s)
      case Returned(s, _) => Returned(NextTurn(s.(selected := None)), ())
    else Returned(NextTurn(g.(selected := None)), ())
  }

  /** The `while (!cell.diceFits(dice)) dice.rotate("right")` loop. */
  function RotateUntilFits(d: Dice, p: Pointing): (r: Dice)
    requires Valid(d.faces)
    ensures PointingDirection(r.faces) == p && Valid(r.faces)
    ensures Top(r.faces) == Top(d.faces)
    ensures r == d || r == RotateDice(d, Right)
    ensures r == d.(faces := r.faces, temporary := r.temporary)
    decreases if PointingDirection(d.faces) == p then 0 else 1
  {
    if PointingDirection(d.faces) == p then d
    else
      var next := RotateDice(d, Right);
      assert PointingDirection(next.faces) == p;
      RotateUntilFits(next, p)
  }

  /** `rollDiceToFit`: rolls the selected die and turns it until it fits the
      cell. The roll, given here as `rolled`, happens before the cell is
      looked up. */
  function RollDiceToFit(g: Game, c: CellId, rolled: Faces): (r: Outcome<Game, ()>)
    requires Wf(g) && Valid(rolled)
    ensures SameKeys(g, r.state) && LostKept(g, r.state)
    ensures g.selected.None? ==> r == Threw(NoSelectedDice, g)
    ensures g.selected.Some? && c !in g.cells ==>
              r == Threw(UndefinedCell, g.(dice := g.dice[g.selected.value := Roll(g.dice[g.selected.value], rolled)]))
    ensures r.Returned? ==>
              var x := r.state.dice[g.selected.value];
              && g.selected.Some? && c in g.cells
              && PointingDirection(x.faces) == g.cells[c].pointing
              && x.moveCount == Top(x.faces) == Top(rolled)
              && x.temporary == x.faces
              && (x.faces == rolled || x.faces == Rotate(rolled, Right))
              && x == g.dice[g.selected.value].(faces := x.faces, temporary := x.temporary, moveCount := x.moveCount)
              && (forall e :: e in g.dice && e != g.selected.value ==> r.state.dice[e] == g.dice[e])
              && r.state == g.(dice := r.state.dice)
    ensures Wf(r.state)
  {
    if g.selected.None? then Threw(NoSelectedDice, g)
    else
      var id := g.selected.value;
      var rolledDice := Roll(g.dice[id], rolled);
      var g1 := g.(dice := g.dice[id := rolledDice]);
      assert Wf(g1) by {
        assert DiceWf(g1, id);
        assert forall e :: e in g1.dice && e != id ==> g1.dice[e] == g.dice[e];
      }
      if c !in g.cells then Threw(UndefinedCell, g1)
      else
        var r := g1.(dice := g1.dice[id := RotateUntilFits(rolledDice, g.cells[c].pointing)]);
        assert DiceWf(r, id);
        assert forall e :: e in r.dice && e != id ==> r.dice[e] == g.dice[e];
        Returned(r, ())
  }

  /** What the board shows of a die: its committed faces and its owner. */
  function Show(x: Dice): (s: Snapshot)
    ensures ShownFaces(s) == x.faces && s.owner == x.owner
  {
    assert [x.faces[0], x.faces[1], x.faces[2], x.faces[3], x.faces[4]] == x.faces;
    Snapshot(Top(x.faces), x.faces[3], x.faces[4], x.faces[0], x.faces[2], x.owner)
  }

  /** The five numbers of a snapshot, in the slot order of `Faces`. */
  function ShownFaces(s: Snapshot): Faces {
    [s.left, s.top, s.right, s.up, s.down]
  }

  /** `board()`: a snapshot of every occupied cell. */
  function Board(g: Game): (b: map<CellId, Snapshot>)
    requires Wf(g)
    ensures forall c :: c in b <==> c in g.cells && g.cells[c].content.Some?
    ensures forall c :: c in b ==> && ShownFaces(b[c]) == g.dice[g.cells[c].content.value].faces
                                   && b[c].owner == g.dice[g.cells[c].content.value].owner
                                   && Valid(ShownFaces(b[c])) && (b[c].owner == 1 || b[c].owner == 2)
  {
    assert forall c :: c in g.cells && g.cells[c].content.Some? ==> DiceWf(g, g.cells[c].content.value);
    map c | c in g.cells && g.cells[c].content.Some? :: Show(g.dice[g.cells[c].content.value])
  }

  /** After a capture the captured cell drops out of the board and every
      other cell shows what it showed before. */
  lemma {:induction false} BoardAfterCapture(g: Game, c: CellId)
    requires Wf(g) && CaptureDiceAt(g, c).Returned?
    ensures var b, b' := Board(g), Board(CaptureDiceAt(g, c).state);
            && c in b && c !in b'
            && forall x :: x != c ==> (x in b' <==> x in b) && (x in b ==> b'[x] == b[x])
  {
    var r := CaptureDiceAt(g, c);
    var b, b' := Board(g), Board(r.state);
    forall x | x != c && x in b
      ensures x in b' && b'[x] == b[x]
    {
      var e := g.cells[x].content.value;
      assert g.dice[e].currentCell == Some(x);
      assert e != r.value;
      assert r.state.cells[x] == g.cells[x];
    }
  }

  /** After a successful `moveTo` the destination shows the moving die's
      committed faces, the cell it left is empty, and every other cell shows
      what it showed before. */
  lemma {:induction false} BoardAfterMoveTo(g: Game, d: DiceId, c: CellId)
    requires Wf(g) && d in g.dice && c in g.cells && MoveTo(g, d, c).Returned?
    ensures var b, b' := Board(g), Board(MoveTo(g, d, c).state);
            var from := g.dice[d].currentCell;
            && c in b' && b'[c] == Show(g.dice[d]) && c !in b
            && (from.Some? ==> from.value in b && from.value !in b')
            && forall x :: x != c && Some(x) != from ==> (x in b' <==> x in b) && (x in b ==> b'[x] == b[x])
  {
    var r := MoveTo(g, d, c);
    var b, b' := Board(g), Board(r.state);
    var from := g.dice[d].currentCell;
    forall x | x != c && Some(x) != from && x in b
      ensures x in b' && b'[x] == b[x]
    {
      var e := g.cells[x].content.value;
      assert g.dice[e].currentCell == Some(x);
      assert r.state.cells[x] == g.cells[x];
    }
  }

  /** `didPlayerLose` */
  predicate Lost(p: Player) {
    |p.lostDice| == PlayerDiceCount
  }

  /** `isGameOver` */
  predicate IsGameOver(g: Game) {
    Lost(g.p1) || Lost(g.p2)
  }

  /** `winner`: the id of the winning player; the first player's loss is
      checked first. */
  function Winner(g: Game): (w: Option<int>)
    ensures w.Some? <==> IsGameOver(g)
    ensures Lost(g.p1) ==> w == Some(g.p2.id)
    ensures !Lost(g.p1) && Lost(g.p2) ==> w == Some(g.p1.id)
  {
    if Lost(g.p1) then Some(g.p2.id)
    else if Lost(g.p2) then Some(g.p1.id)
    else None
  }

  /** A call a front end can make on the game. `Select` names a die of the
      game; `RollToFit` carries the orientation the roll produced. */
  datatype Action =
    | Select(die: DiceId)
    | Place(cell: CellId)
    | Capture(cell: CellId)
    | Step(dir: Direction)
    | Undo
    | End(placingDice: bool)
    | RollToFit(cell: CellId, rolled: Faces)

  /** The game after one call, whether it returned or threw: a caller that
      catches the exception carries on with the state left behind. */
  function Apply(g: Game, a: Action): Game
    requires Wf(g)
  {
    match a
    case Select(d) => if d in g.dice then SelectDice(g, d) else g
    case Place(c) => PlaceSelectedDiceAt(g, c).state
    case Capture(c) => CaptureDiceAt(g, c).state
    case Step(dir) => MoveDice(g, dir).state
    case Undo => UndoSelected(g).state
    case End(placing) => EndTurn(g, placing).state
    case RollToFit(c, f) => if Valid(f) then RollDiceToFit(g, c, f).state else g
  }

  lemma {:induction false} ApplyKeeps(g: Game, a: Action)
    requires Wf(g)
    ensures Wf(Apply(g, a)) && LostKept(g, Apply(g, a))
  {
  }

  function Run(g: Game, acts: seq<Action>): Game
    requires Wf(g)
    decreases |acts|
  {
    if acts == [] then g
    else
      ApplyKeeps(g, acts[0]);
      Run(Apply(g, acts[0]), acts[1..])
  }

  /** Whatever is played, the lost dice never change and the game stays well formed. */
  lemma {:induction false} RunKeepsLost(g: Game, acts: seq<Action>)
    requires Wf(g)
    ensures Wf(Run(g, acts)) && LostKept(g, Run(g, acts))
    decreases |acts|
  {
    if acts != [] {
      ApplyKeeps(g, acts[0]);
      RunKeepsLost(Apply(g, acts[0]), acts[1..]);
    }
  }

  /** From any game in which nobody has lost a die, no sequence of calls
      ever makes `isGameOver` true, and `winner` stays undefined. */
  lemma {:induction false} NeverGameOverFrom(g: Game, acts: seq<Action>)
    requires Wf(g) && g.p1.lostDice == [] && g.p2.lostDice == []
    ensures !IsGameOver(Run(g, acts)) && Winner(Run(g, acts)) == None
  {
    RunKeepsLost(g, acts);
  }

  /** `loseDice` never fills `lostDice`, so a game started by the
      constructor never ends. */
  lemma {:induction false} NeverGameOver(acts: seq<Action>)
    ensures !IsGameOver(Run(NewGame(), acts))
  {
    var g := NewGame();
    NewGameStart();
    NeverGameOverFrom(g, acts);
  }
}
