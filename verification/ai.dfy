/** The AI's decisions on a game (class `AI`, ai.ts:18-217).

    The AI reads the game, computes its reach maps on its own arithmetic
    board of height `h` (module `Reach`) and acts through the engine's calls:
    `selectDice`, `captureDiceAt` and `moveDice`. A die's `topFace` is the top
    number of its committed faces and `cell` its committed cell. */
module Ai {
  import opened Outcomes
  import opened OrderedMaps
  import opened DiceFaces
  import opened Topology
  import opened Pieces
  import opened Players
  import opened Engine
  import opened Reach

  /** `dice.topFace` */
  function TopFace(d: Dice): int {
    Top(d.faces)
  }

  /** `diceCanReachCell(dice, cellID)`: the die's reach map from its cell, with
      its top number as the step bound, holds `k` with a full-length path.
      Reading the cell of a die that is in no cell is a TypeError. */
  function DiceCanReachCell(h: int, d: Dice, k: CellId): (r: Result<bool>)
    ensures r.Err? <==> d.currentCell.None?
    ensures r.Err? ==> r.error == NullDereference
    ensures r.Ok? ==> (r.value <==> exists p :: |p| == TopFace(d) && IsWalk(h, d.currentCell.value, p, k))
  {
    match d.currentCell
    case None => Err(NullDereference)
    case Some(c) =>
      ReachFull(h, c, TopFace(d), k);
      Ok(Full(TopFace(d), ReachFrom(h, c, TopFace(d)), k))
  }

  // Moving along a path.

  /** The directions `moveDiceThroughPath` requests, one per consecutive pair. */
  function Steps(path: seq<CellId>): (ds: seq<Direction>)
    ensures |ds| == if |path| < 2 then 0 else |path| - 1
    ensures forall i :: 0 <= i < |ds| ==> ds[i] == StepDirection(path[i], path[i + 1])
  {
    if |path| < 2 then [] else [StepDirection(path[0], path[1])] + Steps(path[1..])
  }

  /** The log entries of successful moves of a die committed to cell `c`:
      each move's target is looked up from `c`, not from the cell the
      previous move reached. */
  function Logged(c: CellId, ds: seq<Direction>): (l: seq<LoggedMove>)
    ensures |l| == |ds|
    ensures forall i :: 0 <= i < |ds| ==> l[i] == LoggedMove(c + Offset(ds[i]), Inverse(ds[i]))
  {
    seq(|ds|, i requires 0 <= i < |ds| => LoggedMove(c + Offset(ds[i]), Inverse(ds[i])))
  }

  /** The faces after tipping through `ds` one by one. */
  function Tips(f: Faces, ds: seq<Direction>): Result<Faces>
    decreases |ds|
  {
    if ds == [] then Ok(f)
    else
      match Move(f, ds[0])
      case Err(e) => Err(e)
      case Ok(t) => Tips(t, ds[1..])
  }

  /** `AI.moveDiceThroughPath`: one `moveDice` per consecutive pair of the
      path, in the direction of the step; the first throw ends the walk and
      keeps the moves made before it. */
  function MoveThroughPath(g: Game, path: seq<CellId>): (r: Outcome<Game, ()>)
    requires Wf(g)
    ensures Wf(r.state) && SameKeys(g, r.state) && LostKept(g, r.state)
    ensures r.state == g.(dice := r.state.dice)
    ensures |path| < 2 ==> r == Returned(g, ())
    ensures r.Threw? ==> r.error in {NoSelectedDice, WrongTurnMove, NoMovesLeft, InvalidDirection, IllegalTip}
    decreases |path|
  {
    if |path| < 2 then Returned(g, ())
    else
      match MoveDice(g, StepDirection(path[0], path[1]))
      case Threw(e, s) => Threw(e, s)
      case Returned(s, _) => MoveThroughPath(s, path[1..])
  }

  /** One `moveDice` that returns: the selected die spends a move and logs
      the neighbour of its committed cell. */
  lemma MoveDiceStep(g: Game, dir: Direction)
    requires Wf(g) && MoveDice(g, dir).Returned?
    ensures g.selected.Some? && g.dice[g.selected.value].currentCell.Some?
    ensures var id := g.selected.value;
            var d := g.dice[id];
            var m := Move(d.temporary, dir);
            && m.Ok?
            && MoveDice(g, dir).state.dice ==
                 g.dice[id := d.(temporary := m.value, moveCount := d.moveCount - 1,
                                 log := d.log + [LoggedMove(d.currentCell.value + Offset(dir), Inverse(dir))])]
  {
    var d := g.dice[g.selected.value];
    var c := d.currentCell.value;
    assert Neighbor(g.cells[c], dir).id == c + Offset(dir);
  }

  lemma StepsCons(path: seq<CellId>)
    requires |path| >= 2
    ensures Steps(path) == [StepDirection(path[0], path[1])] + Steps(path[1..])
  {
  }

  lemma LoggedCons(c: CellId, dir: Direction, ds: seq<Direction>)
    ensures Logged(c, [dir] + ds) == [LoggedMove(c + Offset(dir), Inverse(dir))] + Logged(c, ds)
  {
  }

  lemma TipsCons(f: Faces, dir: Direction, ds: seq<Direction>)
    requires Move(f, dir).Ok?
    ensures Tips(f, [dir] + ds) == Tips(Move(f, dir).value, ds)
  {
    assert ([dir] + ds)[1..] == ds;
  }

  lemma TipsOne(f: Faces, dir: Direction)
    ensures Tips(f, [dir]) == Move(f, dir)
  {
    assert [dir][1..] == [];
    if Move(f, dir).Ok? {
      assert Tips(Move(f, dir).value, []) == Move(f, dir);
    }
  }

  /** `e` is `d` after the successful moves `ds`: one move spent and one
      entry logged against the committed cell per step, the temporary faces
      tipped through the steps, everything else as it was. */
  predicate Advanced(d: Dice, e: Dice, ds: seq<Direction>)
    requires d.currentCell.Some?
  {
    && e == d.(temporary := e.temporary, moveCount := d.moveCount - |ds|,
               log := d.log + Logged(d.currentCell.value, ds))
    && Tips(d.temporary, ds) == Ok(e.temporary)
  }

  lemma {:induction false} AdvancedCons(d: Dice, d1: Dice, e: Dice, dir: Direction, ds: seq<Direction>)
    requires d.currentCell.Some? && Advanced(d, d1, [dir]) && Advanced(d1, e, ds)
    ensures Advanced(d, e, [dir] + ds)
  {
    var c := d.currentCell.value;
    TipsOne(d.temporary, dir);
    LoggedCons(c, dir, ds);
    assert Logged(c, [dir]) == [LoggedMove(c + Offset(dir), Inverse(dir))];
    assert d.log + Logged(c, [dir] + ds) == d1.log + Logged(c, ds);
    assert [dir][1..] == [];
    TipsCons(d.temporary, dir, ds);
  }

  /** A walk that returns made its first move, which advanced the selected
      die by one step and touched no other die, and then walked the rest. */
  lemma WalkStep(g: Game, path: seq<CellId>) returns (s: Game)
    requires Wf(g) && |path| >= 2 && MoveThroughPath(g, path).Returned?
    ensures g.selected.Some? && g.dice[g.selected.value].currentCell.Some?
    ensures Wf(s) && s.selected == g.selected
    ensures var id := g.selected.value;
            && s.dice == g.dice[id := s.dice[id]]
            && Advanced(g.dice[id], s.dice[id], [StepDirection(path[0], path[1])])
    ensures MoveThroughPath(g, path) == MoveThroughPath(s, path[1..])
  {
    var dir := StepDirection(path[0], path[1]);
    s := MoveDice(g, dir).state;
    MoveDiceStep(g, dir);
    assert [dir][1..] == [];
  }

  /** A walk that returns changes the selected die, which is in a cell, and
      no other. */
  lemma {:induction false} MoveThroughPathFrame(g: Game, path: seq<CellId>)
    requires Wf(g) && |path| >= 2 && MoveThroughPath(g, path).Returned?
    ensures g.selected.Some? && g.dice[g.selected.value].currentCell.Some?
    ensures var id := g.selected.value;
            MoveThroughPath(g, path).state.dice == g.dice[id := MoveThroughPath(g, path).state.dice[id]]
    decreases |path|
  {
    var s := WalkStep(g, path);
    var id := g.selected.value;
    var t := MoveThroughPath(s, path[1..]).state.dice;
    if |path[1..]| >= 2 {
      MoveThroughPathFrame(s, path[1..]);
    }
    UpdateTwice(g.dice, s.dice, t, id);
  }

  lemma UpdateTwice(a: map<DiceId, Dice>, b: map<DiceId, Dice>, c: map<DiceId, Dice>, id: DiceId)
    requires id in b && b == a[id := b[id]]
    requires id in c && c == b[id := c[id]]
    ensures c == a[id := c[id]]
  {
  }

  /** What a walk that returns has done to the selected die: it has
      advanced through the steps of the path. */
  lemma {:induction false} MoveThroughPathEffect(g: Game, path: seq<CellId>)
    requires Wf(g) && |path| >= 2 && MoveThroughPath(g, path).Returned?
    ensures g.selected.Some? && g.dice[g.selected.value].currentCell.Some?
    ensures var id := g.selected.value;
            Advanced(g.dice[id], MoveThroughPath(g, path).state.dice[id], Steps(path))
    decreases |path|
  {
    var dir := StepDirection(path[0], path[1]);
    var s := WalkStep(g, path);
    var id := g.selected.value;
    var d, d1 := g.dice[id], s.dice[id];
    var rest := path[1..];
    StepsCons(path);
    var e := MoveThroughPath(s, rest).state.dice[id];
    if |rest| >= 2 {
      MoveThroughPathEffect(s, rest);
      AdvancedCons(d, d1, e, dir, Steps(rest));
    } else {
      assert Steps(rest) == [];
      assert [dir] + Steps(rest) == [dir];
    }
  }

  /** A die of the current player with fewer moves left than the path has
      steps cannot finish it. */
  lemma {:induction false} MoveThroughPathTooLong(g: Game, path: seq<CellId>)
    requires Wf(g) && g.selected.Some?
    requires g.dice[g.selected.value].owner == CurrentPlayer(g).id
    requires 0 <= g.dice[g.selected.value].moveCount < |path| - 1
    ensures MoveThroughPath(g, path).Threw?
    decreases |path|
  {
    var dir := StepDirection(path[0], path[1]);
    var d := g.dice[g.selected.value];
    if d.moveCount != 0 && MoveDice(g, dir).Returned? {
      MoveThroughPathTooLong(MoveDice(g, dir).state, path[1..]);
    }
  }

  // Capturing.

  /** `possibleCapture`: the die to move, the cell to capture, the top number
      shown there and the path to replay, ending in that cell. */
  datatype PossibleCapture = PossibleCapture(origin: DiceId, target: CellId, top: int, path: seq<CellId>)

  /** The captures one reach map offers: the full-length entries whose cell
      holds a die of another player, in map order. */
  function EntryCaptures(b: map<CellId, Snapshot>, me: int, origin: DiceId, top: int, entries: ReachMap): (cs: seq<PossibleCapture>)
    ensures forall x :: x in cs <==>
              exists k, p :: (k, p) in entries && |p| == top && k in b && b[k].owner != me
                             && x == PossibleCapture(origin, k, b[k].top, p + [k])
    decreases |entries|
  {
    if entries == [] then []
    else
      var (k, p) := entries[0];
      var rest := EntryCaptures(b, me, origin, top, entries[1..]);
      assert forall e :: e in entries[1..] ==> e in entries;
      (if |p| == top && k in b && b[k].owner != me then [PossibleCapture(origin, k, b[k].top, p + [k])] else []) + rest
  }

  /** `x` is a capture the die `id` offers on a board `b` seen by player `me`. */
  ghost predicate Offers(g: Game, h: int, b: map<CellId, Snapshot>, me: int, id: DiceId, x: PossibleCapture)
    requires id in g.dice
  {
    var d := g.dice[id];
    && d.currentCell.Some?
    && var reach := ReachFrom(h, d.currentCell.value, TopFace(d));
    && x.origin == id
    && Full(TopFace(d), reach, x.target)
    && x.target in b && b[x.target].owner != me && x.top == b[x.target].top
    && x.path == Get(reach, x.target).value + [x.target]
  }

  /** Every die of `ids` is in a cell. */
  predicate AllPlaced(g: Game, ids: seq<DiceId>) {
    forall i :: i in ids ==> i in g.dice && g.dice[i].currentCell.Some?
  }

  lemma PlacedMember(g: Game, ids: seq<DiceId>, id: DiceId)
    requires AllPlaced(g, ids) && id in ids
    ensures id in g.dice && g.dice[id].currentCell.Some?
  {
  }

  lemma Unplaced(g: Game, ids: seq<DiceId>, id: DiceId)
    requires id in ids && id in g.dice && g.dice[id].currentCell.None?
    ensures !AllPlaced(g, ids)
  {
  }

  /** The captures of the dice `ids`, die by die. A die in no cell throws
      `UndefinedCell`. */
  function DiceCaptures(g: Game, h: int, b: map<CellId, Snapshot>, me: int, ids: seq<DiceId>): (r: Result<seq<PossibleCapture>>)
    requires forall id :: id in ids ==> id in g.dice
    ensures r.Err? <==> !AllPlaced(g, ids)
    ensures r.Err? ==> r.error == UndefinedCell
    ensures r.Ok? ==> forall x :: x in r.value ==> x.origin in ids
    decreases |ids|
  {
    if ids == [] then Ok([])
    else
      assert forall id :: id in ids ==> id in g.dice;
      assert ids[0] in ids;
      assert forall id :: id in ids[1..] ==> id in ids;
      var d := g.dice[ids[0]];
      if d.currentCell.None? then
        Unplaced(g, ids, ids[0]);
        Err(UndefinedCell)
      else
        var c := d.currentCell.value;
        match DiceCaptures(g, h, b, me, ids[1..])
        case Err(e) => Err(e)
        case Ok(rest) => Ok(EntryCaptures(b, me, ids[0], TopFace(d), ReachFrom(h, c, TopFace(d))) + rest)
  }

  /** The captures found are exactly those the dice offer. */
  lemma {:induction false} DiceCapturesSpec(g: Game, h: int, b: map<CellId, Snapshot>, me: int, ids: seq<DiceId>, x: PossibleCapture)
    requires forall id :: id in ids ==> id in g.dice
    requires DiceCaptures(g, h, b, me, ids).Ok?
    ensures x in DiceCaptures(g, h, b, me, ids).value <==> exists id :: id in ids && Offers(g, h, b, me, id, x)
    decreases |ids|
  {
    if ids != [] {
      var id := ids[0];
      var d := g.dice[id];
      var c := d.currentCell.value;
      var top := TopFace(d);
      var reach := ReachFrom(h, c, top);
      assert forall i :: i in ids[1..] ==> i in ids;
      DiceCapturesSpec(g, h, b, me, ids[1..], x);
      ReachUnique(h, c, top);
      if x in EntryCaptures(b, me, id, top, reach) {
        var k, p :| (k, p) in reach && |p| == top && k in b && b[k].owner != me
                    && x == PossibleCapture(id, k, b[k].top, p + [k]);
        GetEntry(reach, k, p);
        assert Offers(g, h, b, me, id, x);
      }
      if Offers(g, h, b, me, id, x) {
        var p := Get(reach, x.target).value;
        var i :| 0 <= i < |reach| && reach[i] == (x.target, p);
        assert (x.target, p) in reach;
      }
      if exists i :: i in ids && Offers(g, h, b, me, i, x) {
        var i :| i in ids && Offers(g, h, b, me, i, x);
        if i != id {
          assert i in ids[1..];
        }
      }
    }
  }

  /** The keep-the-best loop: a later capture replaces the kept one only when
      it shows a strictly greater top number. */
  function PickBest(cs: seq<PossibleCapture>): (r: Option<PossibleCapture>)
    ensures r.Some? <==> cs != []
    ensures r.Some? ==> r.value in cs
    decreases |cs|
  {
    if cs == [] then None
    else
      var best := PickBest(cs[..|cs| - 1]);
      var x := cs[|cs| - 1];
      if best.None? || best.value.top < x.top then Some(x) else best
  }

  /** The kept capture is the first one with the greatest top number. */
  lemma {:induction false} PickBestIsFirstMax(cs: seq<PossibleCapture>) returns (i: nat)
    requires cs != []
    ensures i < |cs| && PickBest(cs) == Some(cs[i])
    ensures forall j :: 0 <= j < |cs| ==> cs[j].top <= cs[i].top
    ensures forall j :: 0 <= j < i ==> cs[j].top < cs[i].top
    decreases |cs|
  {
    var init := cs[..|cs| - 1];
    var n := |cs| - 1;
    if init == [] {
      i := 0;
    } else {
      var i' := PickBestIsFirstMax(init);
      assert forall j :: 0 <= j < n ==> cs[j] == init[j];
      if init[i'].top < cs[n].top {
        i := n;
      } else {
        i := i';
      }
    }
  }

  /** `x` is a capture one of the current player's dice on the board offers. */
  ghost predicate Offered(g: Game, h: int, x: PossibleCapture)
    requires Wf(g)
  {
    var me := CurrentPlayer(g);
    exists id :: id in me.diceOnBoard && id in g.dice && Offers(g, h, Board(g), me.id, id, x)
  }

  /** `tryCapture`: among the full-length destinations of the current
      player's dice that hold another player's die, the first with the
      greatest top number is captured, and the capturing die replays its path
      to it. */
  function TryCapture(g: Game, h: int): (r: Outcome<Game, bool>)
    requires Wf(g)
    ensures Wf(r.state) && SameKeys(g, r.state) && LostKept(g, r.state)
    ensures CurrentPlayer(g).diceOnBoard == [] ==> r == Returned(g, false)
    ensures CurrentPlayer(g).diceOnBoard != [] && !AllPlaced(g, CurrentPlayer(g).diceOnBoard) ==>
              r == Threw(UndefinedCell, g)
    ensures r.Returned? && !r.value ==> r.state == g
  {
    var me := CurrentPlayer(g);
    if me.diceOnBoard == [] then Returned(g, false)
    else
      match DiceCaptures(g, h, Board(g), me.id, me.diceOnBoard)
      case Err(e) => Threw(e, g)
      case Ok(cs) =>
        match PickBest(cs)
        case None => Returned(g, false)
        case Some(x) =>
          var g1 := SelectDice(g, x.origin);
          match CaptureDiceAt(g1, x.target)
          case Threw(e, s) => Threw(e, s)
          case Returned(g2, _) =>
            match MoveThroughPath(g2, x.path)
            case Threw(e, s) => Threw(e, s)
            case Returned(s, _) => Returned(s, true)
  }

  /** With every die of the current player in a cell, `tryCapture` gives up
      without a change exactly when no capture is offered. */
  lemma {:induction false} TryCaptureDeclines(g: Game, h: int)
    requires Wf(g)
    requires AllPlaced(g, CurrentPlayer(g).diceOnBoard)
    ensures TryCapture(g, h) == Returned(g, false) <==> forall x :: !Offered(g, h, x)
  {
    var me := CurrentPlayer(g);
    if me.diceOnBoard != [] {
      var cs := DiceCaptures(g, h, Board(g), me.id, me.diceOnBoard).value;
      forall x ensures x in cs <==> Offered(g, h, x) {
        DiceCapturesSpec(g, h, Board(g), me.id, me.diceOnBoard, x);
      }
      if cs != [] {
        var x := PickBest(cs).value;
        assert x in cs;
        CaptureAndMove(g, h, cs, x);
      }
    }
  }

  /** When `tryCapture` succeeds it has captured an offered die of another
      player showing the greatest top number on offer, and the capturing die
      is the selected one. */
  lemma {:induction false} TryCaptureChoice(g: Game, h: int)
    requires Wf(g) && TryCapture(g, h).Returned? && TryCapture(g, h).value
    ensures exists x :: && Offered(g, h, x)
                        && (forall y :: Offered(g, h, y) ==> y.top <= x.top)
                        && g.cells[x.target].content.Some?
                        && TryCapture(g, h).state.cells[x.target].content.None?
                        && TryCapture(g, h).state.selected == Some(x.origin)
  {
    var x := TryCaptureWitness(g, h);
  }

  /** The capture `tryCapture` made, as a witness. */
  lemma {:induction false} TryCaptureWitness(g: Game, h: int) returns (x: PossibleCapture)
    requires Wf(g) && TryCapture(g, h).Returned? && TryCapture(g, h).value
    ensures && Offered(g, h, x)
            && (forall y :: Offered(g, h, y) ==> y.top <= x.top)
            && g.cells[x.target].content.Some?
            && TryCapture(g, h).state.cells[x.target].content.None?
            && TryCapture(g, h).state.selected == Some(x.origin)
  {
    var me := CurrentPlayer(g);
    TryCaptureBy(g, h);
    var cs := DiceCaptures(g, h, Board(g), me.id, me.diceOnBoard).value;
    forall y ensures y in cs <==> Offered(g, h, y) {
      DiceCapturesSpec(g, h, Board(g), me.id, me.diceOnBoard, y);
    }
    var i := PickBestIsFirstMax(cs);
    x := cs[i];
    BestOffered(g, h, cs, x);
    CaptureAndMove(g, h, cs, x);
  }

  /** A greatest capture among all those offered is a greatest offered one. */
  lemma BestOffered(g: Game, h: int, cs: seq<PossibleCapture>, x: PossibleCapture)
    requires Wf(g)
    requires forall y :: y in cs <==> Offered(g, h, y)
    requires x in cs && forall j :: 0 <= j < |cs| ==> cs[j].top <= x.top
    ensures Offered(g, h, x) && forall y :: Offered(g, h, y) ==> y.top <= x.top
  {
    forall y | Offered(g, h, y) ensures y.top <= x.top {
      var j :| 0 <= j < |cs| && cs[j] == y;
    }
  }

  /** A `tryCapture` that succeeds found captures, kept one, captured its
      target and replayed its path. */
  lemma TryCaptureBy(g: Game, h: int)
    requires Wf(g) && TryCapture(g, h).Returned? && TryCapture(g, h).value
    ensures var me := CurrentPlayer(g);
            var found := DiceCaptures(g, h, Board(g), me.id, me.diceOnBoard);
            && found.Ok? && PickBest(found.value).Some?
            && var x := PickBest(found.value).value;
               var c := CaptureDiceAt(SelectDice(g, x.origin), x.target);
               && c.Returned? && MoveThroughPath(c.state, x.path).Returned?
               && TryCapture(g, h).state == MoveThroughPath(c.state, x.path).state
  {
  }

  /** The capture step of `tryCapture` on the kept capture `x`. */
  lemma {:induction false} CaptureAndMove(g: Game, h: int, cs: seq<PossibleCapture>, x: PossibleCapture)
    requires Wf(g)
    requires forall y :: y in cs <==> Offered(g, h, y)
    requires x in cs
    ensures x.origin in g.dice && x.target in g.cells && g.cells[x.target].content.Some?
    ensures var g1 := SelectDice(g, x.origin);
            var c := CaptureDiceAt(g1, x.target);
            && c.Returned? && c.state.cells[x.target].content.None?
            && (MoveThroughPath(c.state, x.path).Returned? ==>
                  && MoveThroughPath(c.state, x.path).state.cells[x.target].content.None?
                  && MoveThroughPath(c.state, x.path).state.selected == Some(x.origin)
                  && MoveThroughPath(c.state, x.path).state != g)
  {
    assert Offered(g, h, x);
    var me := CurrentPlayer(g);
    var id :| id in me.diceOnBoard && id in g.dice && Offers(g, h, Board(g), me.id, id, x);
  }

  // Escaping.

  /** `attacker.owner.diceOnBoard`: the dice on the board of the attacker's owner. */
  function OwnerDiceOnBoard(g: Game, attacker: DiceId): (ids: seq<DiceId>)
    requires Wf(g) && attacker in g.dice
    ensures forall id :: id in ids ==> id in g.dice
  {
    if g.dice[attacker].owner == 1 then g.p1.diceOnBoard else g.p2.diceOnBoard
  }

  /** The inner loop over the enemy dice for one destination `k` reached by
      `path`: every enemy's reach is computed, and the route is set when an
      enemy cannot reach `k` and no route is set yet. */
  function EnemyScan(g: Game, h: int, enemies: seq<DiceId>, k: CellId, path: seq<CellId>, route: seq<CellId>): (r: Result<seq<CellId>>)
    requires forall id :: id in enemies ==> id in g.dice
    ensures r.Err? <==> !AllPlaced(g, enemies)
    ensures r.Err? ==> r.error == NullDereference
    decreases |enemies|
  {
    if enemies == [] then Ok(route)
    else
      assert forall id :: id in enemies ==> id in g.dice;
      assert enemies[0] in enemies;
      assert forall id :: id in enemies[1..] ==> id in enemies;
      match DiceCanReachCell(h, g.dice[enemies[0]], k)
      case Err(e) =>
        Unplaced(g, enemies, enemies[0]);
        Err(e)
      case Ok(reaches) =>
        EnemyScan(g, h, enemies[1..], k, path, if reaches || |route| > 0 then route else path + [k])
  }

  /** Some enemy die, in a cell, cannot reach `k` in exactly its top number
      of steps. */
  ghost predicate Escapes(g: Game, h: int, enemies: seq<DiceId>, k: CellId) {
    exists id :: id in enemies && id in g.dice && g.dice[id].currentCell.Some?
                 && DiceCanReachCell(h, g.dice[id], k) == Ok(false)
  }

  lemma {:induction false} EnemyScanSpec(g: Game, h: int, enemies: seq<DiceId>, k: CellId, path: seq<CellId>, route: seq<CellId>)
    requires forall id :: id in enemies ==> id in g.dice
    requires AllPlaced(g, enemies)
    ensures EnemyScan(g, h, enemies, k, path, route) ==
              Ok(if |route| > 0 || !Escapes(g, h, enemies, k) then route else path + [k])
    decreases |enemies|
  {
    if enemies != [] {
      PlacedMember(g, enemies, enemies[0]);
      assert forall id :: id in enemies[1..] ==> id in enemies;
      var reaches := DiceCanReachCell(h, g.dice[enemies[0]], k).value;
      var route1 := if reaches || |route| > 0 then route else path + [k];
      EnemyScanSpec(g, h, enemies[1..], k, path, route1);
      if Escapes(g, h, enemies[1..], k) {
        var id :| id in enemies[1..] && id in g.dice && g.dice[id].currentCell.Some?
                  && DiceCanReachCell(h, g.dice[id], k) == Ok(false);
        assert id in enemies;
      }
      if Escapes(g, h, enemies, k) && reaches {
        var id :| id in enemies && id in g.dice && g.dice[id].currentCell.Some?
                  && DiceCanReachCell(h, g.dice[id], k) == Ok(false);
        assert id in enemies[1..];
      }
    }
  }

  /** The loop over the reach map of the escaping die: only full-length
      entries are tried. */
  function EntryScan(g: Game, h: int, enemies: seq<DiceId>, top: int, entries: ReachMap, route: seq<CellId>): (r: Result<seq<CellId>>)
    requires forall id :: id in enemies ==> id in g.dice
    ensures r.Err? ==> r.error == NullDereference
    decreases |entries|
  {
    if entries == [] then Ok(route)
    else
      var (k, p) := entries[0];
      if |p| != top then EntryScan(g, h, enemies, top, entries[1..], route)
      else
        match EnemyScan(g, h, enemies, k, p, route)
        case Err(e) => Err(e)
        case Ok(route1) => EntryScan(g, h, enemies, top, entries[1..], route1)
  }

  /** The cells some enemy die, in a cell, cannot reach. */
  ghost function EscapeSet(g: Game, h: int, enemies: seq<DiceId>): iset<CellId> {
    iset k | Escapes(g, h, enemies, k)
  }

  /** Entry `i` is a full-length destination lying in `esc`. */
  ghost predicate HitAt(esc: iset<CellId>, top: int, entries: ReachMap, i: int)
    requires 0 <= i < |entries|
  {
    |entries[i].1| == top && entries[i].0 in esc
  }

  /** Entry `i` is a full-length destination some enemy cannot reach. */
  ghost predicate EscapeAt(g: Game, h: int, enemies: seq<DiceId>, top: int, entries: ReachMap, i: int)
    requires 0 <= i < |entries|
  {
    HitAt(EscapeSet(g, h, enemies), top, entries, i)
  }

  /** Some entry has a full-length path. */
  ghost predicate HasFull(top: int, entries: ReachMap) {
    exists i :: 0 <= i < |entries| && |entries[i].1| == top
  }

  /** The scan throws exactly when a full-length entry exists and an enemy
      die is in no cell. */
  lemma {:induction false} EntryScanErr(g: Game, h: int, enemies: seq<DiceId>, top: int, entries: ReachMap, route: seq<CellId>)
    requires forall id :: id in enemies ==> id in g.dice
    ensures EntryScan(g, h, enemies, top, entries, route).Err? <==> HasFull(top, entries) && !AllPlaced(g, enemies)
    decreases |entries|
  {
    if entries != [] {
      var (k, p) := entries[0];
      var rest := entries[1..];
      assert HasFull(top, entries) <==> |p| == top || HasFull(top, rest) by {
        if HasFull(top, rest) {
          var i :| 0 <= i < |rest| && |rest[i].1| == top;
          assert rest[i] == entries[i + 1];
        }
        if HasFull(top, entries) && |p| != top {
          var i :| 0 <= i < |entries| && |entries[i].1| == top;
          assert rest[i - 1] == entries[i];
        }
      }
      if |p| != top {
        EntryScanErr(g, h, enemies, top, rest, route);
      } else if AllPlaced(g, enemies) {
        EntryScanErr(g, h, enemies, top, rest, EnemyScan(g, h, enemies, k, p, route).value);
      }
    }
  }

  /** Once a route is set it is kept. */
  lemma {:induction false} EntryScanKeeps(g: Game, h: int, enemies: seq<DiceId>, top: int, entries: ReachMap, route: seq<CellId>)
    requires forall id :: id in enemies ==> id in g.dice
    requires |route| > 0 && EntryScan(g, h, enemies, top, entries, route).Ok?
    ensures EntryScan(g, h, enemies, top, entries, route).value == route
    decreases |entries|
  {
    if entries != [] {
      var (k, p) := entries[0];
      if |p| != top {
        EntryScanKeeps(g, h, enemies, top, entries[1..], route);
      } else {
        EnemyScanSpec(g, h, enemies, k, p, route);
        EntryScanKeeps(g, h, enemies, top, entries[1..], route);
      }
    }
  }

  /** `r` is empty when no entry hits `esc`, and otherwise the first hitting
      entry's path followed by its cell. */
  ghost predicate FirstHit(esc: iset<CellId>, top: int, entries: ReachMap, r: seq<CellId>) {
    && (r == [] <==> forall i :: 0 <= i < |entries| ==> !HitAt(esc, top, entries, i))
    && (r != [] ==> exists i :: && 0 <= i < |entries| && HitAt(esc, top, entries, i)
                              && r == entries[i].1 + [entries[i].0]
                              && forall j :: 0 <= j < i ==> !HitAt(esc, top, entries, j))
  }

  /** `r` is empty when no entry escapes, and otherwise the first escaping
      entry's path followed by its cell. */
  ghost predicate FirstEscape(g: Game, h: int, enemies: seq<DiceId>, top: int, entries: ReachMap, r: seq<CellId>) {
    FirstHit(EscapeSet(g, h, enemies), top, entries, r)
  }

  /** Starting with no route, the scan finds the first escape. */
  lemma {:induction false} EntryScanFirst(g: Game, h: int, enemies: seq<DiceId>, top: int, entries: ReachMap)
    requires forall id :: id in enemies ==> id in g.dice
    requires EntryScan(g, h, enemies, top, entries, []).Ok?
    ensures FirstEscape(g, h, enemies, top, entries, EntryScan(g, h, enemies, top, entries, []).value)
    decreases |entries|
  {
    if entries != [] {
      var (k, p) := entries[0];
      var rest := entries[1..];
      var r := EntryScan(g, h, enemies, top, entries, []).value;
      if |p| != top {
        EntryScanFirst(g, h, enemies, top, rest);
        FirstEscapeTail(g, h, enemies, top, entries, r);
      } else {
        assert AllPlaced(g, enemies) by {
          EntryScanErr(g, h, enemies, top, entries, []);
          assert |entries[0].1| == top;
        }
        EnemyScanSpec(g, h, enemies, k, p, []);
        var route1 := EnemyScan(g, h, enemies, k, p, []).value;
        if route1 != [] {
          EntryScanKeeps(g, h, enemies, top, rest, route1);
          assert EscapeAt(g, h, enemies, top, entries, 0);
        } else {
          EntryScanFirst(g, h, enemies, top, rest);
          FirstEscapeTail(g, h, enemies, top, entries, r);
        }
      }
    }
  }

  /** When the first entry does not escape, the first escape of the map is
      that of its tail. */
  lemma FirstEscapeTail(g: Game, h: int, enemies: seq<DiceId>, top: int, entries: ReachMap, r: seq<CellId>)
    requires entries != [] && !EscapeAt(g, h, enemies, top, entries, 0)
    requires FirstEscape(g, h, enemies, top, entries[1..], r)
    ensures FirstEscape(g, h, enemies, top, entries, r)
  {
    FirstHitTail(EscapeSet(g, h, enemies), top, entries, r);
  }

  /** When the first entry misses `esc`, the first hit of the map is that of
      its tail. */
  lemma {:induction false} FirstHitTail(esc: iset<CellId>, top: int, entries: ReachMap, r: seq<CellId>)
    requires entries != [] && !HitAt(esc, top, entries, 0)
    requires FirstHit(esc, top, entries[1..], r)
    ensures FirstHit(esc, top, entries, r)
  {
    var rest := entries[1..];
    if r != [] {
      var i :| && 0 <= i < |rest| && HitAt(esc, top, rest, i)
               && r == rest[i].1 + [rest[i].0]
               && forall j :: 0 <= j < i ==> !HitAt(esc, top, rest, j);
      assert rest[i] == entries[i + 1];
      forall j | 0 < j < i + 1 ensures !HitAt(esc, top, entries, j) {
        assert rest[j - 1] == entries[j];
        assert !HitAt(esc, top, rest, j - 1);
      }
      assert HitAt(esc, top, entries, i + 1);
    } else {
      forall i | 0 < i < |entries| ensures !HitAt(esc, top, entries, i) {
        assert rest[i - 1] == entries[i];
        assert !HitAt(esc, top, rest, i - 1);
      }
    }
  }

  /** `moveOutOfRange(dice, attacker)`: selects the die, then looks for the
      first full-length destination some die of the attacker's owner cannot
      reach and walks there; with none it clears the selection. The source
      calls a `deselectDice` that the game class does not define; clearing
      the selection is taken as its intent. The attacker's cell is read
      first, for the log line. */
  function MoveOutOfRange(g: Game, h: int, dice: DiceId, attacker: DiceId): (r: Outcome<Game, bool>)
    requires Wf(g) && dice in g.dice && attacker in g.dice
    ensures Wf(r.state) && SameKeys(g, r.state) && LostKept(g, r.state)
    ensures g.dice[attacker].currentCell.None? ==> r == Threw(NullDereference, SelectDice(g, dice))
    ensures g.dice[dice].currentCell.None? ==> r == Threw(NullDereference, SelectDice(g, dice))
    ensures r.Returned? && !r.value ==> r.state == SelectDice(g, dice).(selected := None)
    ensures r.Returned? && r.value ==> r.state.selected == Some(dice) && r.state.cells == g.cells
  {
    var g1 := SelectDice(g, dice);
    if g1.dice[attacker].currentCell.None? then Threw(NullDereference, g1)
    else
      var d := g1.dice[dice];
      match d.currentCell
      case None => Threw(NullDereference, g1)
      case Some(c) =>
        var enemies := OwnerDiceOnBoard(g1, attacker);
        match EntryScan(g1, h, enemies, TopFace(d), ReachFrom(h, c, TopFace(d)), [])
        case Err(e) => Threw(e, g1)
        case Ok(route) =>
          if |route| > 0 then
            match MoveThroughPath(g1, route)
            case Threw(e, s) => Threw(e, s)
            case Returned(s, _) => Returned(s, true)
          else Returned(g1.(selected := None), false)
  }

  /** Selecting a die changes no die's committed faces or cell, so it changes
      nobody's reach. */
  lemma {:induction false} SelectKeepsReach(g: Game, h: int, dice: DiceId, enemies: seq<DiceId>)
    requires Wf(g) && dice in g.dice
    requires forall id :: id in enemies ==> id in g.dice
    ensures AllPlaced(SelectDice(g, dice), enemies) <==> AllPlaced(g, enemies)
    ensures EscapeSet(SelectDice(g, dice), h, enemies) == EscapeSet(g, h, enemies)
  {
    var g1 := SelectDice(g, dice);
    assert forall id :: id in g.dice ==> g1.dice[id].faces == g.dice[id].faces && g1.dice[id].currentCell == g.dice[id].currentCell;
    forall k ensures Escapes(g1, h, enemies, k) <==> Escapes(g, h, enemies, k) {
      if Escapes(g1, h, enemies, k) {
        var id :| id in enemies && id in g1.dice && g1.dice[id].currentCell.Some?
                  && DiceCanReachCell(h, g1.dice[id], k) == Ok(false);
        assert DiceCanReachCell(h, g.dice[id], k) == DiceCanReachCell(h, g1.dice[id], k);
      }
      if Escapes(g, h, enemies, k) {
        var id :| id in enemies && id in g.dice && g.dice[id].currentCell.Some?
                  && DiceCanReachCell(h, g.dice[id], k) == Ok(false);
        assert DiceCanReachCell(h, g.dice[id], k) == DiceCanReachCell(h, g1.dice[id], k);
      }
    }
  }

  /** The die that `moveOutOfRange` moves keeps its committed faces and
      cell through the selection, and the attacker's owner's dice are the
      same dice. */
  lemma {:induction false} SelectKeepsDie(g: Game, dice: DiceId, attacker: DiceId)
    requires Wf(g) && dice in g.dice && attacker in g.dice
    ensures var g1 := SelectDice(g, dice);
            && g1.dice[dice].faces == g.dice[dice].faces
            && g1.dice[dice].currentCell == g.dice[dice].currentCell
            && g1.dice[attacker].currentCell == g.dice[attacker].currentCell
            && OwnerDiceOnBoard(g1, attacker) == OwnerDiceOnBoard(g, attacker)
  {
  }

  /** `moveOutOfRange` in terms of the outcome of its scan. */
  lemma {:induction false} MoveOutOfRangeByScan(g: Game, h: int, dice: DiceId, attacker: DiceId)
    requires Wf(g) && dice in g.dice && attacker in g.dice
    requires g.dice[dice].currentCell.Some? && g.dice[attacker].currentCell.Some?
    ensures var g1 := SelectDice(g, dice);
            var d := g.dice[dice];
            var top := TopFace(d);
            var scan := EntryScan(g1, h, OwnerDiceOnBoard(g, attacker), top, ReachFrom(h, d.currentCell.value, top), []);
            var r := MoveOutOfRange(g, h, dice, attacker);
            && (scan.Err? ==> r == Threw(NullDereference, g1))
            && (scan.Ok? && scan.value == [] ==> r == Returned(g1.(selected := None), false))
            && (scan.Ok? && scan.value != [] ==>
                  && r.state == MoveThroughPath(g1, scan.value).state
                  && (r.Returned? ==> r.value)
                  && (r.Threw? ==> r.error != NullDereference))
  {
    SelectKeepsDie(g, dice, attacker);
  }

  /** `moveOutOfRange`, for a die and an attacker that are both in cells,
      throws a TypeError exactly when a full-length destination exists and a
      die of the attacker's owner is in no cell. */
  lemma {:induction false} MoveOutOfRangeThrows(g: Game, h: int, dice: DiceId, attacker: DiceId)
    requires Wf(g) && dice in g.dice && attacker in g.dice
    requires g.dice[dice].currentCell.Some? && g.dice[attacker].currentCell.Some?
    ensures var r := MoveOutOfRange(g, h, dice, attacker);
            var d := g.dice[dice];
            var reach := ReachFrom(h, d.currentCell.value, TopFace(d));
            r.Threw? && r.error == NullDereference <==>
              HasFull(TopFace(d), reach) && !AllPlaced(g, OwnerDiceOnBoard(g, attacker))
  {
    var d := g.dice[dice];
    var top := TopFace(d);
    var reach := ReachFrom(h, d.currentCell.value, top);
    var enemies := OwnerDiceOnBoard(g, attacker);
    MoveOutOfRangeByScan(g, h, dice, attacker);
    SelectKeepsReach(g, h, dice, enemies);
    EntryScanErr(SelectDice(g, dice), h, enemies, top, reach, []);
  }

  /** It deselects and gives up exactly when it does not throw and every
      full-length destination is within reach of every enemy die. */
  lemma {:induction false} MoveOutOfRangeDeclines(g: Game, h: int, dice: DiceId, attacker: DiceId)
    requires Wf(g) && dice in g.dice && attacker in g.dice
    requires g.dice[dice].currentCell.Some? && g.dice[attacker].currentCell.Some?
    ensures var d := g.dice[dice];
            var top := TopFace(d);
            var reach := ReachFrom(h, d.currentCell.value, top);
            var enemies := OwnerDiceOnBoard(g, attacker);
            MoveOutOfRange(g, h, dice, attacker) == Returned(SelectDice(g, dice).(selected := None), false) <==>
              && !(HasFull(top, reach) && !AllPlaced(g, enemies))
              && forall i :: 0 <= i < |reach| ==> !EscapeAt(g, h, enemies, top, reach, i)
  {
    var g1 := SelectDice(g, dice);
    var d := g.dice[dice];
    var top := TopFace(d);
    var reach := ReachFrom(h, d.currentCell.value, top);
    var enemies := OwnerDiceOnBoard(g, attacker);
    var scan := EntryScan(g1, h, enemies, top, reach, []);
    var r := MoveOutOfRange(g, h, dice, attacker);
    MoveOutOfRangeByScan(g, h, dice, attacker);
    SelectKeepsReach(g, h, dice, enemies);
    EntryScanErr(g1, h, enemies, top, reach, []);
    if scan.Err? {
      assert r.Threw?;
      assert HasFull(top, reach) && !AllPlaced(g, enemies);
    } else {
      EntryScanFirst(g1, h, enemies, top, reach);
      assert FirstHit(EscapeSet(g, h, enemies), top, reach, scan.value);
      FirstHitNone(EscapeSet(g, h, enemies), top, reach, scan.value);
      assert !(HasFull(top, reach) && !AllPlaced(g, enemies));
      if scan.value == [] {
        assert r == Returned(g1.(selected := None), false);
        assert forall i :: 0 <= i < |reach| ==> !EscapeAt(g, h, enemies, top, reach, i);
      } else {
        assert r.Threw? || r.value;
        var i :| 0 <= i < |reach| && HitAt(EscapeSet(g, h, enemies), top, reach, i);
        assert EscapeAt(g, h, enemies, top, reach, i);
      }
    }
  }

  /** The first hit is empty exactly when no entry hits. */
  lemma FirstHitNone(esc: iset<CellId>, top: int, entries: ReachMap, r: seq<CellId>)
    requires FirstHit(esc, top, entries, r)
    ensures r == [] <==> forall i :: 0 <= i < |entries| ==> !HitAt(esc, top, entries, i)
  {
  }

  /** Otherwise, when it returns true, it has walked the path of the first
      full-length destination that some enemy die cannot reach. */
  lemma {:induction false} MoveOutOfRangeEscapes(g: Game, h: int, dice: DiceId, attacker: DiceId) returns (i: nat)
    requires Wf(g) && dice in g.dice && attacker in g.dice
    requires g.dice[dice].currentCell.Some? && g.dice[attacker].currentCell.Some?
    requires MoveOutOfRange(g, h, dice, attacker).Returned? && MoveOutOfRange(g, h, dice, attacker).value
    ensures var d := g.dice[dice];
            var top := TopFace(d);
            var reach := ReachFrom(h, d.currentCell.value, top);
            var enemies := OwnerDiceOnBoard(g, attacker);
            && i < |reach| && EscapeAt(g, h, enemies, top, reach, i)
            && (forall j :: 0 <= j < i ==> !EscapeAt(g, h, enemies, top, reach, j))
            && MoveOutOfRange(g, h, dice, attacker).state ==
                 MoveThroughPath(SelectDice(g, dice), reach[i].1 + [reach[i].0]).state
  {
    var g1 := SelectDice(g, dice);
    var d := g.dice[dice];
    var top := TopFace(d);
    var reach := ReachFrom(h, d.currentCell.value, top);
    var enemies := OwnerDiceOnBoard(g, attacker);
    MoveOutOfRangeByScan(g, h, dice, attacker);
    var scan := EntryScan(g1, h, enemies, top, reach, []);
    EntryScanFirst(g1, h, enemies, top, reach);
    i := FirstEscapeTransfer(g, h, dice, enemies, top, reach, scan.value);
  }

  /** The first escape found after selecting a die is the first escape
      before selecting it. */
  lemma {:induction false} FirstEscapeTransfer(g: Game, h: int, dice: DiceId, enemies: seq<DiceId>, top: int, reach: ReachMap, r: seq<CellId>)
    returns (i: nat)
    requires Wf(g) && dice in g.dice
    requires forall id :: id in enemies ==> id in g.dice
    requires r != [] && FirstEscape(SelectDice(g, dice), h, enemies, top, reach, r)
    ensures && i < |reach| && EscapeAt(g, h, enemies, top, reach, i) && r == reach[i].1 + [reach[i].0]
            && forall j :: 0 <= j < i ==> !EscapeAt(g, h, enemies, top, reach, j)
  {
    var esc := EscapeSet(g, h, enemies);
    SelectKeepsReach(g, h, dice, enemies);
    assert FirstHit(esc, top, reach, r);
    i :| && 0 <= i < |reach| && HitAt(esc, top, reach, i)
         && r == reach[i].1 + [reach[i].0]
         && forall j :: 0 <= j < i ==> !HitAt(esc, top, reach, j);
  }
}
