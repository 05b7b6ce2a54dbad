/** The engine's board: cells, their neighbour links and their construction
    (`cellIDIterator`, class `Cell` and the `Tridice` constructor, tridice.js:5-10,
    333-394, 435-474; tridice.ts:30-73).

    A cell id is `row * 10 + slot`. Every cell is created with the arithmetic
    ids of its four neighbours (`up = id - 11`, `down = id + 11`, `left = id - 1`,
    `right = id + 1`); construction then replaces each id that names an existing
    cell by a reference to it. Setting a left or right link also sets the
    reverse link of the neighbour; up and down links are set one cell at a time.
 */
module Topology {
  import opened Outcomes
  import opened DiceFaces

  type CellId = int

  type DiceId = int

  /** A neighbour slot holds either a still-unresolved cell id (a JavaScript
      number) or a reference to the neighbouring cell. */
  datatype Link = Pending(id: CellId) | Linked(id: CellId)

  datatype Cell = Cell(
    id: CellId,
    up: Link,
    down: Link,
    left: Link,
    right: Link,
    pointing: Pointing,
    content: Option<DiceId>)

  /** The arithmetic offset of the neighbour in each direction. */
  function Offset(d: Direction): int {
    match d
    case Up => -11
    case Down => 11
    case Left => -1
    case Right => 1
  }

  /** `getNeighbor` */
  function Neighbor(c: Cell, d: Direction): Link {
    match d
    case Up => c.up
    case Down => c.down
    case Left => c.left
    case Right => c.right
  }

  function WithNeighbor(c: Cell, d: Direction, l: Link): (r: Cell)
    ensures Neighbor(r, d) == l
    ensures forall e :: e != d ==> Neighbor(r, e) == Neighbor(c, e)
    ensures r.id == c.id && r.pointing == c.pointing && r.content == c.content
  {
    match d
    case Up => c.(up := l)
    case Down => c.(down := l)
    case Left => c.(left := l)
    case Right => c.(right := l)
  }

  /** The ids `cellIDIterator` yields from row `a`, slot `b` on: rows 1..4,
      slots 1..row + 2, except that row 1 only has slot 1. */
  function CellIdsFrom(a: int, b: int): seq<CellId>
    decreases 5 - a, a + 3 - b
  {
    if a > 4 then []
    else if b > a + 2 then CellIdsFrom(a + 1, 1)
    else if a == 1 && b > 1 then CellIdsFrom(a, b + 1)
    else [a * 10 + b] + CellIdsFrom(a, b + 1)
  }

  lemma Row4Ids()
    ensures CellIdsFrom(4, 1) == [41, 42, 43, 44, 45, 46]
  {
  }

  lemma Row3Ids()
    ensures CellIdsFrom(3, 1) == [31, 32, 33, 34, 35] + CellIdsFrom(4, 1)
  {
  }

  lemma Row2Ids()
    ensures CellIdsFrom(2, 1) == [21, 22, 23, 24] + CellIdsFrom(3, 1)
  {
  }

  lemma Row1Ids()
    ensures CellIdsFrom(1, 1) == [11] + CellIdsFrom(2, 1)
  {
  }

  /** The board has sixteen cells: one in row 1, then four, five and six,
      yielded row by row. */
  function CellIds(): (ids: seq<CellId>)
    ensures ids == [11, 21, 22, 23, 24, 31, 32, 33, 34, 35, 41, 42, 43, 44, 45, 46]
  {
    Row4Ids();
    Row3Ids();
    Row2Ids();
    Row1Ids();
    CellIdsFrom(1, 1)
  }

  /** The pointing direction of a cell: odd ids point up, even ids point down. */
  function CellPointing(id: CellId): Pointing {
    if id % 2 != 0 then PointsUp else PointsDown
  }

  /** A fresh cell: all four neighbours still arithmetic ids, no dice. */
  function NewCell(id: CellId): (c: Cell)
    ensures forall d :: Neighbor(c, d) == Pending(id + Offset(d))
  {
    Cell(id, Pending(id - 11), Pending(id + 11), Pending(id - 1), Pending(id + 1), CellPointing(id), None)
  }

  /** The cell map after the first constructor loop. */
  function InitialCells(ids: seq<CellId>): (m: map<CellId, Cell>)
    ensures forall id :: id in m <==> id in ids
    ensures forall id :: id in m ==> m[id] == NewCell(id)
  {
    if ids == [] then map[]
    else InitialCells(ids[..|ids| - 1])[ids[|ids| - 1] := NewCell(ids[|ids| - 1])]
  }

  /** `setNeighbor`: resolve the `d` link of cell `id` to cell `target`. It
      refuses a link that is already resolved and a target whose id is not the
      one the link requires; a left or right link is mirrored on the target.
      A refusal of the mirrored link comes after the first link is written in
      the source; here it drops the half-linked cells, a path the
      constructor never takes (`LinkAllSucceeds`). */
  function SetNeighbor(cells: map<CellId, Cell>, id: CellId, d: Direction, target: CellId, reciprocate: bool)
    : (r: Result<map<CellId, Cell>>)
    requires id in cells && target in cells
    ensures r.Ok? ==> r.value.Keys == cells.Keys
    ensures Neighbor(cells[id], d).Linked? ==> r == Err(NeighborAlreadySet)
    ensures Neighbor(cells[id], d).Pending? && Neighbor(cells[id], d).id != cells[target].id
            ==> r == Err(InvalidNeighbor)
    decreases if reciprocate then 1 else 0
  {
    var link := Neighbor(cells[id], d);
    if link.Linked? then Err(NeighborAlreadySet)
    else if link.id != cells[target].id then Err(InvalidNeighbor)
    else
      var linked := cells[id := WithNeighbor(cells[id], d, Linked(target))];
      if d != Up && d != Down && reciprocate then SetNeighbor(linked, target, Inverse(d), id, false)
      else Ok(linked)
  }

  /** The inner constructor loop for one cell: every link still holding the id
      of an existing cell is resolved. */
  function LinkCell(cells: map<CellId, Cell>, id: CellId, dirs: seq<Direction>): (r: Result<map<CellId, Cell>>)
    requires id in cells
    ensures r.Ok? ==> r.value.Keys == cells.Keys
  {
    if dirs == [] then Ok(cells)
    else
      var link := Neighbor(cells[id], dirs[0]);
      if link.Linked? || link.id !in cells then LinkCell(cells, id, dirs[1..])
      else
        match SetNeighbor(cells, id, dirs[0], link.id, true)
        case Err(e) => Err(e)
        case Ok(next) => LinkCell(next, id, dirs[1..])
  }

  /** The order in which the constructor visits the links of a cell. */
  const NeighborhoodKeys: seq<Direction> := [Up, Down, Left, Right]

  /** The outer constructor loop, over the cells in insertion order. */
  function LinkAll(cells: map<CellId, Cell>, ids: seq<CellId>): Result<map<CellId, Cell>>
    requires forall id :: id in ids ==> id in cells
  {
    if ids == [] then Ok(cells)
    else
      match LinkCell(cells, ids[0], NeighborhoodKeys)
      case Err(e) => Err(e)
      case Ok(next) => LinkAll(next, ids[1..])
  }

  /** The board the `Tridice` constructor builds. */
  function Build(): Result<map<CellId, Cell>> {
    LinkAll(InitialCells(CellIds()), CellIds())
  }

  /** Every cell sits under its own id and points as its id says, and each
      link carries the arithmetic id of its direction; a resolved link names
      a cell of the board. Play never changes any of this. */
  ghost predicate Linkage(cells: map<CellId, Cell>) {
    && (forall id :: id in cells ==> cells[id].id == id && cells[id].pointing == CellPointing(id))
    && (forall id, d :: id in cells ==>
          && Neighbor(cells[id], d).id == id + Offset(d)
          && (Neighbor(cells[id], d).Linked? ==> id + Offset(d) in cells))
  }

  /** The board under construction: linked as above, and still empty. */
  ghost predicate Shaped(cells: map<CellId, Cell>) {
    Linkage(cells) && forall id :: id in cells ==> cells[id].content == None
  }

  /** Left and right links are resolved in pairs. */
  ghost predicate Mirrored(cells: map<CellId, Cell>) {
    && (forall id :: id in cells && cells[id].right.Linked? ==>
          id + 1 in cells && cells[id + 1].left.Linked?)
    && (forall id :: id in cells && cells[id].left.Linked? ==>
          id - 1 in cells && cells[id - 1].right.Linked?)
  }

  /** `b` has the cells of `a`, with every resolved link of `a` still resolved. */
  ghost predicate Grows(a: map<CellId, Cell>, b: map<CellId, Cell>) {
    && a.Keys == b.Keys
    && (forall id, d :: id in a && Neighbor(a[id], d).Linked? ==> Neighbor(b[id], d).Linked?)
  }

  /** All links of cell `id` towards existing cells are resolved. */
  ghost predicate LinkedAround(cells: map<CellId, Cell>, id: CellId)
    requires id in cells
  {
    forall d :: id + Offset(d) in cells ==> Neighbor(cells[id], d).Linked?
  }

  lemma {:induction false} InitialCellsShaped(ids: seq<CellId>)
    ensures Shaped(InitialCells(ids)) && Mirrored(InitialCells(ids))
  {
  }

  /** The board with the `d` link of cell `id` resolved. */
  function Resolve(cells: map<CellId, Cell>, id: CellId, d: Direction): map<CellId, Cell>
    requires id in cells
  {
    cells[id := WithNeighbor(cells[id], d, Linked(id + Offset(d)))]
  }

  lemma {:induction false} ResolveKeepsShape(cells: map<CellId, Cell>, id: CellId, d: Direction)
    requires Shaped(cells) && id in cells && id + Offset(d) in cells
    ensures Shaped(Resolve(cells, id, d)) && Grows(cells, Resolve(cells, id, d))
    ensures Neighbor(Resolve(cells, id, d)[id], d).Linked?
  {
    var r := Resolve(cells, id, d);
    forall x, e | x in r
      ensures Neighbor(r[x], e).id == x + Offset(e)
      ensures Neighbor(r[x], e).Linked? ==> x + Offset(e) in r
    {
      if x == id && e == d {
      } else {
        assert Neighbor(r[x], e) == Neighbor(cells[x], e);
      }
    }
    forall x, e | x in cells && Neighbor(cells[x], e).Linked?
      ensures Neighbor(r[x], e).Linked?
    {
      if x != id || e != d {
        assert Neighbor(r[x], e) == Neighbor(cells[x], e);
      }
    }
  }

  lemma {:induction false} ResolveVerticalKeepsMirror(cells: map<CellId, Cell>, id: CellId, d: Direction)
    requires Mirrored(cells) && id in cells && (d == Up || d == Down)
    ensures Mirrored(Resolve(cells, id, d))
  {
    var r := Resolve(cells, id, d);
    assert forall x :: x in r ==> r[x].left == cells[x].left && r[x].right == cells[x].right;
  }

  lemma {:induction false} ResolvePairKeepsMirror(cells: map<CellId, Cell>, id: CellId, d: Direction)
    requires Mirrored(cells) && id in cells && id + Offset(d) in cells && (d == Left || d == Right)
    ensures Mirrored(Resolve(Resolve(cells, id, d), id + Offset(d), Inverse(d)))
  {
    var t := id + Offset(d);
    assert t + Offset(Inverse(d)) == id by {
      if d == Left { assert Offset(Inverse(d)) == 1; } else { assert Offset(Inverse(d)) == -1; }
    }
    var r := Resolve(Resolve(cells, id, d), t, Inverse(d));
    if d == Right {
      assert r[id].right.Linked? && r[t].left.Linked?;
      assert forall x :: x in r && x != id ==> r[x].right == cells[x].right;
      assert forall x :: x in r && x != t ==> r[x].left == cells[x].left;
    } else {
      assert r[id].left.Linked? && r[t].right.Linked?;
      assert forall x :: x in r && x != t ==> r[x].right == cells[x].right;
      assert forall x :: x in r && x != id ==> r[x].left == cells[x].left;
    }
  }

  /** On a mirrored board, a pending left or right link faces a pending reverse link. */
  lemma {:induction false} MirrorBackPending(cells: map<CellId, Cell>, id: CellId, d: Direction)
    requires Mirrored(cells) && id in cells && id + Offset(d) in cells && (d == Left || d == Right)
    requires Neighbor(cells[id], d).Pending?
    ensures Neighbor(cells[id + Offset(d)], Inverse(d)).Pending?
  {
  }

  /** Resolving a pending link towards an existing cell succeeds on a shaped,
      mirrored board, and keeps it so: the arithmetic id is the target's id,
      and by mirroring the target's reverse link is still pending. */
  lemma {:induction false} SetNeighborSucceeds(cells: map<CellId, Cell>, id: CellId, d: Direction)
    requires Shaped(cells) && Mirrored(cells)
    requires id in cells && id + Offset(d) in cells && Neighbor(cells[id], d).Pending?
    ensures var r := SetNeighbor(cells, id, d, id + Offset(d), true);
            && r.Ok? && Shaped(r.value) && Mirrored(r.value) && Grows(cells, r.value)
            && Neighbor(r.value[id], d).Linked?
  {
    var t := id + Offset(d);
    var linked := Resolve(cells, id, d);
    ResolveKeepsShape(cells, id, d);
    if d == Left || d == Right {
      assert t + Offset(Inverse(d)) == id by {
        if d == Left { assert Offset(Inverse(d)) == 1; } else { assert Offset(Inverse(d)) == -1; }
      }
      MirrorBackPending(cells, id, d);
      assert linked[t] == cells[t];
      var both := Resolve(linked, t, Inverse(d));
      assert SetNeighbor(cells, id, d, t, true) == SetNeighbor(linked, t, Inverse(d), id, false);
      assert SetNeighbor(linked, t, Inverse(d), id, false) == Ok(both);
      ResolveKeepsShape(linked, t, Inverse(d));
      ResolvePairKeepsMirror(cells, id, d);
      GrowsTransitive(cells, linked, both);
    } else {
      ResolveVerticalKeepsMirror(cells, id, d);
    }
  }

  /** The inner loop never throws on a shaped, mirrored board and leaves every
      visited direction that leads to a cell resolved. */
  lemma {:induction false} LinkCellSucceeds(cells: map<CellId, Cell>, id: CellId, dirs: seq<Direction>)
    requires Shaped(cells) && Mirrored(cells) && id in cells
    ensures var r := LinkCell(cells, id, dirs);
            && r.Ok? && Shaped(r.value) && Mirrored(r.value) && Grows(cells, r.value)
            && forall d :: d in dirs && id + Offset(d) in cells ==> Neighbor(r.value[id], d).Linked?
  {
    if dirs != [] {
      var link := Neighbor(cells[id], dirs[0]);
      if link.Linked? || link.id !in cells {
        LinkCellSucceeds(cells, id, dirs[1..]);
      } else {
        SetNeighborSucceeds(cells, id, dirs[0]);
        var next := SetNeighbor(cells, id, dirs[0], link.id, true).value;
        LinkCellSucceeds(next, id, dirs[1..]);
      }
    }
  }

  lemma GrowsTransitive(a: map<CellId, Cell>, b: map<CellId, Cell>, c: map<CellId, Cell>)
    requires Grows(a, b) && Grows(b, c)
    ensures Grows(a, c)
  {
  }

  lemma GrowsKeepsLinked(a: map<CellId, Cell>, b: map<CellId, Cell>, id: CellId)
    requires Grows(a, b) && id in a && LinkedAround(a, id)
    ensures id in b && LinkedAround(b, id)
  {
  }

  /** The outer loop never throws on a shaped, mirrored board and leaves
      every visited cell with all its links towards cells resolved. */
  lemma {:induction false} LinkAllSucceeds(cells: map<CellId, Cell>, ids: seq<CellId>)
    requires Shaped(cells) && Mirrored(cells)
    requires forall id :: id in ids ==> id in cells
    ensures var r := LinkAll(cells, ids);
            && r.Ok? && Shaped(r.value) && Grows(cells, r.value)
            && forall id :: id in ids ==> LinkedAround(r.value, id)
  {
    if ids != [] {
      LinkCellAround(cells, ids[0]);
      var next := LinkCell(cells, ids[0], NeighborhoodKeys).value;
      LinkAllSucceeds(next, ids[1..]);
      var r := LinkAll(next, ids[1..]).value;
      GrowsKeepsLinked(next, r, ids[0]);
      GrowsTransitive(cells, next, r);
    }
  }

  /** One pass of the inner loop over all four directions leaves the cell
      with every link towards a cell resolved. */
  lemma {:induction false} LinkCellAround(cells: map<CellId, Cell>, id: CellId)
    requires Shaped(cells) && Mirrored(cells) && id in cells
    ensures var r := LinkCell(cells, id, NeighborhoodKeys);
            && r.Ok? && Shaped(r.value) && Mirrored(r.value) && Grows(cells, r.value)
            && LinkedAround(r.value, id)
  {
    LinkCellSucceeds(cells, id, NeighborhoodKeys);
    var next := LinkCell(cells, id, NeighborhoodKeys).value;
    forall d | id + Offset(d) in next
      ensures Neighbor(next[id], d).Linked?
    {
      assert d in NeighborhoodKeys;
    }
  }

  /** Every link is resolved exactly when its arithmetic id names a cell. */
  ghost predicate Resolved(cells: map<CellId, Cell>) {
    forall id, d :: id in cells ==>
      Neighbor(cells[id], d) == if id + Offset(d) in cells then Linked(id + Offset(d)) else Pending(id + Offset(d))
  }

  lemma {:induction false} ShapedAndLinkedIsResolved(cells: map<CellId, Cell>)
    requires Shaped(cells)
    requires forall id :: id in cells ==> LinkedAround(cells, id)
    ensures Resolved(cells)
  {
    forall id, d | id in cells
      ensures Neighbor(cells[id], d) ==
                if id + Offset(d) in cells then Linked(id + Offset(d)) else Pending(id + Offset(d))
    {
      assert LinkedAround(cells, id);
    }
  }

  /** Construction from any list of ids: links resolve exactly towards cells
      of the list. */
  lemma {:induction false} BoardFrom(ids: seq<CellId>)
    ensures LinkAll(InitialCells(ids), ids).Ok?
    ensures var cells := LinkAll(InitialCells(ids), ids).value;
            && (forall id :: id in cells <==> id in ids)
            && Shaped(cells) && Resolved(cells)
  {
    var init := InitialCells(ids);
    InitialCellsShaped(ids);
    LinkAllSucceeds(init, ids);
    var cells := LinkAll(init, ids).value;
    assert cells.Keys == init.Keys;
    ShapedAndLinkedIsResolved(cells);
  }

  /** The board the constructor builds: the sixteen cells, each empty and
      pointing as its id says; a link is resolved exactly when its arithmetic
      id names a cell of the board, and otherwise keeps that id. Neither
      construction error can occur. */
  lemma BuildShape()
    ensures Build().Ok?
    ensures var cells := Build().value;
            && (forall id :: id in cells <==> id in CellIds())
            && Shaped(cells) && Resolved(cells)
  {
    BoardFrom(CellIds());
  }
}
