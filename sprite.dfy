/** Movable sprites (class TileSprite in vm.ts) and the lookups over lists of them. */
module Sprites {
  import opened Codes

  /** The grid cell of a coordinate: `v >> 4`, cells being 16 units wide. */
  function CellOf(v: int): int { v / 16 }

  /** A coordinate snapped to the centre of its cell: `((v >> 4) << 4) + 8`. */
  function Centered(v: int): (r: int)
    ensures CellOf(r) == CellOf(v)
    ensures r % 16 == 8
  {
    (v / 16) * 16 + 8
  }

  /** Snapping twice is snapping once. */
  lemma CenteredIdempotent(v: int)
    ensures Centered(Centered(v)) == Centered(v)
  {
  }

  /** The horizontal velocity for a direction (vx in update). */
  function VelocityX(dir: int): int {
    if dir == DirLeft then -100 else if dir == DirRight then 100 else 0
  }

  /** The vertical velocity for a direction (vy in update). */
  function VelocityY(dir: int): int {
    if dir == DirUp then -100 else if dir == DirDown then 100 else 0
  }

  /** A sprite of a movable kind. Position and velocity are kept as integers. */
  class TileSprite {
    const kind: int
    var x: int
    var y: int
    /** the direction the sprite is moving in, or -1 */
    var dir: int
    /** the one instruction (and its argument) to apply at the end of the round */
    var inst: int
    var arg: int
    /** the collision instruction slot */
    var collide: int
    var vx: int
    var vy: int

    /** A new sprite of `kind` at (x, y): not moving, with no instruction. */
    constructor (kind: int, x: int, y: int)
      ensures this.kind == kind && this.x == x && this.y == y
      ensures dir == NoneId && inst == NoneId && collide == NoneId
    {
      this.kind := kind;
      this.x, this.y := x, y;
      dir, inst, arg, collide := NoneId, NoneId, 0, NoneId;
      vx, vy := 0, 0;
    }

    function Col(): int reads this`x { CellOf(x) }
    function Row(): int reads this`y { CellOf(y) }

    /** The sprite's state after `update`: it moves exactly when its
        instruction is a Move, in the direction of that Move's argument. */
    ghost predicate Updated() reads this`dir, this`inst, this`arg, this`vx, this`vy {
      dir == (if inst == CmdMove then arg else NoneId) &&
      vx == VelocityX(dir) && vy == VelocityY(dir)
    }

    /** Applies the instruction: the direction becomes the Move's argument
        (or -1), and the velocity follows the direction. */
    method Update()
      modifies this`dir, this`vx, this`vy
      ensures Updated()
      ensures inst != CmdMove ==> dir == NoneId && vx == 0 && vy == 0
      ensures vx == 0 || vy == 0
    {
      dir := if inst == CmdMove then arg else NoneId;
      vx := if dir == DirLeft then -100 else if dir == DirRight then 100 else 0;
      vy := if dir == DirUp then -100 else if dir == DirDown then 100 else 0;
    }
  }

  /** ls[i] is at cell (col, row) and no sprite before it is. */
  ghost predicate FirstAt(ls: seq<TileSprite>, i: int, col: int, row: int)
    reads (set s | s in ls)`x, (set s | s in ls)`y
  {
    0 <= i < |ls| && ls[i].Col() == col && ls[i].Row() == row &&
    forall j :: 0 <= j < i ==> !(ls[j].Col() == col && ls[j].Row() == row)
  }

  /** The sprite a list holds at cell (col, row), if any:
      `list.find(ts => ts.col() == col && ts.row() == row)`. */
  function FindAt(ls: seq<TileSprite>, col: int, row: int): TileSprite?
    reads (set s | s in ls)`x, (set s | s in ls)`y
    decreases |ls|
  {
    if ls == [] then null
    else if ls[0].Col() == col && ls[0].Row() == row then ls[0]
    else FindAt(ls[1..], col, row)
  }

  /** FindAt reads only the cells of the list's sprites: it finds the same
      sprite in a later state where each of them is in the cell it was in. */
  twostate lemma FindAtKept(ls: seq<TileSprite>)
    requires forall i :: 0 <= i < |ls| ==> old(ls[i].Col()) == ls[i].Col() && old(ls[i].Row()) == ls[i].Row()
    ensures forall col, row :: old(FindAt(ls, col, row)) == FindAt(ls, col, row)
    decreases |ls|
  {
    if ls != [] {
      FindAtKept(ls[1..]);
    }
  }

  /** FindAt finds the first sprite of the list in the cell, and finds
      nothing exactly when no sprite of the list is in the cell. */
  lemma {:induction false} FindAtSpec(ls: seq<TileSprite>, col: int, row: int)
    ensures var r := FindAt(ls, col, row);
      r != null ==> r in ls && r.Col() == col && r.Row() == row
    ensures var r := FindAt(ls, col, row);
      r != null ==> exists i :: FirstAt(ls, i, col, row) && ls[i] == r
    ensures FindAt(ls, col, row) == null <==>
      forall i :: 0 <= i < |ls| ==> !(ls[i].Col() == col && ls[i].Row() == row)
    decreases |ls|
  {
    if ls == [] {
    } else if ls[0].Col() == col && ls[0].Row() == row {
      assert FirstAt(ls, 0, col, row);
    } else {
      FindAtSpec(ls[1..], col, row);
      var r := FindAt(ls[1..], col, row);
      if r != null {
        var i :| FirstAt(ls[1..], i, col, row) && ls[1..][i] == r;
        forall j | 0 <= j < i + 1 ensures !(ls[j].Col() == col && ls[j].Row() == row) {
          if j > 0 { assert ls[j] == ls[1..][j - 1]; }
        }
        assert FirstAt(ls, i + 1, col, row) && ls[i + 1] == r;
      } else {
        forall i | 0 <= i < |ls| ensures !(ls[i].Col() == col && ls[i].Row() == row) {
          if i > 0 { assert ls[i] == ls[1..][i - 1]; }
        }
      }
    }
  }

  /** FindAt over positions recorded as values: `pos` gives the (x, y) of
      each sprite it knows, and a sprite it does not know is in no cell. */
  function FindIn(ls: seq<TileSprite>, col: int, row: int, pos: map<TileSprite, (int, int)>): TileSprite?
    decreases |ls|
  {
    if ls == [] then null
    else if ls[0] in pos && CellOf(pos[ls[0]].0) == col && CellOf(pos[ls[0]].1) == row then ls[0]
    else FindIn(ls[1..], col, row, pos)
  }

  /** On a list whose positions `pos` records as they are, FindIn finds
      what FindAt finds. */
  lemma {:induction false} FindInAgrees(ls: seq<TileSprite>, col: int, row: int, pos: map<TileSprite, (int, int)>)
    requires forall i :: 0 <= i < |ls| ==> ls[i] in pos && pos[ls[i]] == (ls[i].x, ls[i].y)
    ensures FindIn(ls, col, row, pos) == FindAt(ls, col, row)
    decreases |ls|
  {
    if ls != [] {
      assert forall i :: 0 <= i < |ls[1..]| ==> ls[1..][i] == ls[i + 1];
      FindInAgrees(ls[1..], col, row, pos);
    }
  }

  /** The sprite lists of all kinds, in the order allSprites visits them. */
  function Flatten(lists: seq<seq<TileSprite>>): (r: seq<TileSprite>)
    ensures forall k, i :: 0 <= k < |lists| && 0 <= i < |lists[k]| ==> lists[k][i] in r
    ensures forall s :: s in r ==> exists k :: 0 <= k < |lists| && s in lists[k]
    decreases |lists|
  {
    if lists == [] then []
    else
      var r := lists[0] + Flatten(lists[1..]);
      assert forall k, i :: 1 <= k < |lists| && 0 <= i < |lists[k]| ==> lists[k][i] in r by {
        forall k, i | 1 <= k < |lists| && 0 <= i < |lists[k]| ensures lists[k][i] in r {
          assert lists[1..][k - 1] == lists[k];
        }
      }
      r
  }
}
