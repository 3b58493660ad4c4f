/** The tile-world virtual machine (class TileWorldVM in vm.ts): rule
    selection, the neighbourhood pattern matcher, the command executor and
    the end-of-round world update. */
module Vm {
  import opened Codes
  import opened Catalog
  import opened Effects
  import opened Sprites

  /** A rule that matched an anchor sprite, with the witness sprites its
      guards captured next to the anchor. */
  datatype RuleClosure = RuleClosure(rid: int, self: TileSprite, witnesses: seq<TileSprite>)

  /** The state the VM runs on. `tiles` stands for the scene's tile map
      (the kind of fixed tile in each cell) and `gameOver` records, in
      order, the game.over(win) calls the VM makes. */
  class VMState {
    const fixed: int
    const all: int
    const nextWorld: array2<int>
    const tiles: array2<int>
    /** sprites[k] lists the sprites of kind k; the lists are never replaced. */
    const sprites: seq<seq<TileSprite>>
    /** Every sprite of every kind. */
    ghost const objects: set<TileSprite>
    var globalCommands: seq<int>
    var globalArgs: seq<int>
    var gameOver: seq<bool>

    /** The paint buffer and the tile map are distinct and of one size, and
        `objects` holds every listed sprite. */
    ghost predicate Shaped() {
      nextWorld != tiles &&
      nextWorld.Length0 == tiles.Length0 && nextWorld.Length1 == tiles.Length1 &&
      forall k, i :: 0 <= k < |sprites| && 0 <= i < |sprites[k]| ==> sprites[k][i] in objects
    }

    /** Every sprite of `objects` is listed under its kind. */
    ghost predicate Listed() {
      forall s :: s in objects ==> s in AllSprites()
    }

    /** Shaped, every sprite listed, and nothing ever appends to the
        argument queue. */
    ghost predicate Valid()
      reads this`globalArgs
    {
      Shaped() && Listed() && globalArgs == []
    }

    constructor (fixed: int, all: int, nextWorld: array2<int>, tiles: array2<int>,
                 sprites: seq<seq<TileSprite>>)
      requires nextWorld != tiles
      requires nextWorld.Length0 == tiles.Length0 && nextWorld.Length1 == tiles.Length1
      ensures Valid()
      ensures this.fixed == fixed && this.all == all && this.sprites == sprites
      ensures this.nextWorld == nextWorld && this.tiles == tiles
      ensures objects == set s | s in Flatten(sprites)
      ensures globalCommands == [] && gameOver == []
    {
      this.fixed, this.all := fixed, all;
      this.nextWorld, this.tiles := nextWorld, tiles;
      this.sprites := sprites;
      this.objects := set s | s in Flatten(sprites);
      globalCommands, globalArgs, gameOver := [], [], [];
    }

    /** Every sprite, in the order allSprites visits them. */
    function AllSprites(): seq<TileSprite> {
      Flatten(sprites)
    }

    /** Every sprite allSprites visits is one of `objects`. */
    lemma AllSpritesInObjects()
      requires Shaped()
      ensures forall i :: 0 <= i < |AllSprites()| ==> AllSprites()[i] in objects
    {
      forall i | 0 <= i < |AllSprites()| ensures AllSprites()[i] in objects {
        assert AllSprites()[i] in AllSprites();
        var k :| 0 <= k < |sprites| && AllSprites()[i] in sprites[k];
        var j :| 0 <= j < |sprites[k]| && sprites[k][j] == AllSprites()[i];
      }
    }

    /** The number of sprites of each kind. */
    function SpriteCounts(): (r: seq<nat>)
      ensures |r| == |sprites| && forall k :: 0 <= k < |r| ==> r[k] == |sprites[k]|
    {
      seq(|sprites|, k requires 0 <= k < |sprites| => |sprites[k]|)
    }

    /** Over the counts, a SpritePred argument names a kind with sprites
        exactly when it indexes a non-empty list of `sprites`; an absent
        argument, or one outside the lists, names none. */
    lemma SpriteCountsPresent(arg: Option<int>)
      ensures KindPresent(SpriteCounts(), arg) <==>
        arg.Some? && 0 <= arg.value < |sprites| && |sprites[arg.value]| > 0
    {
    }

    /** The instructions the slots `slots` record, one per sprite in the
        order allSprites visits them (none for a sprite they do not hold). */
    function InstsOf(slots: map<TileSprite, (int, int)>): seq<int> {
      seq(|AllSprites()|, i requires 0 <= i < |AllSprites()| =>
        if AllSprites()[i] in slots then slots[AllSprites()[i]].0 else NoneId)
    }
  }

  class TileWorldVM {
    const p: Project
    const rules: seq<int>
    var gs: VMState?
    var dpad: int
    var ruleClosures: seq<RuleClosure>

    constructor (p: Project, rules: seq<int>)
      ensures this.p == p && this.rules == rules && gs == null && ruleClosures == []
    {
      this.p, this.rules := p, rules;
      gs, dpad, ruleClosures := null, NoneId, [];
    }

    method SetState(gs: VMState)
      modifies this`gs
      ensures this.gs == gs
    {
      this.gs := gs;
    }

    ghost predicate Valid()
      reads this`gs, gs
    {
      gs != null ==> gs.Valid()
    }

    // ------------------------------------------------------------ matcher

    predicate InBounds(col: int, row: int)
      requires gs != null
      reads this`gs
    {
      0 <= col < gs.nextWorld.Length0 && 0 <= row < gs.nextWorld.Length1
    }

    /** Some sprite of `kind` is in cell (col, row). */
    ghost predicate Occupied(kind: int, col: int, row: int)
      requires gs != null && gs.Shaped()
      reads this`gs, gs.objects`x, gs.objects`y
    {
      0 <= kind < |gs.sprites| &&
      exists i :: 0 <= i < |gs.sprites[kind]| && gs.sprites[kind][i].Col() == col && gs.sprites[kind][i].Row() == row
    }

    /** The first sprite of `kind` in cell (col, row), if any (getWitness). */
    function GetWitness(kind: int, col: int, row: int): (r: TileSprite?)
      requires gs != null && gs.Shaped()
      reads this`gs, gs.objects`x, gs.objects`y
      ensures r != null ==> r in gs.objects && r.Col() == col && r.Row() == row
      ensures r != null <==> Occupied(kind, col, row)
    {
      if 0 <= kind < |gs.sprites| then
        assert forall s :: s in gs.sprites[kind] ==> s in gs.objects by {
          forall s | s in gs.sprites[kind] ensures s in gs.objects {
            var i :| 0 <= i < |gs.sprites[kind]| && gs.sprites[kind][i] == s;
          }
        }
        FindAtSpec(gs.sprites[kind], col, row);
        FindAt(gs.sprites[kind], col, row)
      else null
    }

    /** The witness is the first sprite of the kind's list in the cell. */
    lemma GetWitnessFirst(kind: int, col: int, row: int)
      requires gs != null && gs.Shaped()
      ensures var r := GetWitness(kind, col, row);
        r != null ==> 0 <= kind < |gs.sprites| && exists i :: FirstAt(gs.sprites[kind], i, col, row) && gs.sprites[kind][i] == r
    {
      if 0 <= kind < |gs.sprites| {
        FindAtSpec(gs.sprites[kind], col, row);
      }
    }

    /** Every kind of the block is OK (allTrue). */
    predicate AllTrue(rid: int, whendo: int)
      requires gs != null && gs.Shaped()
      reads this`gs
    {
      forall kind :: 0 <= kind < gs.all ==> p.attr(rid, whendo, kind) == AttrOk
    }

    /** Scans the kinds in order and stops at the first one whose attribute
        is not OK (the loop of allTrue). */
    method ScanAllKinds(rid: int, whendo: int) returns (ok: bool)
      requires gs != null && gs.Shaped()
      ensures ok <==> forall kind :: 0 <= kind < gs.all ==> p.attr(rid, whendo, kind) == AttrOk
    {
      var kind := 0;
      while kind < gs.all
        invariant kind <= gs.all || gs.all < 0
        invariant forall k :: 0 <= k < kind ==> p.attr(rid, whendo, k) == AttrOk
      {
        if p.attr(rid, whendo, kind) != AttrOk {
          return false;
        }
        kind := kind + 1;
      }
      return true;
    }

    /** A fixed kind's condition rejects a cell whose tile is `tile`:
        Exclude and the tile is of the kind, or Include and it is not. */
    ghost predicate FixedRejects(rid: int, wd: int, tile: int, kind: int) {
      (p.attr(rid, wd, kind) == AttrExclude && tile == kind) ||
      (p.attr(rid, wd, kind) == AttrInclude && tile != kind)
    }

    ghost predicate FixedOneOfHit(rid: int, wd: int, tile: int, kind: int) {
      p.attr(rid, wd, kind) == AttrOneOf && tile == kind
    }

    /** A movable kind's condition rejects the cell: Exclude and a sprite of
        the kind is there, or Include and none is. */
    ghost predicate MovableRejects(rid: int, wd: int, wc: int, wr: int, kind: int)
      requires gs != null && gs.Shaped()
      reads this`gs, gs.objects`x, gs.objects`y
    {
      var present := Occupied(kind, wc, wr);
      (p.attr(rid, wd, kind) == AttrExclude && present) || (p.attr(rid, wd, kind) == AttrInclude && !present)
    }

    ghost predicate MovableOneOfHit(rid: int, wd: int, wc: int, wr: int, kind: int)
      requires gs != null && gs.Shaped()
      reads this`gs, gs.objects`x, gs.objects`y
    {
      p.attr(rid, wd, kind) == AttrOneOf && Occupied(kind, wc, wr)
    }

    ghost predicate IsOneOf(rid: int, wd: int, kind: int) {
      p.attr(rid, wd, kind) == AttrOneOf
    }

    /** Some kind of the block (fixed kinds, then movable kinds) is OneOf. */
    ghost predicate HasOneOf(rid: int, wd: int)
      requires gs != null && gs.Shaped()
      reads this`gs
    {
      (exists k :: 0 <= k < gs.fixed && IsOneOf(rid, wd, k)) ||
      (exists k :: gs.fixed <= k < gs.all && IsOneOf(rid, wd, k))
    }

    /** Some OneOf kind of the block is present in the cell. */
    ghost predicate OneOfHit(rid: int, wd: int, wc: int, wr: int)
      requires gs != null && gs.Shaped() && InBounds(wc, wr)
      reads this`gs, gs.tiles, gs.objects`x, gs.objects`y
    {
      (exists k :: 0 <= k < gs.fixed && FixedOneOfHit(rid, wd, gs.tiles[wc, wr], k)) ||
      (exists k :: gs.fixed <= k < gs.all && MovableOneOfHit(rid, wd, wc, wr, k))
    }

    /** The conditions of block `wd` hold in cell (wc, wr): no kind rejects
        it, and if the block has OneOf kinds, one of them is present. */
    ghost predicate BlockHolds(rid: int, wd: int, wc: int, wr: int)
      requires gs != null && gs.Shaped() && InBounds(wc, wr)
      reads this`gs, gs.tiles, gs.objects`x, gs.objects`y
    {
      (forall k :: 0 <= k < gs.fixed ==> !FixedRejects(rid, wd, gs.tiles[wc, wr], k)) &&
      (forall k :: gs.fixed <= k < gs.all ==> !MovableRejects(rid, wd, wc, wr, k)) &&
      (HasOneOf(rid, wd) ==> OneOfHit(rid, wd, wc, wr))
    }

    /** The guard at table position (col, row) of rule `rid` holds for
        anchor `ts`: no block there, a block whose kinds are all OK, or a
        block whose conditions hold in the (in-bounds) target cell. */
    ghost predicate CellPasses(ts: TileSprite, rid: int, col: int, row: int)
      requires gs != null && gs.Shaped()
      reads this`gs, gs.tiles, gs.objects`x, gs.objects`y, ts`x, ts`y
    {
      var wd := p.whenDo(rid, col, row);
      var wc, wr := ts.Col() + (col - 2), ts.Row() + (row - 2);
      wd == NoneId || AllTrue(rid, wd) || (InBounds(wc, wr) && BlockHolds(rid, wd, wc, wr))
    }

    /** The witness the kind loop captures among movable kinds below `hi`:
        the first sprite found for an Include or OneOf kind. */
    function Capture(rid: int, wd: int, wc: int, wr: int, hi: int): (r: TileSprite?)
      requires gs != null && gs.Shaped()
      reads this`gs, gs.objects`x, gs.objects`y
      ensures r != null ==> r in gs.objects && r.Col() == wc && r.Row() == wr
      decreases hi - gs.fixed
    {
      if hi <= gs.fixed then null
      else
        var c := Capture(rid, wd, wc, wr, hi - 1);
        if c != null then c
        else if p.attr(rid, wd, hi - 1) == AttrInclude || p.attr(rid, wd, hi - 1) == AttrOneOf then
          GetWitness(hi - 1, wc, wr)
        else null
    }

    /** What the guard at (col, row) appends to the witness list: the
        captured sprite, only for a passing block next to the anchor. */
    ghost function CellCapture(ts: TileSprite, rid: int, col: int, row: int): (r: seq<TileSprite>)
      requires gs != null && gs.Shaped()
      reads this`gs, gs.tiles, gs.objects`x, gs.objects`y, ts`x, ts`y
      ensures |r| <= 1
      ensures r != [] ==> Manhattan(col, row) <= 1 && CellPasses(ts, rid, col, row)
      ensures r != [] ==> r[0] in gs.objects &&
                          r[0].Col() == ts.Col() + (col - 2) && r[0].Row() == ts.Row() + (row - 2)
    {
      var wd := p.whenDo(rid, col, row);
      var wc, wr := ts.Col() + (col - 2), ts.Row() + (row - 2);
      if wd == NoneId || AllTrue(rid, wd) || !InBounds(wc, wr) || !BlockHolds(rid, wd, wc, wr) || Manhattan(col, row) > 1 then []
      else
        var c := Capture(rid, wd, wc, wr, gs.all);
        if c == null then [] else [c]
    }

    /** How the verdict and the capture of a guard cell unfold, for the
        block `wd` at the target cell (wc, wr): the cases of evaluateWhenDo
        before its kind loop. */
    lemma CellCases(ts: TileSprite, rid: int, col: int, row: int, wd: int, wc: int, wr: int)
      requires gs != null && gs.Shaped()
      requires wd == p.whenDo(rid, col, row)
      requires wc == ts.Col() + (col - 2) && wr == ts.Row() + (row - 2)
      ensures wd == NoneId || AllTrue(rid, wd) ==>
        CellPasses(ts, rid, col, row) && CellCapture(ts, rid, col, row) == []
      ensures wd != NoneId && !AllTrue(rid, wd) && !InBounds(wc, wr) ==>
        !CellPasses(ts, rid, col, row) && CellCapture(ts, rid, col, row) == []
      ensures wd != NoneId && !AllTrue(rid, wd) && InBounds(wc, wr) ==>
        (CellPasses(ts, rid, col, row) <==> BlockHolds(rid, wd, wc, wr)) &&
        CellCapture(ts, rid, col, row) ==
          (if BlockHolds(rid, wd, wc, wr) && Manhattan(col, row) <= 1 && Capture(rid, wd, wc, wr, gs.all) != null
           then [Capture(rid, wd, wc, wr, gs.all)] else [])
    {
    }

    /** The verdict of the kind loop: when no kind rejects the cell, the
        block holds exactly when it has no OneOf kind or one is present. */
    lemma BlockVerdict(rid: int, wd: int, wc: int, wr: int,
                       fixedOneOf: bool, fixedHit: bool, movableOneOf: bool, movableHit: bool)
      requires gs != null && gs.Shaped() && InBounds(wc, wr)
      requires forall k :: 0 <= k < gs.fixed ==> !FixedRejects(rid, wd, gs.tiles[wc, wr], k)
      requires forall k :: gs.fixed <= k < gs.all ==> !MovableRejects(rid, wd, wc, wr, k)
      requires fixedOneOf <==> exists k :: 0 <= k < gs.fixed && IsOneOf(rid, wd, k)
      requires fixedHit <==> exists k :: 0 <= k < gs.fixed && FixedOneOfHit(rid, wd, gs.tiles[wc, wr], k)
      requires movableOneOf <==> exists k :: gs.fixed <= k < gs.all && IsOneOf(rid, wd, k)
      requires movableHit <==> exists k :: gs.fixed <= k < gs.all && MovableOneOfHit(rid, wd, wc, wr, k)
      ensures BlockHolds(rid, wd, wc, wr) <==> !(fixedOneOf || movableOneOf) || fixedHit || movableHit
    {
    }

    /** The fixed-kind half of the kind loop of evaluateWhenDo: `pass` is
        false as soon as a kind rejects the cell; otherwise `oneOf` tells
        whether some fixed kind is OneOf and `hit` whether such a kind is
        the cell's tile. */
    method ScanFixedKinds(rid: int, wd: int, wc: int, wr: int)
      returns (pass: bool, oneOf: bool, hit: bool)
      requires gs != null && gs.Shaped() && InBounds(wc, wr)
      ensures pass <==> forall k :: 0 <= k < gs.fixed ==> !FixedRejects(rid, wd, gs.tiles[wc, wr], k)
      ensures pass ==> (oneOf <==> exists k :: 0 <= k < gs.fixed && IsOneOf(rid, wd, k))
      ensures pass ==> (hit <==> exists k :: 0 <= k < gs.fixed && FixedOneOfHit(rid, wd, gs.tiles[wc, wr], k))
    {
      oneOf, hit := false, false;
      var kind := 0;
      while kind < gs.fixed
        invariant 0 <= kind && (kind <= gs.fixed || kind == 0)
        invariant forall k :: 0 <= k < kind ==> !FixedRejects(rid, wd, gs.tiles[wc, wr], k)
        invariant oneOf <==> exists k :: 0 <= k < kind && IsOneOf(rid, wd, k)
        invariant hit <==> exists k :: 0 <= k < kind && FixedOneOfHit(rid, wd, gs.tiles[wc, wr], k)
      {
        var hasKind := gs.tiles[wc, wr] == kind;
        var attr := p.attr(rid, wd, kind);
        assert IsOneOf(rid, wd, kind) <==> attr == AttrOneOf;
        assert FixedOneOfHit(rid, wd, gs.tiles[wc, wr], kind) <==> attr == AttrOneOf && hasKind;
        if (attr == AttrExclude && hasKind) || (attr == AttrInclude && !hasKind) {
          assert FixedRejects(rid, wd, gs.tiles[wc, wr], kind);
          return false, oneOf, hit;
        } else if attr == AttrOneOf {
          oneOf := true;
          if hasKind {
            hit := true;
          }
        }
        kind := kind + 1;
      }
      pass := true;
    }

    /** The movable-kind half of the kind loop of evaluateWhenDo, which also
        picks the witness to capture. */
    method ScanMovableKinds(rid: int, wd: int, wc: int, wr: int)
      returns (pass: bool, oneOf: bool, hit: bool, captured: TileSprite?)
      requires gs != null && gs.Shaped()
      ensures pass <==> forall k :: gs.fixed <= k < gs.all ==> !MovableRejects(rid, wd, wc, wr, k)
      ensures pass ==> (oneOf <==> exists k :: gs.fixed <= k < gs.all && IsOneOf(rid, wd, k))
      ensures pass ==> (hit <==> exists k :: gs.fixed <= k < gs.all && MovableOneOfHit(rid, wd, wc, wr, k))
      ensures pass ==> captured == Capture(rid, wd, wc, wr, gs.all)
    {
      oneOf, hit, captured := false, false, null;
      var kind := gs.fixed;
      while kind < gs.all
        invariant gs.fixed <= kind && (kind <= gs.all || kind == gs.fixed)
        invariant forall k :: gs.fixed <= k < kind ==> !MovableRejects(rid, wd, wc, wr, k)
        invariant oneOf <==> exists k :: gs.fixed <= k < kind && IsOneOf(rid, wd, k)
        invariant hit <==> exists k :: gs.fixed <= k < kind && MovableOneOfHit(rid, wd, wc, wr, k)
        invariant captured == Capture(rid, wd, wc, wr, kind)
      {
        var attr := p.attr(rid, wd, kind);
        var found := GetWitness(kind, wc, wr);
        assert IsOneOf(rid, wd, kind) <==> attr == AttrOneOf;
        assert MovableOneOfHit(rid, wd, wc, wr, kind) <==> attr == AttrOneOf && found != null;
        if attr == AttrExclude && found != null {
          assert MovableRejects(rid, wd, wc, wr, kind);
          return false, oneOf, hit, captured;
        } else if attr == AttrInclude {
          if found == null {
            assert MovableRejects(rid, wd, wc, wr, kind);
            return false, oneOf, hit, captured;
          }
          if captured == null {
            captured := found;
          }
        } else if attr == AttrOneOf {
          oneOf := true;
          if found != null {
            hit := true;
          }
          if captured == null {
            captured := found;
          }
        }
        kind := kind + 1;
      }
      pass := true;
    }

    /** Checks the guard of rule `rid` at table position (col, row) around
        `ts`, appending a captured witness to `witnesses` (evaluateWhenDo). */
    method EvaluateWhenDo(ts: TileSprite, rid: int, col: int, row: int, witnesses: seq<TileSprite>)
      returns (ret: bool, ws: seq<TileSprite>)
      requires gs != null && gs.Shaped()
      ensures ret == CellPasses(ts, rid, col, row)
      ensures ws == witnesses + CellCapture(ts, rid, col, row)
    {
      ws := witnesses;
      var whendo := p.whenDo(rid, col, row);
      var wcol := ts.Col() + (col - 2);
      var wrow := ts.Row() + (row - 2);
      var allOk := false;
      if whendo != NoneId {
        allOk := ScanAllKinds(rid, whendo);
      }
      if whendo == NoneId || allOk {
        CellCases(ts, rid, col, row, whendo, wcol, wrow);
        return true, ws;
      }
      if !InBounds(wcol, wrow) {
        CellCases(ts, rid, col, row, whendo, wcol, wrow);
        return false, ws;
      }
      var fixedPass, fixedOneOf, fixedHit := ScanFixedKinds(rid, whendo, wcol, wrow);
      if !fixedPass {
        CellCases(ts, rid, col, row, whendo, wcol, wrow);
        return false, ws;
      }
      var movablePass, movableOneOf, movableHit, captureWitness := ScanMovableKinds(rid, whendo, wcol, wrow);
      CellCases(ts, rid, col, row, whendo, wcol, wrow);
      if !movablePass {
        return false, ws;
      }
      BlockVerdict(rid, whendo, wcol, wrow, fixedOneOf, fixedHit, movableOneOf, movableHit);
      var oneOf := fixedOneOf || movableOneOf;
      var oneOfPassed := fixedHit || movableHit;
      ret := !oneOf || oneOfPassed;
      if ret && Manhattan(col, row) <= 1 {
        if captureWitness != null {
          ws := ws + [captureWitness];
        }
      }
    }

    /** The guards of rule `rid` hold at every one of the twelve guard
        positions around `ts`. */
    ghost predicate RuleMatches(ts: TileSprite, rid: int)
      requires gs != null && gs.Shaped()
      reads this`gs, gs.tiles, gs.objects`x, gs.objects`y, ts`x, ts`y
    {
      forall col, row :: 0 <= col < 5 && 0 <= row < 5 && InGuardArea(col, row) ==> CellPasses(ts, rid, col, row)
    }

    /** The witnesses the guards of the positions before (col, row) capture,
        in visiting order. */
    ghost function Captures(ts: TileSprite, rid: int, col: nat, row: nat): seq<TileSprite>
      requires col <= 5 && row <= 5 && gs != null && gs.Shaped()
      reads this`gs, gs.tiles, gs.objects`x, gs.objects`y, ts`x, ts`y
      decreases col, row
    {
      if row == 0 then (if col == 0 then [] else Captures(ts, rid, col - 1, 5))
      else
        Captures(ts, rid, col, row - 1) +
        (if InGuardArea(col, row - 1) then CellCapture(ts, rid, col, row - 1) else [])
    }

    /** The witnesses a closure of rule `rid` on `ts` carries. */
    ghost function RuleWitnesses(ts: TileSprite, rid: int): seq<TileSprite>
      requires gs != null && gs.Shaped()
      reads this`gs, gs.tiles, gs.objects`x, gs.objects`y, ts`x, ts`y
    {
      Captures(ts, rid, 5, 0)
    }

    /** The guards of the positions before (col, row) hold. */
    ghost predicate PassedBefore(ts: TileSprite, rid: int, col: nat, row: nat)
      requires col <= 5 && row <= 5 && gs != null && gs.Shaped()
      reads this`gs, gs.tiles, gs.objects`x, gs.objects`y, ts`x, ts`y
      decreases col, row
    {
      if row == 0 then col == 0 || PassedBefore(ts, rid, col - 1, 5)
      else
        PassedBefore(ts, rid, col, row - 1) &&
        (InGuardArea(col, row - 1) ==> CellPasses(ts, rid, col, row - 1))
    }

    lemma {:induction false} PassedBeforeEach(ts: TileSprite, rid: int, col: nat, row: nat)
      requires col <= 5 && row <= 5 && gs != null && gs.Shaped()
      ensures PassedBefore(ts, rid, col, row) <==>
        forall c, w :: 0 <= c < 5 && 0 <= w < 5 && Earlier(c, w, col, row) && InGuardArea(c, w) ==>
          CellPasses(ts, rid, c, w)
      decreases col, row
    {
      if row == 0 {
        if col > 0 {
          PassedBeforeEach(ts, rid, col - 1, 5);
        }
      } else {
        PassedBeforeEach(ts, rid, col, row - 1);
      }
    }

    /** One step of evaluateRule's loop: checking the guard at (col, row)
        extends the captures and the verdict to the next position. */
    lemma GuardStep(ts: TileSprite, rid: int, col: nat, row: nat,
                    witnesses: seq<TileSprite>, ok: bool, ws: seq<TileSprite>)
      requires col < 5 && row < 5 && gs != null && gs.Shaped()
      requires witnesses == Captures(ts, rid, col, row) && PassedBefore(ts, rid, col, row)
      requires InGuardArea(col, row)
      requires ok == CellPasses(ts, rid, col, row) && ws == witnesses + CellCapture(ts, rid, col, row)
      ensures ws == Captures(ts, rid, col, row + 1)
      ensures ok == PassedBefore(ts, rid, col, row + 1)
    {
    }

    /** A guard that fails rejects the rule, whatever the later guards say. */
    lemma FailedGuardRejects(ts: TileSprite, rid: int, col: nat, row: nat)
      requires col <= 5 && row <= 5 && gs != null && gs.Shaped()
      requires !PassedBefore(ts, rid, col, row)
      ensures !RuleMatches(ts, rid)
    {
      PassedBeforeEach(ts, rid, col, row);
    }

    /** The table column and row at which sprite `w` sits around anchor `ts`. */
    function TableCol(ts: TileSprite, w: TileSprite): int reads ts`x, w`x { w.Col() - ts.Col() + 2 }
    function TableRow(ts: TileSprite, w: TileSprite): int reads ts`y, w`y { w.Row() - ts.Row() + 2 }

    /** Sprite `w` is a sprite of the state in a cell next to the anchor's,
        at a table position visited before (col, row). */
    ghost predicate NearBefore(ts: TileSprite, w: TileSprite, col: int, row: int)
      requires gs != null
      reads this`gs, ts`x, ts`y, w`x, w`y
    {
      w in gs.objects && Manhattan(TableCol(ts, w), TableRow(ts, w)) == 1 &&
      Earlier(TableCol(ts, w), TableRow(ts, w), col, row)
    }

    /** Every sprite of `cs` is NearBefore (col, row). */
    ghost predicate AllNear(ts: TileSprite, cs: seq<TileSprite>, col: int, row: int)
      requires gs != null
      reads this`gs, ts`x, ts`y, (set w | w in cs)`x, (set w | w in cs)`y
    {
      forall i :: 0 <= i < |cs| ==> NearBefore(ts, cs[i], col, row)
    }

    /** The sprites of `cs` sit at table positions in visiting order. */
    ghost predicate InOrder(ts: TileSprite, cs: seq<TileSprite>)
      reads ts`x, ts`y, (set w | w in cs)`x, (set w | w in cs)`y
    {
      forall i, j :: 0 <= i < j < |cs| ==>
        Earlier(TableCol(ts, cs[i]), TableRow(ts, cs[i]), TableCol(ts, cs[j]), TableRow(ts, cs[j]))
    }

    lemma AllNearLater(ts: TileSprite, cs: seq<TileSprite>, c1: int, r1: int, c2: int, r2: int)
      requires gs != null && AllNear(ts, cs, c1, r1)
      requires c1 < c2 || (c1 == c2 && r1 <= r2)
      ensures AllNear(ts, cs, c2, r2)
    {
      forall i | 0 <= i < |cs| ensures NearBefore(ts, cs[i], c2, r2) {
        assert NearBefore(ts, cs[i], c1, r1);
      }
    }

    /** Appending the capture of position (col, row - 1) keeps the
        witnesses near the anchor and in visiting order. */
    lemma AppendCapture(ts: TileSprite, prev: seq<TileSprite>, extra: seq<TileSprite>, col: int, row: int)
      requires gs != null && AllNear(ts, prev, col, row - 1) && InOrder(ts, prev)
      requires |extra| <= 1
      requires extra != [] ==> extra[0] in gs.objects && Manhattan(col, row - 1) == 1
      requires extra != [] ==> TableCol(ts, extra[0]) == col && TableRow(ts, extra[0]) == row - 1
      ensures AllNear(ts, prev + extra, col, row) && InOrder(ts, prev + extra)
    {
      var cs := prev + extra;
      forall i | 0 <= i < |cs| ensures NearBefore(ts, cs[i], col, row) {
        if i < |prev| {
          assert cs[i] == prev[i] && NearBefore(ts, prev[i], col, row - 1);
        } else {
          assert cs[i] == extra[0];
        }
      }
      forall i, j | 0 <= i < j < |cs|
        ensures Earlier(TableCol(ts, cs[i]), TableRow(ts, cs[i]), TableCol(ts, cs[j]), TableRow(ts, cs[j]))
      {
        assert cs[i] == prev[i] && NearBefore(ts, prev[i], col, row - 1);
        if j < |prev| {
          assert cs[j] == prev[j];
        } else {
          assert cs[j] == extra[0];
        }
      }
    }

    /** The witnesses captured before (col, row) sit next to the anchor, at
        positions visited earlier, and come in visiting order. */
    lemma {:induction false} CapturesShape(ts: TileSprite, rid: int, col: nat, row: nat)
      requires col <= 5 && row <= 5 && gs != null && gs.Shaped()
      ensures AllNear(ts, Captures(ts, rid, col, row), col, row)
      ensures InOrder(ts, Captures(ts, rid, col, row))
      decreases col, row
    {
      if row == 0 {
        if col > 0 {
          CapturesShape(ts, rid, col - 1, 5);
          AllNearLater(ts, Captures(ts, rid, col - 1, 5), col - 1, 5, col, 0);
        }
      } else {
        CapturesShape(ts, rid, col, row - 1);
        var extra := if InGuardArea(col, row - 1) then CellCapture(ts, rid, col, row - 1) else [];
        AppendCapture(ts, Captures(ts, rid, col, row - 1), extra, col, row);
      }
    }

    /** What evaluateRule promises of a closure's witnesses: at most four,
        each a sprite in one of the four cells next to the anchor, no two
        in the same cell. */
    lemma RuleWitnessesShape(ts: TileSprite, rid: int)
      requires gs != null && gs.Shaped()
      ensures |RuleWitnesses(ts, rid)| <= 4
      ensures var ws := RuleWitnesses(ts, rid);
        forall i :: 0 <= i < |ws| ==>
          ws[i] in gs.objects && Abs(ws[i].Col() - ts.Col()) + Abs(ws[i].Row() - ts.Row()) == 1
      ensures var ws := RuleWitnesses(ts, rid);
        forall i, j :: 0 <= i < j < |ws| ==> ws[i].Col() != ws[j].Col() || ws[i].Row() != ws[j].Row()
    {
      CapturesShape(ts, rid, 5, 0);
      var ws := RuleWitnesses(ts, rid);
      assert AllNear(ts, ws, 5, 0) && InOrder(ts, ws);
      var ps := seq(|ws|, i requires 0 <= i < |ws| reads ts`x, ts`y, (set w | w in ws)`x, (set w | w in ws)`y => (TableCol(ts, ws[i]), TableRow(ts, ws[i])));
      forall i | 0 <= i < |ws|
        ensures Manhattan(ps[i].0, ps[i].1) == 1
        ensures ws[i] in gs.objects && Abs(ws[i].Col() - ts.Col()) + Abs(ws[i].Row() - ts.Row()) == 1
      {
        assert NearBefore(ts, ws[i], 5, 0);
      }
      AtMostFourAdjacent(ps);
    }

    /** The guards of column `col` of rule `rid`, checked top to bottom (the
        inner loop of evaluateRule): when they all hold, the captures and
        the verdict reach the top of the next column; when one fails, the
        rule does not match. */
    method EvaluateGuardColumn(ts: TileSprite, rid: int, col: nat, witnesses: seq<TileSprite>)
      returns (ok: bool, ws: seq<TileSprite>)
      requires col < 5 && gs != null && gs.Shaped()
      requires witnesses == Captures(ts, rid, col, 0) && PassedBefore(ts, rid, col, 0)
      ensures ok ==> ws == Captures(ts, rid, col + 1, 0) && PassedBefore(ts, rid, col + 1, 0)
      ensures !ok ==> !RuleMatches(ts, rid)
    {
      ws := witnesses;
      for row := 0 to 5
        invariant ws == Captures(ts, rid, col, row) && PassedBefore(ts, rid, col, row)
      {
        if Manhattan(col, row) > 2 || (col == 2 && row == 2) {
          continue;
        }
        var passed, next := EvaluateWhenDo(ts, rid, col, row, ws);
        GuardStep(ts, rid, col, row, ws, passed, next);
        if !passed {
          FailedGuardRejects(ts, rid, col, row + 1);
          return false, next;
        }
        ws := next;
      }
      ok := true;
    }

    /** Tries rule `rid` on anchor `ts` (evaluateRule): a closure exactly
        when every guard holds, carrying the witnesses the guards captured. */
    method EvaluateRule(ts: TileSprite, rid: int) returns (r: Option<RuleClosure>)
      requires gs != null && gs.Shaped()
      ensures r.Some? <==> RuleMatches(ts, rid)
      ensures r.Some? ==> r.value == RuleClosure(rid, ts, RuleWitnesses(ts, rid))
    {
      var witnesses: seq<TileSprite> := [];
      for col := 0 to 5
        invariant witnesses == Captures(ts, rid, col, 0) && PassedBefore(ts, rid, col, 0)
      {
        var ok, ws := EvaluateGuardColumn(ts, rid, col, witnesses);
        if !ok {
          return None;
        }
        witnesses := ws;
      }
      PassedBeforeEach(ts, rid, 5, 0);
      return Some(RuleClosure(rid, ts, witnesses));
    }

    // ----------------------------------------------------- rule selection

    /** Rule `rid` is selected for anchor `ts` in `phase` with the d-pad at
        `pad`: the filter of matchingRules admits it and its guards hold. */
    ghost predicate Selected(phase: Phase, pad: int, ts: TileSprite, rid: int)
      requires gs != null && gs.Shaped()
      reads this`gs, gs.tiles, gs.objects`x, gs.objects`y, ts`x, ts`y, ts`dir
    {
      RuleApplies(p, phase, rid, ts.kind, ts.dir, pad) && RuleMatches(ts, rid)
    }

    /** The closure evaluateRule builds for rule `rid` on anchor `ts`. */
    ghost function ClosureFor(ts: TileSprite, rid: int): RuleClosure
      requires gs != null && gs.Shaped()
      reads this`gs, gs.tiles, gs.objects`x, gs.objects`y, ts`x, ts`y
    {
      RuleClosure(rid, ts, RuleWitnesses(ts, rid))
    }

    /** The closures collected for anchor `ts` from the first `n` rules of
        the VM, in rule order. */
    ghost function ClosuresOfRules(phase: Phase, pad: int, ts: TileSprite, n: nat): seq<RuleClosure>
      requires n <= |rules| && gs != null && gs.Shaped()
      reads this`gs, gs.tiles, gs.objects`x, gs.objects`y, ts`x, ts`y, ts`dir
    {
      if n == 0 then []
      else
        var last := if Selected(phase, pad, ts, rules[n - 1]) then [ClosureFor(ts, rules[n - 1])] else [];
        ClosuresOfRules(phase, pad, ts, n - 1) + last
    }

    /** A closure is collected for `ts` exactly when it is the closure of a
        selected rule. */
    lemma {:induction false} ClosuresOfRulesMembers(phase: Phase, pad: int, ts: TileSprite, n: nat)
      requires n <= |rules| && gs != null && gs.Shaped()
      ensures forall rc :: rc in ClosuresOfRules(phase, pad, ts, n) <==>
        exists j :: 0 <= j < n && Selected(phase, pad, ts, rules[j]) && rc == ClosureFor(ts, rules[j])
    {
      if n > 0 {
        ClosuresOfRulesMembers(phase, pad, ts, n - 1);
      }
    }

    /** Tries rule `rid` on anchor `ts`: the filter of matchingRules, then
        evaluateRule, pushing the closure when the rule matches (the
        handler of applyRules). */
    method TryRule(phase: Phase, ts: TileSprite, rid: int)
      requires gs != null && gs.Shaped()
      modifies this`ruleClosures
      ensures ruleClosures == old(ruleClosures) + (if Selected(phase, dpad, ts, rid) then [ClosureFor(ts, rid)] else [])
    {
      if RuleApplies(p, phase, rid, ts.kind, ts.dir, dpad) {
        var closure := EvaluateRule(ts, rid);
        if closure.Some? {
          ruleClosures := ruleClosures + [closure.value];
        }
      }
    }

    /** Tries every rule of the VM on anchor `ts`, in order (matchingRules). */
    method MatchingRules(phase: Phase, ts: TileSprite)
      requires gs != null && gs.Shaped()
      modifies this`ruleClosures
      ensures ruleClosures == old(ruleClosures) + ClosuresOfRules(phase, dpad, ts, |rules|)
    {
      for n := 0 to |rules|
        invariant ruleClosures == old(ruleClosures) + ClosuresOfRules(phase, dpad, ts, n)
      {
        ghost var last := if Selected(phase, dpad, ts, rules[n]) then [ClosureFor(ts, rules[n])] else [];
        assert ClosuresOfRules(phase, dpad, ts, n + 1) == ClosuresOfRules(phase, dpad, ts, n) + last;
        AppendAssoc(old(ruleClosures), ClosuresOfRules(phase, dpad, ts, n), last);
        TryRule(phase, ts, rules[n]);
      }
    }

    /** The closures collected in `phase` from the first `n` sprites
        allSprites visits, in that order, with the d-pad at `pad` and the
        sprites holding the instructions `insts` (in the same order). */
    ghost function PhaseClosures(phase: Phase, pad: int, insts: seq<int>, n: nat): seq<RuleClosure>
      requires gs != null && gs.Shaped() && n <= |gs.AllSprites()| == |insts|
      reads this`gs, gs.tiles, gs.objects`x, gs.objects`y, gs.objects`dir
    {
      if n == 0 then []
      else
        gs.AllSpritesInObjects();
        var ts := gs.AllSprites()[n - 1];
        PhaseClosures(phase, pad, insts, n - 1) +
          (if Eligible(phase, ts.dir, insts[n - 1]) then ClosuresOfRules(phase, pad, ts, |rules|) else [])
    }

    /** A closure is collected in `phase` exactly when it is the closure of
        a rule selected for an eligible sprite. */
    lemma {:induction false} PhaseClosuresMembers(phase: Phase, pad: int, insts: seq<int>, n: nat)
      requires gs != null && gs.Shaped() && n <= |gs.AllSprites()| == |insts|
      ensures forall rc :: rc in PhaseClosures(phase, pad, insts, n) <==>
        exists i, j :: 0 <= i < n && 0 <= j < |rules| &&
          Eligible(phase, gs.AllSprites()[i].dir, insts[i]) &&
          Selected(phase, pad, gs.AllSprites()[i], rules[j]) && rc == ClosureFor(gs.AllSprites()[i], rules[j])
    {
      if n > 0 {
        PhaseClosuresMembers(phase, pad, insts, n - 1);
        ClosuresOfRulesMembers(phase, pad, gs.AllSprites()[n - 1], |rules|);
      }
    }

    /** The closures applyRules collects in `phase` from the first `n`
        sprites, on the current d-pad and instructions. */
    ghost function Collected(phase: Phase, n: nat): seq<RuleClosure>
      requires gs != null && gs.Shaped() && n <= |gs.AllSprites()|
      reads this`gs, this`dpad, gs.tiles, gs.objects`x, gs.objects`y, gs.objects`dir, gs.objects`inst
    {
      if n == 0 then []
      else
        gs.AllSpritesInObjects();
        var ts := gs.AllSprites()[n - 1];
        Collected(phase, n - 1) +
          (if Eligible(phase, ts.dir, ts.inst) then ClosuresOfRules(phase, dpad, ts, |rules|) else [])
    }

    /** What applyRules collects is the phase's closures for the current
        d-pad and the instructions the sprites hold. */
    lemma {:induction false} CollectedIsPhaseClosures(phase: Phase, n: nat)
      requires gs != null && gs.Shaped() && n <= |gs.AllSprites()|
      ensures Collected(phase, n) == PhaseClosures(phase, dpad, gs.InstsOf(Slots(gs.objects)), n)
    {
      if n > 0 {
        CollectedIsPhaseClosures(phase, n - 1);
        InstsOfHeld(n - 1);
      }
    }

    // ------------------------------------------ what rule selection reads

    /* Rule selection reads the sprites only through the cells they are
       in and their directions, and reads the tile map. The lemmas below
       carry it from one state to a later one that agrees on those: the
       state a round starts from and the state its phases run on. */

    twostate lemma WitnessesKept()
      requires gs != null && old(gs) == gs && gs.Shaped()
      requires forall s :: s in gs.objects ==> old(s.Col()) == s.Col() && old(s.Row()) == s.Row()
      ensures forall kind, col, row ::
        old(GetWitness(kind, col, row)) == GetWitness(kind, col, row) &&
        old(Occupied(kind, col, row)) == Occupied(kind, col, row)
    {
      forall kind, col, row
        ensures old(GetWitness(kind, col, row)) == GetWitness(kind, col, row)
        ensures old(Occupied(kind, col, row)) == Occupied(kind, col, row)
      {
        if 0 <= kind < |gs.sprites| {
          var ls := gs.sprites[kind];
          assert forall i :: 0 <= i < |ls| ==> old(ls[i].Col()) == ls[i].Col() && old(ls[i].Row()) == ls[i].Row();
          FindAtKept(ls);
        }
      }
    }

    twostate lemma CaptureKept(hi: int)
      requires gs != null && old(gs) == gs && gs.Shaped()
      requires forall s :: s in gs.objects ==> old(s.Col()) == s.Col() && old(s.Row()) == s.Row()
      ensures forall rid, wd, wc, wr :: old(Capture(rid, wd, wc, wr, hi)) == Capture(rid, wd, wc, wr, hi)
      decreases hi - gs.fixed
    {
      if hi > gs.fixed {
        CaptureKept(hi - 1);
        WitnessesKept();
      }
    }

    twostate lemma BlockHoldsKept()
      requires gs != null && old(gs) == gs && gs.Shaped()
      requires forall s :: s in gs.objects ==> old(s.Col()) == s.Col() && old(s.Row()) == s.Row()
      requires forall x, y :: 0 <= x < gs.tiles.Length0 && 0 <= y < gs.tiles.Length1 ==> old(gs.tiles[x, y]) == gs.tiles[x, y]
      ensures forall rid, wd, wc, wr :: InBounds(wc, wr) ==>
        old(BlockHolds(rid, wd, wc, wr)) == BlockHolds(rid, wd, wc, wr)
    {
      WitnessesKept();
      forall rid, wd, wc, wr | InBounds(wc, wr)
        ensures old(BlockHolds(rid, wd, wc, wr)) == BlockHolds(rid, wd, wc, wr)
      {
        forall k | gs.fixed <= k < gs.all
          ensures old(MovableRejects(rid, wd, wc, wr, k)) == MovableRejects(rid, wd, wc, wr, k)
          ensures old(MovableOneOfHit(rid, wd, wc, wr, k)) == MovableOneOfHit(rid, wd, wc, wr, k)
        {
        }
      }
    }

    twostate lemma CellKept(ts: TileSprite)
      requires gs != null && old(gs) == gs && gs.Shaped()
      requires forall s :: s in gs.objects ==> old(s.Col()) == s.Col() && old(s.Row()) == s.Row()
      requires forall x, y :: 0 <= x < gs.tiles.Length0 && 0 <= y < gs.tiles.Length1 ==> old(gs.tiles[x, y]) == gs.tiles[x, y]
      requires ts in gs.objects
      ensures forall rid, col, row ::
        old(CellPasses(ts, rid, col, row)) == CellPasses(ts, rid, col, row) &&
        old(CellCapture(ts, rid, col, row)) == CellCapture(ts, rid, col, row)
    {
      BlockHoldsKept();
      CaptureKept(gs.all);
      forall rid, col, row
        ensures old(CellPasses(ts, rid, col, row)) == CellPasses(ts, rid, col, row)
        ensures old(CellCapture(ts, rid, col, row)) == CellCapture(ts, rid, col, row)
      {
      }
    }

    twostate lemma ClosureKept(ts: TileSprite)
      requires gs != null && old(gs) == gs && gs.Shaped()
      requires forall s :: s in gs.objects ==> old(s.Col()) == s.Col() && old(s.Row()) == s.Row()
      requires forall x, y :: 0 <= x < gs.tiles.Length0 && 0 <= y < gs.tiles.Length1 ==> old(gs.tiles[x, y]) == gs.tiles[x, y]
      requires ts in gs.objects
      ensures forall rid :: old(RuleMatches(ts, rid)) == RuleMatches(ts, rid)
      ensures forall rid :: old(ClosureFor(ts, rid)) == ClosureFor(ts, rid)
    {
      CellKept(ts);
      for c := 0 to 6
        invariant forall rid, col: nat, row: nat :: col < c && row <= 5 ==>
          old(Captures(ts, rid, col, row)) == Captures(ts, rid, col, row)
      {
        for r := 0 to 6
          invariant forall rid, col: nat, row: nat :: (col < c || (col == c && row < r)) && row <= 5 ==>
            old(Captures(ts, rid, col, row)) == Captures(ts, rid, col, row)
        {
        }
      }
    }

    twostate lemma ClosuresOfRulesKept(ts: TileSprite)
      requires gs != null && old(gs) == gs && gs.Shaped()
      requires forall s :: s in gs.objects ==>
        old(s.Col()) == s.Col() && old(s.Row()) == s.Row() && old(s.dir) == s.dir
      requires forall x, y :: 0 <= x < gs.tiles.Length0 && 0 <= y < gs.tiles.Length1 ==> old(gs.tiles[x, y]) == gs.tiles[x, y]
      requires ts in gs.objects
      ensures forall phase, pad, n: nat :: n <= |rules| ==>
        old(ClosuresOfRules(phase, pad, ts, n)) == ClosuresOfRules(phase, pad, ts, n)
    {
      ClosureKept(ts);
      for k := 0 to |rules|
        invariant forall phase, pad, n: nat :: n <= k ==>
          old(ClosuresOfRules(phase, pad, ts, n)) == ClosuresOfRules(phase, pad, ts, n)
      {
      }
    }

    /** The closures of a phase are the same in a later state where every
        sprite is in the cell it was in and faces the same way, and the
        tile map is unchanged. */
    twostate lemma PhaseClosuresKept()
      requires gs != null && old(gs) == gs && gs.Shaped()
      requires forall s :: s in gs.objects ==>
        old(s.Col()) == s.Col() && old(s.Row()) == s.Row() && old(s.dir) == s.dir
      requires forall x, y :: 0 <= x < gs.tiles.Length0 && 0 <= y < gs.tiles.Length1 ==> old(gs.tiles[x, y]) == gs.tiles[x, y]
      ensures forall phase, pad, insts, n: nat :: n <= |gs.AllSprites()| == |insts| ==>
        old(PhaseClosures(phase, pad, insts, n)) == PhaseClosures(phase, pad, insts, n)
    {
      gs.AllSpritesInObjects();
      for k := 0 to |gs.AllSprites()|
        invariant forall phase, pad, insts, n: nat :: n <= k && |gs.AllSprites()| == |insts| ==>
          old(PhaseClosures(phase, pad, insts, n)) == PhaseClosures(phase, pad, insts, n)
      {
        ClosuresOfRulesKept(gs.AllSprites()[k]);
      }
    }

    /** The instruction a sprite holds is the one its slot records. */
    lemma InstsOfHeld(i: nat)
      requires gs != null && gs.Shaped() && i < |gs.AllSprites()|
      ensures gs.AllSprites()[i] in gs.objects
      ensures gs.InstsOf(Slots(gs.objects))[i] == gs.AllSprites()[i].inst
    {
      gs.AllSpritesInObjects();
    }

    /** Collects the closures of every eligible sprite (applyRules). Only
        the closure list changes, so every closure of a phase is computed
        on the state the phase starts from. */
    method ApplyRules(phase: Phase)
      requires gs != null && gs.Shaped()
      modifies this`ruleClosures
      ensures ruleClosures == old(ruleClosures) + Collected(phase, |gs.AllSprites()|)
    {
      var all := gs.AllSprites();
      for i := 0 to |all|
        invariant ruleClosures == old(ruleClosures) + Collected(phase, i)
      {
        var ts := all[i];
        ghost var last := if Eligible(phase, ts.dir, ts.inst) then ClosuresOfRules(phase, dpad, ts, |rules|) else [];
        assert Collected(phase, i + 1) == Collected(phase, i) + last;
        AppendAssoc(old(ruleClosures), Collected(phase, i), last);
        if Eligible(phase, ts.dir, ts.inst) {
          MatchingRules(phase, ts);
        }
      }
    }

    // ----------------------------------------------------------- executor

    /** The anchor and the witnesses of `rc` are sprites of the state. */
    ghost predicate Anchored(rc: RuleClosure)
      requires gs != null
      reads this`gs
    {
      rc.self in gs.objects && forall i :: 0 <= i < |rc.witnesses| ==> rc.witnesses[i] in gs.objects
    }

    /** The sprite a Move at table position (col, row) of `rc` is aimed at:
        the anchor at the centre, elsewhere the first witness in the target
        cell, if there is one. */
    function MoveTarget(rc: RuleClosure, col: int, row: int): TileSprite?
      reads rc.self`x, rc.self`y, (set w | w in rc.witnesses)`x, (set w | w in rc.witnesses)`y
    {
      if col == 2 && row == 2 then rc.self
      else FindAt(rc.witnesses, rc.self.Col() + (col - 2), rc.self.Row() + (row - 2))
    }

    /** A Move is aimed at the anchor at the centre; elsewhere at a witness
        in the target cell, and at nothing exactly when no witness is
        there (a Move with a missing witness is then a no-op). */
    lemma MoveTargetSpec(rc: RuleClosure, col: int, row: int)
      ensures col == 2 && row == 2 ==> MoveTarget(rc, col, row) == rc.self
      ensures var r := MoveTarget(rc, col, row);
        !(col == 2 && row == 2) ==>
        (r != null ==> r in rc.witnesses && r.Col() == rc.self.Col() + (col - 2) && r.Row() == rc.self.Row() + (row - 2)) &&
        (r == null <==> forall i :: 0 <= i < |rc.witnesses| ==>
          !(rc.witnesses[i].Col() == rc.self.Col() + (col - 2) && rc.witnesses[i].Row() == rc.self.Row() + (row - 2)))
    {
      FindAtSpec(rc.witnesses, rc.self.Col() + (col - 2), rc.self.Row() + (row - 2));
    }

    /** The argument of the Paint position (col, row) of rule `rid` runs:
        empty unless the position's command is a Paint. */
    function CellPaints(rid: int, col: int, row: int): seq<int> {
      match CellCommand(p, rid, col, row)
      case Some((inst, arg)) => if inst == CmdPaint then [arg] else []
      case None => []
    }

    /** The argument of the Move position (col, row) of rule `rid` runs. */
    function CellMoves(rid: int, col: int, row: int): seq<int> {
      match CellCommand(p, rid, col, row)
      case Some((inst, arg)) => if inst == CmdMove then [arg] else []
      case None => []
    }

    /** The entries the command of position (col, row) of rule `rid`
        appends to the global queue. */
    function CellQueue(rid: int, col: int, row: int): seq<int> {
      match CellCommand(p, rid, col, row)
      case Some((inst, arg)) => if inst == CmdGame || inst == CmdSpritePred then [inst, arg] else []
      case None => []
    }

    /** The switch of evaluateWhenDoCommands, run on the handled command
        (inst, arg): a Paint writes `arg` on the target pixel when it is in
        bounds and unset, a Move claims the target sprite, Game and
        SpritePred append two entries to the global queue. */
    method RunCommand(rc: RuleClosure, col: int, row: int, inst: int, arg: int)
      requires gs != null && Anchored(rc)
      modifies gs`globalCommands, gs.nextWorld, gs.objects`inst, gs.objects`arg
      ensures gs.globalCommands ==
        old(gs.globalCommands) + (if inst == CmdGame || inst == CmdSpritePred then [inst, arg] else [])
      ensures forall x, y :: 0 <= x < gs.nextWorld.Length0 && 0 <= y < gs.nextWorld.Length1 ==>
        gs.nextWorld[x, y] ==
          if inst == CmdPaint && x == old(rc.self.Col()) + (col - 2) && y == old(rc.self.Row()) + (row - 2)
          then PaintPixel(old(gs.nextWorld[x, y]), arg) else old(gs.nextWorld[x, y])
      ensures forall s :: s in gs.objects ==>
        (s.inst, s.arg) ==
          if inst == CmdMove && old(MoveTarget(rc, col, row)) == s
          then Claim(old(s.inst), old(s.arg), arg) else (old(s.inst), old(s.arg))
    {
      var wcol := rc.self.Col() + (col - 2);
      var wrow := rc.self.Row() + (row - 2);
      if inst == CmdPaint {
        if InBounds(wcol, wrow) && gs.nextWorld[wcol, wrow] == Unset {
          gs.nextWorld[wcol, wrow] := arg;
        }
      } else if inst == CmdMove {
        var target := MoveTarget(rc, col, row);
        MoveTargetSpec(rc, col, row);
        if target != null {
          if target.inst == NoneId || (target.inst == CmdMove && arg == ArgStop) {
            target.inst, target.arg := inst, arg;
          }
        }
      } else if inst == CmdGame || inst == CmdSpritePred {
        gs.globalCommands := gs.globalCommands + [inst, arg];
      }
    }

    /** Runs the one command of table position (col, row) of closure `rc`
        (evaluateWhenDoCommands): the first handled command among the four
        slots of the position's block, unless a -1 comes first. Only the
        target pixel, the target sprite and the global queue can change. */
    method EvaluateWhenDoCommands(rc: RuleClosure, col: int, row: int)
      requires gs != null && Anchored(rc)
      modifies gs`globalCommands, gs.nextWorld, gs.objects`inst, gs.objects`arg
      ensures gs.globalCommands == old(gs.globalCommands) + CellQueue(rc.rid, col, row)
      ensures forall x, y :: 0 <= x < gs.nextWorld.Length0 && 0 <= y < gs.nextWorld.Length1 ==>
        gs.nextWorld[x, y] ==
          if x == old(rc.self.Col()) + (col - 2) && y == old(rc.self.Row()) + (row - 2)
          then PaintAll(old(gs.nextWorld[x, y]), CellPaints(rc.rid, col, row)) else old(gs.nextWorld[x, y])
      ensures forall s :: s in gs.objects ==>
        (s.inst, s.arg) ==
          if old(MoveTarget(rc, col, row)) == s
          then ClaimAll(old(s.inst), old(s.arg), CellMoves(rc.rid, col, row)) else (old(s.inst), old(s.arg))
    {
      var wid := p.whenDo(rc.rid, col, row);
      if wid == NoneId || p.inst(rc.rid, wid, 0) == NoneId {
        assert CellCommand(p, rc.rid, col, row) == None;
        return;
      }
      for cid := 0 to 4
        invariant CommandSlot(p, rc.rid, wid, cid) == CommandSlot(p, rc.rid, wid, 0)
      {
        var inst := p.inst(rc.rid, wid, cid);
        var arg := p.arg(rc.rid, wid, cid);
        if inst == NoneId {
          break;
        }
        if Handled(inst) {
          assert CellCommand(p, rc.rid, col, row) == Some((inst, arg));
          RunCommand(rc, col, row, inst, arg);
          return;
        }
      }
      assert CellCommand(p, rc.rid, col, row) == None;
    }

    /** The Paints closure `rc` of rule `rid`, anchored in cell (sc, sr),
        makes on pixel (x, y): those of the one position whose target cell
        is that pixel. */
    function PixelPaints(rid: int, sc: int, sr: int, x: int, y: int): seq<int> {
      var col, row := x - sc + 2, y - sr + 2;
      if InCommandArea(col, row) then CellPaints(rid, col, row) else []
    }

    /** The Move claims closure `rc` makes on sprite `s`: those of the
        position of the cell `s` is in, if `s` is that position's target. */
    ghost function SpriteMoves(rc: RuleClosure, s: TileSprite): seq<int>
      reads rc.self`x, rc.self`y, (set w | w in rc.witnesses)`x, (set w | w in rc.witnesses)`y, s`x, s`y
    {
      var col, row := TableCol(rc.self, s), TableRow(rc.self, s);
      if InCommandArea(col, row) && MoveTarget(rc, col, row) == s then CellMoves(rc.rid, col, row) else []
    }

    /** The entries the positions of column `col` above `row` of rule `rid`
        append to the global queue, top to bottom. (`rid` is named in the
        decreases clause only so that a literal row count does not unfold
        the whole column at every use.) */
    function ColumnQueue(rid: int, col: int, row: nat): seq<int>
      decreases row, rid
    {
      if row == 0 then []
      else
        var here := if InCommandArea(col, row - 1) then CellQueue(rid, col, row - 1) else [];
        ColumnQueue(rid, col, row - 1) + here
    }

    /** The entries the columns left of `col` of rule `rid` append to the
        global queue, column by column. (`rid` is in the decreases clause
        for the same reason as in ColumnQueue.) */
    function ClosureQueue(rid: int, col: nat): seq<int>
      decreases col, rid
    {
      if col == 0 then [] else ClosureQueue(rid, col - 1) + ColumnQueue(rid, col - 1, 5)
    }

    /** Position (c, r) is a command position of column `col` above `row`. */
    predicate InColumnBefore(c: int, r: int, col: int, row: int) {
      InCommandArea(c, r) && c == col && r < row
    }

    /** Position (c, r) is a command position of a column left of `col`. */
    predicate Visited(c: int, r: int, col: int) {
      InCommandArea(c, r) && c < col
    }

    // -------------------------------------------- the state as values

    /** The pixels of a buffer, as values. */
    ghost function Pixels(a: array2<int>): (r: seq<seq<int>>)
      reads a
      ensures |r| == a.Length0 && forall i :: 0 <= i < |r| ==> |r[i]| == a.Length1
      ensures forall i, j :: 0 <= i < a.Length0 && 0 <= j < a.Length1 ==> r[i][j] == a[i, j]
    {
      seq(a.Length0, i requires 0 <= i < a.Length0 reads a =>
        seq(a.Length1, j requires 0 <= j < a.Length1 reads a => a[i, j]))
    }

    /** The instruction slot (inst, arg) of every sprite of `objs`. */
    ghost function Slots(objs: set<TileSprite>): (r: map<TileSprite, (int, int)>)
      reads objs`inst, objs`arg
    {
      map s | s in objs :: (s.inst, s.arg)
    }

    /** The slots of `objs` once every instruction is cleared. */
    ghost function ClearedSlots(objs: set<TileSprite>): (r: map<TileSprite, (int, int)>)
      reads objs`arg
    {
      map s | s in objs :: (NoneId, s.arg)
    }

    /** The table position of every sprite of the state around the anchor of `rc`. */
    ghost function Positions(rc: RuleClosure): (r: map<TileSprite, (int, int)>)
      requires gs != null
      reads this`gs, rc.self`x, rc.self`y, gs.objects`x, gs.objects`y
    {
      map s | s in gs.objects :: (TableCol(rc.self, s), TableRow(rc.self, s))
    }

    /** The Move claims closure `rc` makes on every sprite of the state. */
    ghost function Moves(rc: RuleClosure): (r: map<TileSprite, seq<int>>)
      requires gs != null
      reads this`gs, rc.self`x, rc.self`y, (set w | w in rc.witnesses)`x, (set w | w in rc.witnesses)`y
      reads gs.objects`x, gs.objects`y
    {
      map s | s in gs.objects :: SpriteMoves(rc, s)
    }

    predicate SameShape(a: seq<seq<int>>, b: seq<seq<int>>) {
      |a| == |b| && forall i :: 0 <= i < |a| ==> |a[i]| == |b[i]|
    }

    // ------------------------------------------------- Paints of a closure

    /** Grid `now` is grid `start` after the Paints of the positions of
        column `col` above `row` of rule `rid`, anchored in cell (sc, sr). */
    predicate ColumnPainted(rid: int, sc: int, sr: int, col: int, row: int,
                            start: seq<seq<int>>, now: seq<seq<int>>) {
      SameShape(start, now) &&
      forall x, y :: 0 <= x < |start| && 0 <= y < |start[x]| ==>
        now[x][y] == if InColumnBefore(x - sc + 2, y - sr + 2, col, row)
                     then PaintAll(start[x][y], PixelPaints(rid, sc, sr, x, y)) else start[x][y]
    }

    /** Grid `now` is grid `start` after the Paints of the columns left of `col`. */
    predicate ClosurePainted(rid: int, sc: int, sr: int, col: int,
                             start: seq<seq<int>>, now: seq<seq<int>>) {
      SameShape(start, now) &&
      forall x, y :: 0 <= x < |start| && 0 <= y < |start[x]| ==>
        now[x][y] == if Visited(x - sc + 2, y - sr + 2, col)
                     then PaintAll(start[x][y], PixelPaints(rid, sc, sr, x, y)) else start[x][y]
    }

    /** Grid `after` is grid `before` after the command of position
        (col, row): only the target pixel can change, by its Paints. */
    predicate PositionPainted(rid: int, sc: int, sr: int, col: int, row: int,
                              before: seq<seq<int>>, after: seq<seq<int>>) {
      SameShape(before, after) &&
      forall x, y :: 0 <= x < |before| && 0 <= y < |before[x]| ==>
        after[x][y] == if InCommandArea(col, row) && x == sc + (col - 2) && y == sr + (row - 2)
                       then PaintAll(before[x][y], CellPaints(rid, col, row)) else before[x][y]
    }

    /** One step of the row loop of evaluateRuleClosure, seen from one pixel
        whose position in the table is (c, r): running position (col, row)
        extends the Paints the pixel has received to the next position. */
    lemma PixelStep(c: int, r: int, col: int, row: int, paints: seq<int>, cell: seq<int>,
                    v0: int, before: int, after: int)
      requires before == if InColumnBefore(c, r, col, row) then PaintAll(v0, paints) else v0
      requires after == if InCommandArea(col, row) && (c, r) == (col, row) then PaintAll(before, cell) else before
      requires InCommandArea(col, row) && (c, r) == (col, row) ==> paints == cell
      ensures after == if InColumnBefore(c, r, col, row + 1) then PaintAll(v0, paints) else v0
    {
    }

    /** Running position (col, row) extends the Paints of its column. */
    lemma PaintedStep(rid: int, sc: int, sr: int, col: int, row: int,
                      start: seq<seq<int>>, before: seq<seq<int>>, after: seq<seq<int>>)
      requires ColumnPainted(rid, sc, sr, col, row, start, before)
      requires PositionPainted(rid, sc, sr, col, row, before, after)
      ensures ColumnPainted(rid, sc, sr, col, row + 1, start, after)
    {
      forall x, y | 0 <= x < |start| && 0 <= y < |start[x]|
        ensures after[x][y] == if InColumnBefore(x - sc + 2, y - sr + 2, col, row + 1)
                               then PaintAll(start[x][y], PixelPaints(rid, sc, sr, x, y)) else start[x][y]
      {
        PixelStep(x - sc + 2, y - sr + 2, col, row, PixelPaints(rid, sc, sr, x, y), CellPaints(rid, col, row),
                  start[x][y], before[x][y], after[x][y]);
      }
    }

    /** Running column `col` extends the Paints of the closure to the next column. */
    lemma PaintedColumn(rid: int, sc: int, sr: int, col: int,
                        start: seq<seq<int>>, before: seq<seq<int>>, after: seq<seq<int>>)
      requires ClosurePainted(rid, sc, sr, col, start, before)
      requires ColumnPainted(rid, sc, sr, col, 5, before, after)
      ensures ClosurePainted(rid, sc, sr, col + 1, start, after)
    {
      forall x, y | 0 <= x < |start| && 0 <= y < |start[x]|
        ensures after[x][y] == if Visited(x - sc + 2, y - sr + 2, col + 1)
                               then PaintAll(start[x][y], PixelPaints(rid, sc, sr, x, y)) else start[x][y]
      {
        assert before[x][y] == if Visited(x - sc + 2, y - sr + 2, col)
                               then PaintAll(start[x][y], PixelPaints(rid, sc, sr, x, y)) else start[x][y];
      }
    }

    /** Grid `start` after the Paints of one closure of rule `rid` anchored
        at (sc, sr): each pixel takes the Paints aimed at it. */
    function PaintedBy(start: seq<seq<int>>, rid: int, sc: int, sr: int): (r: seq<seq<int>>)
      ensures SameShape(start, r)
    {
      seq(|start|, x requires 0 <= x < |start| =>
        seq(|start[x]|, y requires 0 <= y < |start[x]| => PaintAll(start[x][y], PixelPaints(rid, sc, sr, x, y))))
    }

    /** After every column, each pixel has received exactly the Paints of
        the one position whose target it is. */
    lemma PaintedClosure(rid: int, sc: int, sr: int, start: seq<seq<int>>, now: seq<seq<int>>)
      requires ClosurePainted(rid, sc, sr, 5, start, now)
      ensures now == PaintedBy(start, rid, sc, sr)
    {
      var r := PaintedBy(start, rid, sc, sr);
      forall x | 0 <= x < |start| ensures now[x] == r[x] {
        forall y | 0 <= y < |start[x]| ensures now[x][y] == r[x][y] {
          PaintAllShort(start[x][y], 0);
        }
      }
    }

    // ------------------------------------------------- claims of a closure

    /** Every sprite of `start` holds in `now` the slot it held in `start`
        after the claims of the positions of column `col` above `row`,
        `at` giving the table position of each sprite and `moves` the
        claims the closure makes on it. */
    ghost predicate ColumnClaimed(col: int, row: int, start: map<TileSprite, (int, int)>, now: map<TileSprite, (int, int)>,
                                  at: map<TileSprite, (int, int)>, moves: map<TileSprite, seq<int>>) {
      now.Keys == start.Keys && start.Keys <= at.Keys && start.Keys <= moves.Keys &&
      forall s :: s in start ==>
        now[s] == if InColumnBefore(at[s].0, at[s].1, col, row)
                  then ClaimAll(start[s].0, start[s].1, moves[s]) else start[s]
    }

    /** The same, after the columns left of `col`. */
    ghost predicate ClosureClaimed(col: int, start: map<TileSprite, (int, int)>, now: map<TileSprite, (int, int)>,
                                   at: map<TileSprite, (int, int)>, moves: map<TileSprite, seq<int>>) {
      now.Keys == start.Keys && start.Keys <= at.Keys && start.Keys <= moves.Keys &&
      forall s :: s in start ==>
        now[s] == if Visited(at[s].0, at[s].1, col)
                  then ClaimAll(start[s].0, start[s].1, moves[s]) else start[s]
    }

    /** The slots after the command of position (col, row), whose Move
        claims `target`: only the target's slot can change, by `cell`. */
    ghost predicate PositionClaimed(col: int, row: int, target: TileSprite?, cell: seq<int>,
                                    before: map<TileSprite, (int, int)>, after: map<TileSprite, (int, int)>) {
      after.Keys == before.Keys &&
      forall s :: s in before ==>
        after[s] == if InCommandArea(col, row) && target == s
                    then ClaimAll(before[s].0, before[s].1, cell) else before[s]
    }

    /** The target of position (col, row) sits at that position, and the
        claims made on a sprite at that position are the position's when
        it is the target and none otherwise. */
    ghost predicate Targeted(col: int, row: int, target: TileSprite?, cell: seq<int>, keys: set<TileSprite>,
                             at: map<TileSprite, (int, int)>, moves: map<TileSprite, seq<int>>) {
      keys <= at.Keys && keys <= moves.Keys &&
      forall s :: s in keys && InCommandArea(col, row) ==>
        (target == s ==> at[s] == (col, row) && moves[s] == cell) &&
        (at[s] == (col, row) && target != s ==> moves[s] == [])
    }

    /** One step of the row loop of evaluateRuleClosure, seen from one
        sprite whose position in the table is (c, r) and which the Move of
        position (col, row) claims when `hit`. */
    lemma SpriteStep(c: int, r: int, col: int, row: int, hit: bool, moves: seq<int>, cell: seq<int>,
                     v0: (int, int), before: (int, int), after: (int, int))
      requires before == if InColumnBefore(c, r, col, row) then ClaimAll(v0.0, v0.1, moves) else v0
      requires after == if InCommandArea(col, row) && hit then ClaimAll(before.0, before.1, cell) else before
      requires InCommandArea(col, row) && hit ==> (c, r) == (col, row) && moves == cell
      requires InCommandArea(col, row) && !hit && (c, r) == (col, row) ==> moves == []
      ensures after == if InColumnBefore(c, r, col, row + 1) then ClaimAll(v0.0, v0.1, moves) else v0
    {
      ClaimAllShort(v0.0, v0.1, 0);
    }

    /** Running position (col, row) extends the claims of its column. */
    lemma ClaimedStep(col: int, row: int, target: TileSprite?, cell: seq<int>,
                      start: map<TileSprite, (int, int)>, before: map<TileSprite, (int, int)>,
                      after: map<TileSprite, (int, int)>,
                      at: map<TileSprite, (int, int)>, moves: map<TileSprite, seq<int>>)
      requires ColumnClaimed(col, row, start, before, at, moves)
      requires PositionClaimed(col, row, target, cell, before, after)
      requires Targeted(col, row, target, cell, start.Keys, at, moves)
      ensures ColumnClaimed(col, row + 1, start, after, at, moves)
    {
      forall s | s in start
        ensures after[s] == if InColumnBefore(at[s].0, at[s].1, col, row + 1)
                            then ClaimAll(start[s].0, start[s].1, moves[s]) else start[s]
      {
        SpriteStep(at[s].0, at[s].1, col, row, target == s, moves[s], cell, start[s], before[s], after[s]);
      }
    }

    /** Running column `col` extends the claims of the closure to the next column. */
    lemma ClaimedColumn(col: int, start: map<TileSprite, (int, int)>, before: map<TileSprite, (int, int)>,
                        after: map<TileSprite, (int, int)>,
                        at: map<TileSprite, (int, int)>, moves: map<TileSprite, seq<int>>)
      requires ClosureClaimed(col, start, before, at, moves)
      requires ColumnClaimed(col, 5, before, after, at, moves)
      ensures ClosureClaimed(col + 1, start, after, at, moves)
    {
      forall s | s in start
        ensures after[s] == if Visited(at[s].0, at[s].1, col + 1)
                            then ClaimAll(start[s].0, start[s].1, moves[s]) else start[s]
      {
        assert before[s] == if Visited(at[s].0, at[s].1, col)
                            then ClaimAll(start[s].0, start[s].1, moves[s]) else start[s];
      }
    }

    /** Slots `start` after the claims `moves` of one closure. */
    function ClaimedBy(start: map<TileSprite, (int, int)>, moves: map<TileSprite, seq<int>>): map<TileSprite, (int, int)> {
      map s | s in start :: ClaimAll(start[s].0, start[s].1, if s in moves then moves[s] else [])
    }

    /** After every column, each sprite has received exactly the claims the
        closure makes on it. */
    lemma ClaimedClosure(start: map<TileSprite, (int, int)>, now: map<TileSprite, (int, int)>,
                         at: map<TileSprite, (int, int)>, moves: map<TileSprite, seq<int>>)
      requires ClosureClaimed(5, start, now, at, moves)
      requires forall s :: s in start && !InCommandArea(at[s].0, at[s].1) ==> moves[s] == []
      ensures now == ClaimedBy(start, moves)
    {
      var claimed := ClaimedBy(start, moves);
      forall s | s in start ensures now[s] == claimed[s] {
        ClaimAllShort(start[s].0, start[s].1, 0);
      }
    }

    /** The target of every position sits at it and receives its claims. */
    lemma TargetedHolds(rc: RuleClosure, col: int, row: int)
      requires gs != null && Anchored(rc)
      ensures Targeted(col, row, MoveTarget(rc, col, row), CellMoves(rc.rid, col, row), gs.objects,
                       Positions(rc), Moves(rc))
    {
      var target, at, moves := MoveTarget(rc, col, row), Positions(rc), Moves(rc);
      forall s | s in gs.objects && InCommandArea(col, row)
        ensures (target == s ==> at[s] == (col, row) && moves[s] == CellMoves(rc.rid, col, row)) &&
                (at[s] == (col, row) && target != s ==> moves[s] == [])
      {
        assert at[s] == (TableCol(rc.self, s), TableRow(rc.self, s));
        assert moves[s] == SpriteMoves(rc, s);
        if target == s {
          MoveTargetSpec(rc, col, row);
        }
      }
    }

    /** The executor changes no sprite position, so the table positions
        and the claims of a closure are the same in both states. */
    twostate lemma PositionsKept(rc: RuleClosure)
      requires gs != null && old(gs) == gs && Anchored(rc)
      requires forall s :: s in gs.objects ==> s.x == old(s.x) && s.y == old(s.y)
      ensures rc.self.Col() == old(rc.self.Col()) && rc.self.Row() == old(rc.self.Row())
      ensures Positions(rc) == old(Positions(rc)) && Moves(rc) == old(Moves(rc))
    {
    }

    lemma AppendAssoc<T>(a: seq<T>, b: seq<T>, c: seq<T>)
      ensures (a + b) + c == a + (b + c)
    {
    }

    // ------------------------------------------------------ the closure

    /** One step of the loop of evaluateRuleClosure: runs the command of
        position (col, row) of closure `rc` when the position is within
        distance 2 of the centre, stated on the state as values. */
    method EvaluatePosition(rc: RuleClosure, col: int, row: int)
      requires gs != null && Anchored(rc)
      modifies gs`globalCommands, gs.nextWorld, gs.objects`inst, gs.objects`arg
      ensures gs.globalCommands ==
        old(gs.globalCommands) + (if InCommandArea(col, row) then CellQueue(rc.rid, col, row) else [])
      ensures PositionPainted(rc.rid, old(rc.self.Col()), old(rc.self.Row()), col, row,
                              old(Pixels(gs.nextWorld)), Pixels(gs.nextWorld))
      ensures PositionClaimed(col, row, old(MoveTarget(rc, col, row)), CellMoves(rc.rid, col, row),
                              old(Slots(gs.objects)), Slots(gs.objects))
      ensures rc.self.Col() == old(rc.self.Col()) && rc.self.Row() == old(rc.self.Row())
      ensures Positions(rc) == old(Positions(rc)) && Moves(rc) == old(Moves(rc))
      ensures forall s :: s in gs.objects ==> s.x == old(s.x) && s.y == old(s.y)
    {
      if InCommandArea(col, row) {
        EvaluateWhenDoCommands(rc, col, row);
      }
      PositionsKept(rc);
    }

    /** Runs the commands of the positions of column `col` of closure `rc`,
        top to bottom (the inner loop of evaluateRuleClosure). */
    method EvaluateColumn(rc: RuleClosure, col: int)
      requires gs != null && Anchored(rc)
      modifies gs`globalCommands, gs.nextWorld, gs.objects`inst, gs.objects`arg
      ensures gs.globalCommands == old(gs.globalCommands) + ColumnQueue(rc.rid, col, 5)
      ensures ColumnPainted(rc.rid, old(rc.self.Col()), old(rc.self.Row()), col, 5,
                            old(Pixels(gs.nextWorld)), Pixels(gs.nextWorld))
      ensures ColumnClaimed(col, 5, old(Slots(gs.objects)), Slots(gs.objects), old(Positions(rc)), old(Moves(rc)))
      ensures rc.self.Col() == old(rc.self.Col()) && rc.self.Row() == old(rc.self.Row())
      ensures Positions(rc) == old(Positions(rc)) && Moves(rc) == old(Moves(rc))
      ensures forall s :: s in gs.objects ==> s.x == old(s.x) && s.y == old(s.y)
    {
      var sc, sr := rc.self.Col(), rc.self.Row();
      var nw := gs.nextWorld;
      ghost var pixels0, slots0 := Pixels(nw), Slots(gs.objects);
      ghost var at, moves := Positions(rc), Moves(rc);
      for row := 0 to 5
        invariant gs.globalCommands == old(gs.globalCommands) + ColumnQueue(rc.rid, col, row)
        invariant ColumnPainted(rc.rid, sc, sr, col, row, pixels0, Pixels(nw))
        invariant ColumnClaimed(col, row, slots0, Slots(gs.objects), at, moves)
        invariant rc.self.Col() == sc && rc.self.Row() == sr
        invariant Positions(rc) == at && Moves(rc) == moves
        invariant forall s :: s in gs.objects ==> s.x == old(s.x) && s.y == old(s.y)
      {
        ghost var target := MoveTarget(rc, col, row);
        TargetedHolds(rc, col, row);
        ghost var pixels, slots := Pixels(nw), Slots(gs.objects);
        var here := if InCommandArea(col, row) then CellQueue(rc.rid, col, row) else [];
        EvaluatePosition(rc, col, row);
        AppendAssoc(old(gs.globalCommands), ColumnQueue(rc.rid, col, row), here);
        PaintedStep(rc.rid, sc, sr, col, row, pixels0, pixels, Pixels(nw));
        ClaimedStep(col, row, target, CellMoves(rc.rid, col, row), slots0, slots, Slots(gs.objects), at, moves);
      }
    }

    /** Runs the commands of the thirteen positions of closure `rc`, column
        by column (evaluateRuleClosure). Each pixel receives the Paints of
        the one position whose target it is, each sprite the claims of the
        position it sits at, and the queue the entries of every position in
        visiting order. */
    method EvaluateRuleClosure(rc: RuleClosure)
      requires gs != null && Anchored(rc)
      modifies gs`globalCommands, gs.nextWorld, gs.objects`inst, gs.objects`arg
      ensures gs.globalCommands == old(gs.globalCommands) + ClosureQueue(rc.rid, 5)
      ensures ClosurePainted(rc.rid, old(rc.self.Col()), old(rc.self.Row()), 5,
                             old(Pixels(gs.nextWorld)), Pixels(gs.nextWorld))
      ensures ClosureClaimed(5, old(Slots(gs.objects)), Slots(gs.objects), old(Positions(rc)), old(Moves(rc)))
      ensures forall s :: s in gs.objects ==> s.x == old(s.x) && s.y == old(s.y)
    {
      var sc, sr := rc.self.Col(), rc.self.Row();
      var nw := gs.nextWorld;
      ghost var pixels0, slots0 := Pixels(nw), Slots(gs.objects);
      ghost var at, moves := Positions(rc), Moves(rc);
      for col := 0 to 5
        invariant gs.globalCommands == old(gs.globalCommands) + ClosureQueue(rc.rid, col)
        invariant ClosurePainted(rc.rid, sc, sr, col, pixels0, Pixels(nw))
        invariant ClosureClaimed(col, slots0, Slots(gs.objects), at, moves)
        invariant rc.self.Col() == sc && rc.self.Row() == sr
        invariant Positions(rc) == at && Moves(rc) == moves
        invariant forall s :: s in gs.objects ==> s.x == old(s.x) && s.y == old(s.y)
      {
        ghost var pixels, slots := Pixels(nw), Slots(gs.objects);
        EvaluateColumn(rc, col);
        AppendAssoc(old(gs.globalCommands), ClosureQueue(rc.rid, col), ColumnQueue(rc.rid, col, 5));
        PaintedColumn(rc.rid, sc, sr, col, pixels0, pixels, Pixels(nw));
        ClaimedColumn(col, slots0, slots, Slots(gs.objects), at, moves);
      }
    }

    // -------------------------------------------- the closures of a phase

    /** Every closure of `rcs` is anchored in the state. */
    ghost predicate AllAnchored(rcs: seq<RuleClosure>)
      requires gs != null
      reads this`gs
    {
      forall i :: 0 <= i < |rcs| ==> Anchored(rcs[i])
    }

    /** `pos` records the position (x, y) of every sprite of the state. */
    ghost predicate Placed(pos: map<TileSprite, (int, int)>)
      requires gs != null
      reads this`gs, gs.objects`x, gs.objects`y
    {
      pos.Keys == gs.objects && forall s :: s in gs.objects ==> pos[s] == (s.x, s.y)
    }

    /** The anchor of every closure of `rcs` has a recorded position. */
    predicate Within(rcs: seq<RuleClosure>, pos: map<TileSprite, (int, int)>) {
      forall k :: 0 <= k < |rcs| ==> rcs[k].self in pos
    }

    /** The cell of a sprite whose position `pos` records. */
    function ColIn(pos: map<TileSprite, (int, int)>, s: TileSprite): int
      requires s in pos
    {
      CellOf(pos[s].0)
    }

    function RowIn(pos: map<TileSprite, (int, int)>, s: TileSprite): int
      requires s in pos
    {
      CellOf(pos[s].1)
    }

    /** MoveTarget over recorded positions. */
    function TargetIn(rc: RuleClosure, col: int, row: int, pos: map<TileSprite, (int, int)>): TileSprite?
      requires rc.self in pos
    {
      if col == 2 && row == 2 then rc.self
      else FindIn(rc.witnesses, ColIn(pos, rc.self) + (col - 2), RowIn(pos, rc.self) + (row - 2), pos)
    }

    /** SpriteMoves over recorded positions. */
    function SpriteMovesIn(rc: RuleClosure, s: TileSprite, pos: map<TileSprite, (int, int)>): seq<int>
      requires rc.self in pos && s in pos
    {
      var col, row := ColIn(pos, s) - ColIn(pos, rc.self) + 2, RowIn(pos, s) - RowIn(pos, rc.self) + 2;
      if InCommandArea(col, row) && TargetIn(rc, col, row, pos) == s then CellMoves(rc.rid, col, row) else []
    }

    /** The Move claims closure `rc` makes on every sprite `pos` records. */
    function MovesIn(rc: RuleClosure, pos: map<TileSprite, (int, int)>): map<TileSprite, seq<int>>
      requires rc.self in pos
    {
      map s | s in pos :: SpriteMovesIn(rc, s, pos)
    }

    /** The rule and the anchor cell of each closure of `rcs`. */
    function AnchorsIn(rcs: seq<RuleClosure>, pos: map<TileSprite, (int, int)>): (r: seq<(int, int, int)>)
      requires Within(rcs, pos)
      ensures |r| == |rcs|
    {
      seq(|rcs|, k requires 0 <= k < |rcs| => (rcs[k].rid, ColIn(pos, rcs[k].self), RowIn(pos, rcs[k].self)))
    }

    /** The Move claims each closure of `rcs` makes on every sprite. */
    function ClaimsIn(rcs: seq<RuleClosure>, pos: map<TileSprite, (int, int)>): (r: seq<map<TileSprite, seq<int>>>)
      requires Within(rcs, pos)
      ensures |r| == |rcs|
    {
      seq(|rcs|, k requires 0 <= k < |rcs| => MovesIn(rcs[k], pos))
    }

    /** Closures anchored on sprites of the state have their anchors
        recorded by positions of the state. */
    lemma AnchoredWithin(rcs: seq<RuleClosure>, pos: map<TileSprite, (int, int)>)
      requires gs != null && AllAnchored(rcs) && Placed(pos)
      ensures Within(rcs, pos)
    {
      forall k | 0 <= k < |rcs| ensures rcs[k].self in pos {
        assert Anchored(rcs[k]);
      }
    }

    /** On positions recorded as they are, the anchor cell and the claims
        of an anchored closure are those computed on the state. */
    lemma MovesAgree(rc: RuleClosure, pos: map<TileSprite, (int, int)>)
      requires gs != null && Anchored(rc) && Placed(pos)
      ensures rc.self in pos && rc.self.Col() == ColIn(pos, rc.self) && rc.self.Row() == RowIn(pos, rc.self)
      ensures Moves(rc) == MovesIn(rc, pos)
    {
      forall col, row ensures MoveTarget(rc, col, row) == TargetIn(rc, col, row, pos) {
        FindInAgrees(rc.witnesses, rc.self.Col() + (col - 2), rc.self.Row() + (row - 2), pos);
      }
      var moves, movesIn := Moves(rc), MovesIn(rc, pos);
      forall s | s in gs.objects ensures moves[s] == movesIn[s] {
        assert moves[s] == SpriteMoves(rc, s);
        assert movesIn[s] == SpriteMovesIn(rc, s, pos);
      }
    }

    /** The Paints the first `n` closures, anchored as `anchors` says, make
        on pixel (x, y), in the order the closures run. */
    function PaintsUpTo(anchors: seq<(int, int, int)>, n: nat, x: int, y: int): seq<int>
      requires n <= |anchors|
    {
      if n == 0 then []
      else PaintsUpTo(anchors, n - 1, x, y) + PixelPaints(anchors[n - 1].0, anchors[n - 1].1, anchors[n - 1].2, x, y)
    }

    /** The Move claims of the first `n` closures on sprite `s`, in order. */
    function ClaimsUpTo(ms: seq<map<TileSprite, seq<int>>>, n: nat, s: TileSprite): seq<int>
      requires n <= |ms|
    {
      if n == 0 then []
      else ClaimsUpTo(ms, n - 1, s) + (if s in ms[n - 1] then ms[n - 1][s] else [])
    }

    /** The global queue entries of the first `n` closures, in order. */
    function QueueUpTo(rcs: seq<RuleClosure>, n: nat): seq<int>
      requires n <= |rcs|
    {
      if n == 0 then [] else QueueUpTo(rcs, n - 1) + ClosureQueue(rcs[n - 1].rid, 5)
    }

    /** A position appends nothing, or one (Game or SpritePred, argument) pair. */
    lemma CellQueuePairs(rid: int, col: int, row: int)
      ensures GlobalPairs(CellQueue(rid, col, row))
      ensures |CellQueue(rid, col, row)| == 0 || |CellQueue(rid, col, row)| == 2
    {
      var q := CellQueue(rid, col, row);
      if q != [] {
        assert q[2..] == [];
      }
    }

    /** A column of a closure appends whole pairs. */
    lemma {:induction false} ColumnQueuePairs(rid: int, col: int, row: nat)
      ensures GlobalPairs(ColumnQueue(rid, col, row))
      decreases row
    {
      if row > 0 {
        ColumnQueuePairs(rid, col, row - 1);
        CellQueuePairs(rid, col, row - 1);
        var here := if InCommandArea(col, row - 1) then CellQueue(rid, col, row - 1) else [];
        GlobalPairsAppend(ColumnQueue(rid, col, row - 1), here);
      }
    }

    /** A closure appends whole pairs. */
    lemma {:induction false} ClosureQueuePairs(rid: int, col: nat)
      ensures GlobalPairs(ClosureQueue(rid, col))
      decreases col
    {
      if col > 0 {
        ClosureQueuePairs(rid, col - 1);
        ColumnQueuePairs(rid, col - 1, 5);
        GlobalPairsAppend(ClosureQueue(rid, col - 1), ColumnQueue(rid, col - 1, 5));
      }
    }

    /** Whatever closures a round runs, the global queue they fill is made
        of (Game or SpritePred, argument) pairs. */
    lemma {:induction false} QueuePairs(rcs: seq<RuleClosure>, n: nat)
      requires n <= |rcs|
      ensures GlobalPairs(QueueUpTo(rcs, n))
    {
      if n > 0 {
        var rid := rcs[n - 1].rid;
        QueuePairs(rcs, n - 1);
        ClosureQueuePairs(rid, 5);
        GlobalPairsAppend(QueueUpTo(rcs, n - 1), ClosureQueue(rid, 5));
        assert QueueUpTo(rcs, n) == QueueUpTo(rcs, n - 1) + ClosureQueue(rid, 5);
      }
    }

    /** Grid `start` after the Paints of the first `n` closures, closure by
        closure. */
    function PaintGrid(anchors: seq<(int, int, int)>, n: nat, start: seq<seq<int>>): seq<seq<int>>
      requires n <= |anchors|
    {
      if n == 0 then start
      else PaintedBy(PaintGrid(anchors, n - 1, start), anchors[n - 1].0, anchors[n - 1].1, anchors[n - 1].2)
    }

    /** Painting closure by closure is painting, pixel by pixel, all the
        Paints of the first `n` closures in order. */
    lemma {:induction false} PaintGridEach(anchors: seq<(int, int, int)>, n: nat, start: seq<seq<int>>)
      requires n <= |anchors|
      ensures SameShape(start, PaintGrid(anchors, n, start))
      ensures forall x, y :: 0 <= x < |start| && 0 <= y < |start[x]| ==>
        PaintGrid(anchors, n, start)[x][y] == PaintAll(start[x][y], PaintsUpTo(anchors, n, x, y))
    {
      var grid := PaintGrid(anchors, n, start);
      if n == 0 {
        forall x, y | 0 <= x < |start| && 0 <= y < |start[x]| ensures grid[x][y] == PaintAll(start[x][y], []) {
          PaintAllShort(start[x][y], 0);
        }
      } else {
        PaintGridEach(anchors, n - 1, start);
        var a := anchors[n - 1];
        forall x, y | 0 <= x < |start| && 0 <= y < |start[x]|
          ensures grid[x][y] == PaintAll(start[x][y], PaintsUpTo(anchors, n, x, y))
        {
          PaintAllAppend(start[x][y], PaintsUpTo(anchors, n - 1, x, y), PixelPaints(a.0, a.1, a.2, x, y));
        }
      }
    }

    /** Slots `start` after the claims of the first `n` closures, closure
        by closure. */
    function ClaimSlots(ms: seq<map<TileSprite, seq<int>>>, n: nat,
                        start: map<TileSprite, (int, int)>): map<TileSprite, (int, int)>
      requires n <= |ms|
    {
      if n == 0 then start else ClaimedBy(ClaimSlots(ms, n - 1, start), ms[n - 1])
    }

    /** Claiming closure by closure is claiming, sprite by sprite, all the
        claims of the first `n` closures in order. */
    lemma {:induction false} ClaimSlotsEach(ms: seq<map<TileSprite, seq<int>>>, n: nat,
                                            start: map<TileSprite, (int, int)>)
      requires n <= |ms|
      ensures ClaimSlots(ms, n, start).Keys == start.Keys
      ensures forall s :: s in start ==>
        ClaimSlots(ms, n, start)[s] == ClaimAll(start[s].0, start[s].1, ClaimsUpTo(ms, n, s))
    {
      var slots := ClaimSlots(ms, n, start);
      if n == 0 {
        forall s | s in start ensures slots[s] == ClaimAll(start[s].0, start[s].1, []) {
          ClaimAllShort(start[s].0, start[s].1, 0);
        }
      } else {
        ClaimSlotsEach(ms, n - 1, start);
        var before := ClaimSlots(ms, n - 1, start);
        forall s | s in start ensures slots[s] == ClaimAll(start[s].0, start[s].1, ClaimsUpTo(ms, n, s)) {
          ClaimAllAppend(start[s].0, start[s].1, ClaimsUpTo(ms, n - 1, s),
                         if s in ms[n - 1] then ms[n - 1][s] else []);
        }
      }
    }

    /** A sprite outside the command positions of a closure receives no claim from it. */
    lemma MovesOutside(rc: RuleClosure)
      requires gs != null
      ensures forall s :: s in gs.objects && !InCommandArea(Positions(rc)[s].0, Positions(rc)[s].1) ==>
        Moves(rc)[s] == []
    {
    }

    /** Runs closure `rc` (evaluateRuleClosure), stated on the recorded
        positions `pos`: the queue takes the closure's entries, each pixel
        the Paints of the position whose target it is, and each sprite the
        claims the closure makes on it. No sprite moves. */
    method RunClosure(rc: RuleClosure, ghost pos: map<TileSprite, (int, int)>)
      requires gs != null && Anchored(rc) && Placed(pos)
      modifies gs`globalCommands, gs.nextWorld, gs.objects`inst, gs.objects`arg
      ensures rc.self in pos && Placed(pos)
      ensures gs.globalCommands == old(gs.globalCommands) + ClosureQueue(rc.rid, 5)
      ensures Pixels(gs.nextWorld) == PaintedBy(old(Pixels(gs.nextWorld)), rc.rid, ColIn(pos, rc.self), RowIn(pos, rc.self))
      ensures Slots(gs.objects) == ClaimedBy(old(Slots(gs.objects)), MovesIn(rc, pos))
    {
      MovesAgree(rc, pos);
      MovesOutside(rc);
      var nw := gs.nextWorld;
      ghost var pixels0, slots0, at, moves := Pixels(nw), Slots(gs.objects), Positions(rc), Moves(rc);
      EvaluateRuleClosure(rc);
      PaintedClosure(rc.rid, ColIn(pos, rc.self), RowIn(pos, rc.self), pixels0, Pixels(nw));
      ClaimedClosure(slots0, Slots(gs.objects), at, moves);
    }

    /** Runs closure i of `rcs` (one call of the forEach of round): what
        the first i closures made extends to the first i + 1. No sprite
        moves, so `pos` stays the record of the positions. */
    method EvaluateNextClosure(rcs: seq<RuleClosure>, i: nat, ghost queue0: seq<int>,
                               ghost pixels0: seq<seq<int>>, ghost slots0: map<TileSprite, (int, int)>,
                               ghost pos: map<TileSprite, (int, int)>)
      requires gs != null && i < |rcs| && AllAnchored(rcs) && Placed(pos) && Within(rcs, pos)
      requires gs.globalCommands == queue0 + QueueUpTo(rcs, i)
      requires Pixels(gs.nextWorld) == PaintGrid(AnchorsIn(rcs, pos), i, pixels0)
      requires Slots(gs.objects) == ClaimSlots(ClaimsIn(rcs, pos), i, slots0)
      modifies gs`globalCommands, gs.nextWorld, gs.objects`inst, gs.objects`arg
      ensures gs.globalCommands == queue0 + QueueUpTo(rcs, i + 1)
      ensures Pixels(gs.nextWorld) == PaintGrid(AnchorsIn(rcs, pos), i + 1, pixels0)
      ensures Slots(gs.objects) == ClaimSlots(ClaimsIn(rcs, pos), i + 1, slots0)
      ensures Placed(pos)
    {
      assert Anchored(rcs[i]);
      RunClosure(rcs[i], pos);
      AppendAssoc(queue0, QueueUpTo(rcs, i), ClosureQueue(rcs[i].rid, 5));
    }

    /** Runs every collected closure in collection order (the forEach of
        round), the closures being `closures` and `pos` recording where the
        sprites are. Each pixel ends up with the Paints of all closures run
        on it, each sprite with all their claims, and the queue with all
        their entries, each in closure order. */
    method EvaluateRuleClosures(ghost closures: seq<RuleClosure>, ghost pos: map<TileSprite, (int, int)>)
      requires gs != null && ruleClosures == closures && AllAnchored(closures) && Placed(pos) && Within(closures, pos)
      modifies gs`globalCommands, gs.nextWorld, gs.objects`inst, gs.objects`arg
      ensures gs.globalCommands == old(gs.globalCommands) + QueueUpTo(closures, |closures|)
      ensures Pixels(gs.nextWorld) == PaintGrid(AnchorsIn(closures, pos), |closures|, old(Pixels(gs.nextWorld)))
      ensures Slots(gs.objects) == ClaimSlots(ClaimsIn(closures, pos), |closures|, old(Slots(gs.objects)))
      ensures Placed(pos)
    {
      var rcs := ruleClosures;
      ghost var queue0, pixels0, slots0 := gs.globalCommands, Pixels(gs.nextWorld), Slots(gs.objects);
      for i := 0 to |rcs|
        invariant gs.globalCommands == queue0 + QueueUpTo(rcs, i)
        invariant Pixels(gs.nextWorld) == PaintGrid(AnchorsIn(rcs, pos), i, pixels0)
        invariant Slots(gs.objects) == ClaimSlots(ClaimsIn(rcs, pos), i, slots0)
        invariant Placed(pos)
      {
        EvaluateNextClosure(rcs, i, queue0, pixels0, slots0, pos);
      }
    }

    // ---------------------------------------------------- the two phases

    /** Every closure collected for a sprite of the state is anchored on
        sprites of the state: evaluateRule only captures sprites of the
        state. */
    lemma {:induction false} ClosuresOfRulesAnchored(phase: Phase, pad: int, ts: TileSprite, n: nat)
      requires n <= |rules| && gs != null && gs.Shaped() && ts in gs.objects
      ensures AllAnchored(ClosuresOfRules(phase, pad, ts, n))
    {
      if n > 0 {
        ClosuresOfRulesAnchored(phase, pad, ts, n - 1);
        RuleWitnessesShape(ts, rules[n - 1]);
        var rcs := ClosuresOfRules(phase, pad, ts, n);
        var before := ClosuresOfRules(phase, pad, ts, n - 1);
        forall k | 0 <= k < |rcs| ensures Anchored(rcs[k]) {
          if k < |before| {
            assert rcs[k] == before[k];
          } else {
            assert rcs[k] == ClosureFor(ts, rules[n - 1]);
          }
        }
      }
    }

    /** Every closure the first `n` sprites collect in a phase is anchored
        on sprites of the state. */
    lemma {:induction false} CollectedAnchored(phase: Phase, n: nat)
      requires gs != null && gs.Shaped() && n <= |gs.AllSprites()|
      ensures AllAnchored(Collected(phase, n))
    {
      if n > 0 {
        CollectedAnchored(phase, n - 1);
        gs.AllSpritesInObjects();
        var ts := gs.AllSprites()[n - 1];
        ClosuresOfRulesAnchored(phase, dpad, ts, |rules|);
        var rcs := Collected(phase, n);
        var before := Collected(phase, n - 1);
        var last := if Eligible(phase, ts.dir, ts.inst) then ClosuresOfRules(phase, dpad, ts, |rules|) else [];
        assert rcs == before + last;
        forall k | 0 <= k < |rcs| ensures Anchored(rcs[k]) {
          if k < |before| {
            assert rcs[k] == before[k];
          } else {
            assert rcs[k] == last[k - |before|];
          }
        }
      }
    }

    /** The collection half of a phase (the closure list emptied, then
        applyRules, ApplyRules stating which closures it collects): every
        closure is anchored on sprites of the state. */
    method CollectPhase(phase: Phase) returns (ghost closures: seq<RuleClosure>)
      requires gs != null && gs.Shaped()
      modifies this`ruleClosures
      ensures ruleClosures == closures && AllAnchored(closures)
      ensures closures == Collected(phase, |gs.AllSprites()|)
      ensures closures == PhaseClosures(phase, dpad, gs.InstsOf(Slots(gs.objects)), |gs.AllSprites()|)
    {
      ruleClosures := [];
      closures := Collected(phase, |gs.AllSprites()|);
      CollectedAnchored(phase, |gs.AllSprites()|);
      CollectedIsPhaseClosures(phase, |gs.AllSprites()|);
      ApplyRules(phase);
    }

    /** One phase of round: collects the closures of the phase and runs
        them in order. Each pixel, slot and the queue then hold what those
        closures, anchored and claiming as the positions `pos` say, make of
        them. */
    method RunPhase(phase: Phase, ghost pos: map<TileSprite, (int, int)>) returns (ghost closures: seq<RuleClosure>)
      requires gs != null && gs.Shaped() && Placed(pos)
      modifies this`ruleClosures, gs`globalCommands, gs.nextWorld, gs.objects`inst, gs.objects`arg
      ensures closures == old(PhaseClosures(phase, dpad, gs.InstsOf(Slots(gs.objects)), |gs.AllSprites()|))
      ensures AllAnchored(closures) && Within(closures, pos) && Placed(pos)
      ensures gs.globalCommands == old(gs.globalCommands) + QueueUpTo(closures, |closures|)
      ensures GlobalPairs(old(gs.globalCommands)) ==> GlobalPairs(gs.globalCommands)
      ensures Pixels(gs.nextWorld) == PaintGrid(AnchorsIn(closures, pos), |closures|, old(Pixels(gs.nextWorld)))
      ensures Slots(gs.objects) == ClaimSlots(ClaimsIn(closures, pos), |closures|, old(Slots(gs.objects)))
    {
      ghost var collected := PhaseClosures(phase, dpad, gs.InstsOf(Slots(gs.objects)), |gs.AllSprites()|);
      ghost var queue := gs.globalCommands;
      closures := CollectPhase(phase);
      assert closures == collected;
      AnchoredWithin(closures, pos);
      EvaluateRuleClosures(closures, pos);
      QueuePairs(closures, |closures|);
      if GlobalPairs(queue) {
        GlobalPairsAppend(queue, QueueUpTo(closures, |closures|));
      }
    }

    // ------------------------------------------------------- round start

    /** Snaps every sprite to the centre of its cell. A sprite listed twice
        is snapped twice, which is snapping it once. */
    method CenterSprites()
      requires gs != null && gs.Shaped() && gs.Listed()
      modifies gs.objects`x, gs.objects`y
      ensures forall s :: s in gs.objects ==> s.x == Centered(old(s.x)) && s.y == Centered(old(s.y))
    {
      var all := gs.AllSprites();
      gs.AllSpritesInObjects();
      for i := 0 to |all|
        invariant forall s :: s in gs.objects ==>
          if s in all[..i] then s.x == Centered(old(s.x)) && s.y == Centered(old(s.y))
          else s.x == old(s.x) && s.y == old(s.y)
      {
        var ts := all[i];
        CenteredIdempotent(old(ts.x));
        CenteredIdempotent(old(ts.y));
        ts.x := Centered(ts.x);
        ts.y := Centered(ts.y);
        assert all[..i + 1] == all[..i] + [ts];
      }
      assert all[..|all|] == all;
    }

    /** Fills the paint buffer with the unset marker. */
    method FillPaint()
      requires gs != null
      modifies gs.nextWorld
      ensures forall x, y :: 0 <= x < gs.nextWorld.Length0 && 0 <= y < gs.nextWorld.Length1 ==>
        gs.nextWorld[x, y] == Unset
    {
      var nw := gs.nextWorld;
      for x := 0 to nw.Length0
        invariant forall a, b :: 0 <= a < x && 0 <= b < nw.Length1 ==> nw[a, b] == Unset
      {
        for y := 0 to nw.Length1
          invariant forall a, b :: 0 <= a < x && 0 <= b < nw.Length1 ==> nw[a, b] == Unset
          invariant forall b :: 0 <= b < y ==> nw[x, b] == Unset
        {
          nw[x, y] := Unset;
        }
      }
    }

    /** Clears the instruction and the collision slot of every sprite. */
    method ResetInstructions()
      requires gs != null && gs.Shaped() && gs.Listed()
      modifies gs.objects`inst, gs.objects`collide
      ensures forall s :: s in gs.objects ==> s.inst == NoneId && s.collide == NoneId
    {
      var all := gs.AllSprites();
      gs.AllSpritesInObjects();
      for i := 0 to |all|
        invariant forall s :: s in gs.objects && s in all[..i] ==> s.inst == NoneId && s.collide == NoneId
      {
        all[i].inst, all[i].collide := NoneId, NoneId;
        assert all[..i + 1] == all[..i] + [all[i]];
      }
      assert all[..|all|] == all;
    }

    // ------------------------------------------------------- world update

    /** Applies every sprite's instruction (the update of each sprite). */
    method UpdateSprites()
      requires gs != null && gs.Shaped() && gs.Listed()
      modifies gs.objects`dir, gs.objects`vx, gs.objects`vy
      ensures forall s :: s in gs.objects ==> s.Updated()
    {
      var all := gs.AllSprites();
      gs.AllSpritesInObjects();
      for i := 0 to |all|
        invariant forall s :: s in gs.objects && s in all[..i] ==> s.Updated()
      {
        all[i].Update();
        assert all[..i + 1] == all[..i] + [all[i]];
      }
      assert all[..|all|] == all;
    }

    /** Writes every painted pixel of the paint buffer to the tile map;
        the tile of an unset pixel is left as it is. */
    method CommitTiles()
      requires gs != null && gs.Shaped()
      modifies gs.tiles
      ensures forall x, y :: 0 <= x < gs.tiles.Length0 && 0 <= y < gs.tiles.Length1 ==>
        gs.tiles[x, y] == Committed(gs.nextWorld[x, y], old(gs.tiles[x, y]))
    {
      var nw, tm := gs.nextWorld, gs.tiles;
      for x := 0 to nw.Length0
        invariant forall a, b :: 0 <= a < tm.Length0 && 0 <= b < tm.Length1 ==>
          tm[a, b] == if a < x then Committed(nw[a, b], old(tm[a, b])) else old(tm[a, b])
      {
        for y := 0 to nw.Length1
          invariant forall a, b :: 0 <= a < tm.Length0 && 0 <= b < tm.Length1 ==>
            tm[a, b] == if a < x || (a == x && b < y) then Committed(nw[a, b], old(tm[a, b])) else old(tm[a, b])
        {
          var pixel := nw[x, y];
          if pixel != Unset {
            tm[x, y] := pixel;
          }
        }
      }
    }

    /** Runs the global queue (the loop of updateWorld): the argument of
        entry i is read from the argument queue, Game ends the game on a
        win or a loss, and a SpritePred whose kind has sprites skips the
        entry after it. */
    method DrainQueue()
      requires gs != null
      modifies gs`gameOver
      ensures gs.gameOver == old(gs.gameOver) + DrainFrom(gs.globalCommands, gs.globalArgs, gs.SpriteCounts(), 0)
    {
      var cmds, args, counts := gs.globalCommands, gs.globalArgs, gs.SpriteCounts();
      var i := 0;
      while i < |cmds|
        invariant 0 <= i <= |cmds| + 1
        invariant old(gs.gameOver) + DrainFrom(cmds, args, counts, 0) == gs.gameOver + DrainFrom(cmds, args, counts, i)
        decreases |cmds| - i
      {
        var arg := ArgAt(args, i);
        if cmds[i] == CmdGame {
          if arg == Some(GameWin) || arg == Some(GameLose) {
            AppendAssoc(gs.gameOver, [arg == Some(GameWin)], DrainFrom(cmds, args, counts, i + 1));
            gs.gameOver := gs.gameOver + [arg == Some(GameWin)];
          }
        } else if cmds[i] == CmdSpritePred {
          if arg.Some? && 0 <= arg.value < |gs.sprites| && |gs.sprites[arg.value]| > 0 {
            i := i + 1;
          }
        }
        i := i + 1;
      }
    }

    /** updateWorld: every sprite takes its instruction, every painted
        pixel reaches the tile map, the queue is run and both queues are
        emptied. */
    method UpdateWorld()
      requires gs != null && gs.Shaped() && gs.Listed()
      modifies gs.objects`dir, gs.objects`vx, gs.objects`vy, gs.tiles, gs`gameOver,
               gs`globalCommands, gs`globalArgs
      ensures forall s :: s in gs.objects ==> s.Updated()
      ensures forall x, y :: 0 <= x < gs.tiles.Length0 && 0 <= y < gs.tiles.Length1 ==>
        gs.tiles[x, y] == Committed(gs.nextWorld[x, y], old(gs.tiles[x, y]))
      ensures gs.gameOver ==
        old(gs.gameOver) + DrainFrom(old(gs.globalCommands), old(gs.globalArgs), gs.SpriteCounts(), 0)
      ensures gs.globalCommands == [] && gs.globalArgs == []
    {
      UpdateSprites();
      CommitTiles();
      DrainQueue();
      gs.globalCommands := [];
      gs.globalArgs := [];
    }

    // -------------------------------------------------------------- round

    /** The Paints the closures of a round make on pixel (x, y): those of
        the Moving phase, then those of the Resting phase. */
    function RoundPaints(moving: seq<RuleClosure>, resting: seq<RuleClosure>, pos: map<TileSprite, (int, int)>,
                         x: int, y: int): seq<int>
      requires Within(moving, pos) && Within(resting, pos)
    {
      PaintsUpTo(AnchorsIn(moving, pos), |moving|, x, y) + PaintsUpTo(AnchorsIn(resting, pos), |resting|, x, y)
    }

    /** The Move claims the closures of a round make on sprite `s`: those
        of the Moving phase, then those of the Resting phase. */
    function RoundClaims(moving: seq<RuleClosure>, resting: seq<RuleClosure>, pos: map<TileSprite, (int, int)>,
                         s: TileSprite): seq<int>
      requires Within(moving, pos) && Within(resting, pos)
    {
      ClaimsUpTo(ClaimsIn(moving, pos), |moving|, s) + ClaimsUpTo(ClaimsIn(resting, pos), |resting|, s)
    }

    /** A pixel unset when the round starts ends the two phases with the
        first value painted on it, over the Paints of the Moving phase
        followed by those of the Resting phase. */
    lemma RoundPixels(a1: seq<(int, int, int)>, n1: nat, a2: seq<(int, int, int)>, n2: nat,
                      start: seq<seq<int>>, final: seq<seq<int>>)
      requires n1 <= |a1| && n2 <= |a2|
      requires final == PaintGrid(a2, n2, PaintGrid(a1, n1, start))
      ensures |final| == |start| && forall x :: 0 <= x < |final| ==> |final[x]| == |start[x]|
      ensures forall x, y :: 0 <= x < |start| && 0 <= y < |start[x]| && start[x][y] == Unset ==>
        final[x][y] == FirstPainted(PaintsUpTo(a1, n1, x, y) + PaintsUpTo(a2, n2, x, y))
    {
      PaintGridEach(a1, n1, start);
      PaintGridEach(a2, n2, PaintGrid(a1, n1, start));
      forall x, y | 0 <= x < |start| && 0 <= y < |start[x]| && start[x][y] == Unset
        ensures final[x][y] == FirstPainted(PaintsUpTo(a1, n1, x, y) + PaintsUpTo(a2, n2, x, y))
      {
        PaintAllAppend(Unset, PaintsUpTo(a1, n1, x, y), PaintsUpTo(a2, n2, x, y));
        FirstPaintWins(PaintsUpTo(a1, n1, x, y) + PaintsUpTo(a2, n2, x, y));
      }
    }

    /** A sprite whose slot is free when the round starts ends the two
        phases with the claims of the Moving phase followed by those of the
        Resting phase, and holds either no instruction or a Move. */
    lemma RoundSlots(m1: seq<map<TileSprite, seq<int>>>, n1: nat, m2: seq<map<TileSprite, seq<int>>>, n2: nat,
                     start: map<TileSprite, (int, int)>, final: map<TileSprite, (int, int)>)
      requires n1 <= |m1| && n2 <= |m2|
      requires final == ClaimSlots(m2, n2, ClaimSlots(m1, n1, start))
      ensures final.Keys == start.Keys
      ensures forall s :: s in start && start[s].0 == NoneId ==>
        final[s] == ClaimAll(NoneId, start[s].1, ClaimsUpTo(m1, n1, s) + ClaimsUpTo(m2, n2, s)) &&
        (final[s].0 == NoneId || final[s].0 == CmdMove)
    {
      ClaimSlotsEach(m1, n1, start);
      ClaimSlotsEach(m2, n2, ClaimSlots(m1, n1, start));
      forall s | s in start && start[s].0 == NoneId
        ensures final[s] == ClaimAll(NoneId, start[s].1, ClaimsUpTo(m1, n1, s) + ClaimsUpTo(m2, n2, s))
        ensures final[s].0 == NoneId || final[s].0 == CmdMove
      {
        var c1, c2 := ClaimsUpTo(m1, n1, s), ClaimsUpTo(m2, n2, s);
        ClaimAllAppend(NoneId, start[s].1, c1, c2);
        ClaimsKeepMoveOrFree(NoneId, start[s].1, c1 + c2);
      }
    }

    /** The two phases of round: the closures of the Moving phase run,
        then those of the Resting phase, collected on the state the Moving
        phase left. */
    method RunPhases(ghost pos: map<TileSprite, (int, int)>)
      returns (ghost moving: seq<RuleClosure>, ghost resting: seq<RuleClosure>)
      requires gs != null && gs.Shaped() && Placed(pos)
      modifies this`ruleClosures, gs`globalCommands, gs.nextWorld, gs.objects`inst, gs.objects`arg
      ensures Within(moving, pos) && Within(resting, pos) && Placed(pos)
      ensures moving == old(PhaseClosures(Moving, dpad, gs.InstsOf(Slots(gs.objects)), |gs.AllSprites()|))
      ensures resting == old(PhaseClosures(Resting, dpad,
        gs.InstsOf(ClaimSlots(ClaimsIn(moving, pos), |moving|, Slots(gs.objects))), |gs.AllSprites()|))
      ensures Pixels(gs.nextWorld) ==
        PaintGrid(AnchorsIn(resting, pos), |resting|, PaintGrid(AnchorsIn(moving, pos), |moving|, old(Pixels(gs.nextWorld))))
      ensures Slots(gs.objects) ==
        ClaimSlots(ClaimsIn(resting, pos), |resting|, ClaimSlots(ClaimsIn(moving, pos), |moving|, old(Slots(gs.objects))))
    {
      ghost var start := Slots(gs.objects);
      moving := RunPhase(Phase.Moving, pos);
      ghost var insts := gs.InstsOf(ClaimSlots(ClaimsIn(moving, pos), |moving|, start));
      ghost var collected := PhaseClosures(Resting, dpad, insts, |gs.AllSprites()|);
      assert collected == old(PhaseClosures(Resting, dpad, insts, |gs.AllSprites()|));
      resting := RunPhase(Phase.Resting, pos);
    }

    /** The start of round: the d-pad is recorded, every sprite is snapped
        to the centre of its cell, the paint buffer is cleared, and every
        instruction and collision slot is cleared. None of this changes
        the closures a phase selects, which read only cells, directions
        and tiles. */
    method StartRound(currDir: int)
      requires gs != null && gs.Shaped() && gs.Listed()
      modifies this`dpad, gs.objects`x, gs.objects`y, gs.nextWorld, gs.objects`inst, gs.objects`collide
      ensures dpad == currDir
      ensures forall s :: s in gs.objects ==> s.x == Centered(old(s.x)) && s.y == Centered(old(s.y))
      ensures forall s :: s in gs.objects ==> s.inst == NoneId && s.collide == NoneId
      ensures Slots(gs.objects) == old(ClearedSlots(gs.objects))
      ensures forall phase, pad, insts :: |insts| == |gs.AllSprites()| ==>
        old(PhaseClosures(phase, pad, insts, |gs.AllSprites()|)) == PhaseClosures(phase, pad, insts, |gs.AllSprites()|)
      ensures forall x, y :: 0 <= x < gs.nextWorld.Length0 && 0 <= y < gs.nextWorld.Length1 ==>
        gs.nextWorld[x, y] == Unset
    {
      dpad := currDir;
      CenterSprites();
      FillPaint();
      ResetInstructions();
      forall s | s in gs.objects ensures old(s.Col()) == s.Col() && old(s.Row()) == s.Row() {
        assert s.x == Centered(old(s.x)) && s.y == Centered(old(s.y));
      }
      PhaseClosuresKept();
    }

    /** The two phases run from a cleared paint buffer and cleared
        instruction slots: every pixel ends with the first value painted on
        it by the round's closures, and every sprite with the instruction
        their claims leave it, which is a Move or none. */
    method PhasesFromCleared(ghost pos: map<TileSprite, (int, int)>)
      returns (ghost moving: seq<RuleClosure>, ghost resting: seq<RuleClosure>)
      requires gs != null && gs.Shaped() && Placed(pos)
      requires forall x, y :: 0 <= x < gs.nextWorld.Length0 && 0 <= y < gs.nextWorld.Length1 ==>
        gs.nextWorld[x, y] == Unset
      requires forall s :: s in gs.objects ==> s.inst == NoneId
      modifies this`ruleClosures, gs`globalCommands, gs.nextWorld, gs.objects`inst, gs.objects`arg
      ensures Within(moving, pos) && Within(resting, pos) && Placed(pos)
      ensures moving == old(PhaseClosures(Moving, dpad, gs.InstsOf(map[]), |gs.AllSprites()|))
      ensures var insts := gs.InstsOf(ClaimSlots(ClaimsIn(moving, pos), |moving|, old(Slots(gs.objects))));
        resting == old(PhaseClosures(Resting, dpad, insts, |gs.AllSprites()|))
      ensures forall s :: s in gs.objects ==>
        (s.inst, s.arg) == ClaimAll(NoneId, old(s.arg), RoundClaims(moving, resting, pos, s)) &&
        (s.inst == NoneId || s.inst == CmdMove)
      ensures forall x, y :: 0 <= x < gs.nextWorld.Length0 && 0 <= y < gs.nextWorld.Length1 ==>
        gs.nextWorld[x, y] == FirstPainted(RoundPaints(moving, resting, pos, x, y))
    {
      ghost var pixels0, slots0 := Pixels(gs.nextWorld), Slots(gs.objects);
      gs.AllSpritesInObjects();
      assert gs.InstsOf(slots0) == gs.InstsOf(map[]);
      moving, resting := RunPhases(pos);
      ghost var pixels, slots := Pixels(gs.nextWorld), Slots(gs.objects);
      ghost var a1, m1, a2, m2 := AnchorsIn(moving, pos), ClaimsIn(moving, pos), AnchorsIn(resting, pos), ClaimsIn(resting, pos);
      RoundPixels(a1, |moving|, a2, |resting|, pixels0, pixels);
      RoundSlots(m1, |moving|, m2, |resting|, slots0, slots);
      forall s | s in gs.objects
        ensures (s.inst, s.arg) == ClaimAll(NoneId, old(s.arg), RoundClaims(moving, resting, pos, s))
        ensures s.inst == NoneId || s.inst == CmdMove
      {
        assert slots0[s] == (NoneId, old(s.arg)) && slots[s] == (s.inst, s.arg);
      }
    }

    /** Round up to the world update: the d-pad is recorded, the round
        starts, then the two phases run. Every sprite ends centred in the
        cell it was in, where `pos` records it, with its collision slot
        cleared and the instruction the round's claims leave it; every
        pixel of the paint buffer holds the first value painted on it. */
    method StartAndRunPhases(currDir: int)
      returns (ghost moving: seq<RuleClosure>, ghost resting: seq<RuleClosure>, ghost pos: map<TileSprite, (int, int)>)
      requires gs != null && gs.Shaped() && gs.Listed()
      modifies this`dpad, this`ruleClosures, gs`globalCommands, gs.nextWorld, gs.objects`x, gs.objects`y,
               gs.objects`inst, gs.objects`arg, gs.objects`collide
      ensures dpad == currDir && Placed(pos) && Within(moving, pos) && Within(resting, pos)
      ensures moving == old(PhaseClosures(Moving, currDir, gs.InstsOf(map[]), |gs.AllSprites()|))
      ensures var insts := gs.InstsOf(ClaimSlots(ClaimsIn(moving, pos), |moving|,
          old(ClearedSlots(gs.objects))));
        resting == old(PhaseClosures(Resting, currDir, insts, |gs.AllSprites()|))
      ensures gs.Shaped() && gs.Listed() && gs.globalArgs == old(gs.globalArgs)
      ensures forall s :: s in gs.objects ==>
        s.x == Centered(old(s.x)) && s.y == Centered(old(s.y)) && s.collide == NoneId
      ensures forall s :: s in gs.objects ==>
        (s.inst, s.arg) == ClaimAll(NoneId, old(s.arg), RoundClaims(moving, resting, pos, s)) &&
        (s.inst == NoneId || s.inst == CmdMove)
      ensures forall x, y :: 0 <= x < gs.nextWorld.Length0 && 0 <= y < gs.nextWorld.Length1 ==>
        gs.nextWorld[x, y] == FirstPainted(RoundPaints(moving, resting, pos, x, y))
    {
      StartRound(currDir);
      pos := map s | s in gs.objects :: (s.x, s.y);
      moving, resting := PhasesFromCleared(pos);
    }

    /** The end of round: the closure list is emptied and the world is
        updated. Every sprite takes its instruction, every painted pixel
        reaches the tile map, the queue is run without a game.over call,
        and both queues end empty. */
    method FinishRound()
      requires gs != null && gs.Valid()
      modifies this`ruleClosures, gs`globalCommands, gs`globalArgs, gs`gameOver, gs.tiles,
               gs.objects`dir, gs.objects`vx, gs.objects`vy
      ensures gs.Valid() && ruleClosures == []
      ensures gs.globalCommands == [] && gs.gameOver == old(gs.gameOver)
      ensures forall s :: s in gs.objects ==> s.Updated()
      ensures forall s :: s in gs.objects ==>
        s.x == old(s.x) && s.y == old(s.y) && s.collide == old(s.collide) && s.inst == old(s.inst) && s.arg == old(s.arg)
      ensures forall x, y :: 0 <= x < gs.tiles.Length0 && 0 <= y < gs.tiles.Length1 ==>
        gs.tiles[x, y] == Committed(gs.nextWorld[x, y], old(gs.tiles[x, y]))
    {
      ruleClosures := [];
      ghost var queue := gs.globalCommands;
      UpdateWorld();
      DrainWithoutArgsIsInert(queue, gs.SpriteCounts(), 0);
    }

    /** Round on a present state. */
    method PlayRound(currDir: int)
      returns (ghost moving: seq<RuleClosure>, ghost resting: seq<RuleClosure>, ghost pos: map<TileSprite, (int, int)>)
      requires gs != null && gs.Valid()
      modifies this`dpad, this`ruleClosures, gs`globalCommands, gs`globalArgs, gs`gameOver, gs.nextWorld, gs.tiles
      modifies gs.objects`x, gs.objects`y, gs.objects`inst, gs.objects`arg, gs.objects`collide,
               gs.objects`dir, gs.objects`vx, gs.objects`vy
      ensures gs.Valid() && dpad == currDir && ruleClosures == []
      ensures gs.globalCommands == [] && gs.gameOver == old(gs.gameOver)
      ensures Placed(pos) && Within(moving, pos) && Within(resting, pos)
      ensures moving == old(PhaseClosures(Moving, currDir, gs.InstsOf(map[]), |gs.AllSprites()|))
      ensures var insts := gs.InstsOf(ClaimSlots(ClaimsIn(moving, pos), |moving|,
          old(ClearedSlots(gs.objects))));
        resting == old(PhaseClosures(Resting, currDir, insts, |gs.AllSprites()|))
      ensures forall s :: s in gs.objects ==>
        s.x == Centered(old(s.x)) && s.y == Centered(old(s.y)) && s.collide == NoneId && s.Updated()
      ensures forall s :: s in gs.objects ==>
        (s.inst, s.arg) == ClaimAll(NoneId, old(s.arg), RoundClaims(moving, resting, pos, s)) &&
        (s.inst == NoneId || s.inst == CmdMove)
      ensures forall x, y :: 0 <= x < gs.tiles.Length0 && 0 <= y < gs.tiles.Length1 ==>
        gs.tiles[x, y] == Committed(FirstPainted(RoundPaints(moving, resting, pos, x, y)), old(gs.tiles[x, y]))
    {
      moving, resting, pos := StartAndRunPhases(currDir);
      FinishRound();
    }

    /** One round of the VM with d-pad direction `currDir`. Without a state
        nothing happens. Otherwise every sprite ends centred in the cell it
        was in, with its collision slot cleared and the instruction the two
        phases left it, which it then applies; every tile takes the first
        value painted on it in the round, if any; the queue is run, which
        makes no game.over call since the argument queue is always empty,
        and both queues end empty. `moving` and `resting` are the closures
        the two phases ran and `pos` records where the sprites are, which
        decides where each closure paints and which sprites it claims. */
    method Round(currDir: int)
      returns (ghost moving: seq<RuleClosure>, ghost resting: seq<RuleClosure>, ghost pos: map<TileSprite, (int, int)>)
      requires Valid()
      modifies this`dpad, this`ruleClosures
      modifies if gs == null then {} else {gs}
      modifies if gs == null then {} else {gs.nextWorld, gs.tiles}
      modifies if gs == null then {} else gs.objects
      ensures Valid()
      ensures gs == null ==> dpad == old(dpad) && ruleClosures == old(ruleClosures)
      ensures gs != null ==> dpad == currDir && ruleClosures == []
      ensures gs != null ==> gs.globalCommands == [] && gs.gameOver == old(gs.gameOver)
      ensures gs != null ==> Placed(pos) && Within(moving, pos) && Within(resting, pos)
      ensures gs != null ==> moving == old(PhaseClosures(Moving, currDir, gs.InstsOf(map[]), |gs.AllSprites()|))
      ensures gs != null ==> var insts := gs.InstsOf(ClaimSlots(ClaimsIn(moving, pos), |moving|,
          old(ClearedSlots(gs.objects))));
        resting == old(PhaseClosures(Resting, currDir, insts, |gs.AllSprites()|))
      ensures gs != null ==> forall s :: s in gs.objects ==>
        s.x == Centered(old(s.x)) && s.y == Centered(old(s.y)) && s.collide == NoneId && s.Updated()
      ensures gs != null ==> forall s :: s in gs.objects ==>
        (s.inst, s.arg) == ClaimAll(NoneId, old(s.arg), RoundClaims(moving, resting, pos, s)) &&
        (s.inst == NoneId || s.inst == CmdMove)
      ensures gs != null ==> forall x, y :: 0 <= x < gs.tiles.Length0 && 0 <= y < gs.tiles.Length1 ==>
        gs.tiles[x, y] == Committed(FirstPainted(RoundPaints(moving, resting, pos, x, y)), old(gs.tiles[x, y]))
    {
      if gs == null {
        moving, resting, pos := [], [], map[];
        return;
      }
      moving, resting, pos := PlayRound(currDir);
    }
  }
}
