/** The value-level rules of the command executor and of the end-of-round
    queue drain: how one Paint changes a paint-buffer pixel, how one Move
    claim changes a sprite's instruction slot, what the global queue holds,
    and which game.over calls draining it makes. */
module Effects {
  import opened Codes

  // ---------------------------------------------------------------- Paint

  /** A Paint of `arg` on a pixel holding `current`: only an unset pixel is written. */
  function PaintPixel(current: int, arg: int): int {
    if current == Unset then arg else current
  }

  /** Several Paints on the same pixel, in the order they run. */
  function PaintAll(current: int, args: seq<int>): int
    decreases |args|
  {
    if args == [] then current else PaintAll(PaintPixel(current, args[0]), args[1..])
  }

  /** The first painted value that differs from the unset marker, if any. */
  function FirstPainted(args: seq<int>): int
    decreases |args|
  {
    if args == [] then Unset
    else if args[0] != Unset then args[0]
    else FirstPainted(args[1..])
  }

  /** A painted pixel keeps its value whatever is painted on it later. */
  lemma {:induction false} PaintedPixelStays(current: int, args: seq<int>)
    requires current != Unset
    ensures PaintAll(current, args) == current
    decreases |args|
  {
    if args != [] {
      PaintedPixelStays(current, args[1..]);
    }
  }

  /** First write wins: starting from an unset pixel, a sequence of Paints
      leaves the first painted value. A Paint of 15 is indistinguishable
      from no Paint at all, so it does not win. */
  lemma {:induction false} FirstPaintWins(args: seq<int>)
    ensures PaintAll(Unset, args) == FirstPainted(args)
    decreases |args|
  {
    if args != [] {
      if args[0] == Unset {
        FirstPaintWins(args[1..]);
      } else {
        PaintedPixelStays(args[0], args[1..]);
      }
    }
  }

  /** Two Paints on one pixel in one round: the one run first decides. */
  lemma TwoPaintsFirstDecides(a: int, b: int)
    requires a != Unset
    ensures PaintAll(Unset, [a, b]) == a
    ensures PaintAll(Unset, [Unset, b]) == b
  {
    FirstPaintWins([a, b]);
    FirstPaintWins([Unset, b]);
    assert [Unset, b][1..] == [b] && [b][1..] == [];
    assert FirstPainted([b]) == b;
  }

  /** No Paint leaves a pixel as it is; one Paint is PaintPixel. */
  lemma PaintAllShort(current: int, arg: int)
    ensures PaintAll(current, []) == current
    ensures PaintAll(current, [arg]) == PaintPixel(current, arg)
  {
    assert [arg][1..] == [];
  }

  /** Running two batches of Paints is running them as one. */
  lemma {:induction false} PaintAllAppend(current: int, a: seq<int>, b: seq<int>)
    ensures PaintAll(current, a + b) == PaintAll(PaintAll(current, a), b)
    decreases |a|
  {
    if a != [] {
      assert (a + b)[1..] == a[1..] + b;
      PaintAllAppend(PaintPixel(current, a[0]), a[1..], b);
    } else {
      assert a + b == b;
    }
  }

  // ----------------------------------------------------------------- Move

  /** A Move claim with argument `newArg` on a sprite whose slot holds
      (inst, arg): taken when the slot is free, or when it holds a Move and
      the new claim is a Stop. */
  function Claim(inst: int, arg: int, newArg: int): (int, int) {
    if inst == NoneId || (inst == CmdMove && newArg == ArgStop) then (CmdMove, newArg)
    else (inst, arg)
  }

  /** Several Move claims on one sprite, in the order they run. */
  function ClaimAll(inst: int, arg: int, args: seq<int>): (int, int)
    decreases |args|
  {
    if args == [] then (inst, arg)
    else var (i, a) := Claim(inst, arg, args[0]); ClaimAll(i, a, args[1..])
  }

  /** Once a sprite holds a Move, later claims can only turn it into a Stop. */
  lemma {:induction false} ClaimsAfterMove(arg: int, args: seq<int>)
    ensures ClaimAll(CmdMove, arg, args) == (CmdMove, if ArgStop in args then ArgStop else arg)
    decreases |args|
  {
    if args != [] {
      var (i, a) := Claim(CmdMove, arg, args[0]);
      ClaimsAfterMove(a, args[1..]);
      assert args == [args[0]] + args[1..];
    }
  }

  /** The first Move claim on a free sprite wins; a later claim displaces it
      only when it is a Stop, so the outcome does not depend on the order of
      the later claims. */
  lemma FirstClaimWins(arg: int, args: seq<int>)
    requires args != []
    ensures ClaimAll(NoneId, arg, args) ==
            (CmdMove, if ArgStop in args[1..] then ArgStop else args[0])
  {
    ClaimsAfterMove(args[0], args[1..]);
  }

  /** A sprite whose slot holds an instruction other than Move is never claimed. */
  lemma {:induction false} OtherInstructionKept(inst: int, arg: int, args: seq<int>)
    requires inst != NoneId && inst != CmdMove
    ensures ClaimAll(inst, arg, args) == (inst, arg)
    decreases |args|
  {
    if args != [] {
      OtherInstructionKept(inst, arg, args[1..]);
    }
  }

  /** No claim leaves a slot as it is; one claim is Claim. */
  lemma ClaimAllShort(inst: int, arg: int, newArg: int)
    ensures ClaimAll(inst, arg, []) == (inst, arg)
    ensures ClaimAll(inst, arg, [newArg]) == Claim(inst, arg, newArg)
  {
    assert [newArg][1..] == [];
  }

  /** Running two batches of claims is running them as one. */
  lemma {:induction false} ClaimAllAppend(inst: int, arg: int, a: seq<int>, b: seq<int>)
    ensures ClaimAll(inst, arg, a + b) == ClaimAll(ClaimAll(inst, arg, a).0, ClaimAll(inst, arg, a).1, b)
    decreases |a|
  {
    if a != [] {
      assert (a + b)[1..] == a[1..] + b;
      var (i, g) := Claim(inst, arg, a[0]);
      ClaimAllAppend(i, g, a[1..], b);
    } else {
      assert a + b == b;
    }
  }

  /** Claims never put anything but a Move in a slot: a slot that is free
      or holds a Move still does after any claims. */
  lemma {:induction false} ClaimsKeepMoveOrFree(inst: int, arg: int, args: seq<int>)
    requires inst == NoneId || inst == CmdMove
    ensures ClaimAll(inst, arg, args).0 == NoneId || ClaimAll(inst, arg, args).0 == CmdMove
    ensures args != [] ==> ClaimAll(inst, arg, args).0 == CmdMove
    decreases |args|
  {
    if args != [] {
      var (i, g) := Claim(inst, arg, args[0]);
      ClaimsKeepMoveOrFree(i, g, args[1..]);
    }
  }

  // ----------------------------------------------------------- Tile map

  /** The tile of a cell after the commit of its paint-buffer pixel: the
      painted value, or the old tile when the pixel is unset. */
  function Committed(paint: int, tile: int): int {
    if paint != Unset then paint else tile
  }

  // ---------------------------------------------------------- Global queue

  /** A queue segment made of (Game or SpritePred, argument) pairs. */
  predicate GlobalPairs(s: seq<int>)
    decreases |s|
  {
    |s| == 0 || (|s| >= 2 && (s[0] == CmdGame || s[0] == CmdSpritePred) && GlobalPairs(s[2..]))
  }

  lemma {:induction false} GlobalPairsAppend(a: seq<int>, b: seq<int>)
    requires GlobalPairs(a) && GlobalPairs(b)
    ensures GlobalPairs(a + b)
    decreases |a|
  {
    if a != [] {
      assert |a| >= 2 && GlobalPairs(a[2..]);
      GlobalPairsAppend(a[2..], b);
      assert (a + b)[0] == a[0];
      assert (a + b)[2..] == a[2..] + b;
      assert GlobalPairs((a + b)[2..]);
    } else {
      assert a + b == b;
    }
  }

  /** globalArgs[i] in the source: undefined past the end of the array. */
  function ArgAt(args: seq<int>, i: int): Option<int> {
    if 0 <= i < |args| then Some(args[i]) else None
  }

  /** The SpritePred test `sprites[arg] && sprites[arg].length > 0`, where
      counts[k] is the number of live sprites of kind k. */
  predicate KindPresent(counts: seq<nat>, arg: Option<int>) {
    arg.Some? && 0 <= arg.value < |counts| && counts[arg.value] > 0
  }

  /** The game.over call (true for a win) a Game command with `arg` makes. */
  function GameOverCall(arg: Option<int>): seq<bool> {
    if arg == Some(GameWin) || arg == Some(GameLose) then [arg == Some(GameWin)] else []
  }

  /** The game.over calls that draining the queue from index i makes: the
      command is read from `cmds`, its argument from `args` at the same
      index, and a SpritePred whose kind has sprites skips one entry. */
  function DrainFrom(cmds: seq<int>, args: seq<int>, counts: seq<nat>, i: nat): (r: seq<bool>)
    decreases |cmds| - i
  {
    if i >= |cmds| then []
    else if cmds[i] == CmdGame then GameOverCall(ArgAt(args, i)) + DrainFrom(cmds, args, counts, i + 1)
    else if cmds[i] == CmdSpritePred && KindPresent(counts, ArgAt(args, i)) then DrainFrom(cmds, args, counts, i + 2)
    else DrainFrom(cmds, args, counts, i + 1)
  }

  /** With nothing in the argument queue, draining makes no game.over call,
      whatever the command queue holds. */
  lemma {:induction false} DrainWithoutArgsIsInert(cmds: seq<int>, counts: seq<nat>, i: nat)
    ensures DrainFrom(cmds, [], counts, i) == []
    decreases |cmds| - i
  {
    if i < |cmds| {
      DrainWithoutArgsIsInert(cmds, counts, i + 1);
      DrainWithoutArgsIsInert(cmds, counts, i + 2);
    }
  }

  /** The queue layout the executor produces: SpritePred(2), Game(Lose),
      Game(Win) are pushed as six entries of the command queue and none of
      the argument queue, so no game.over call is made even though kind 2
      has sprites. */
  lemma SkipScenarioAsQueued(counts: seq<nat>)
    requires |counts| > 2 && counts[2] > 0
    ensures DrainFrom([CmdSpritePred, 2, CmdGame, GameLose, CmdGame, GameWin], [], counts, 0) == []
  {
    DrainWithoutArgsIsInert([CmdSpritePred, 2, CmdGame, GameLose, CmdGame, GameWin], counts, 0);
  }

  /** The drain loop itself implements skip-next: given the commands and
      their arguments side by side, SpritePred(2) with sprites of kind 2
      skips Game(Lose), and Game(Win) ends the game in a win. */
  lemma SkipScenarioSideBySide(counts: seq<nat>)
    requires |counts| > 2 && counts[2] > 0
    ensures DrainFrom([CmdSpritePred, CmdGame, CmdGame], [2, GameLose, GameWin], counts, 0) == [true]
  {
    var cmds, args := [CmdSpritePred, CmdGame, CmdGame], [2, GameLose, GameWin];
    assert DrainFrom(cmds, args, counts, 3) == [];
    assert DrainFrom(cmds, args, counts, 2) == [true];
    assert DrainFrom(cmds, args, counts, 0) == DrainFrom(cmds, args, counts, 2);
  }
}
