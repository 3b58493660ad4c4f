/** The rule catalog (an opaque, read-only collaborator), the 5x5
    neighbourhood geometry and the rule-selection predicates of the VM. */
module Catalog {
  import opened Codes

  /** The queries the VM makes of its Project. Each query is a total
      function; the catalog never changes while the VM runs.
      - kinds(rid): the kinds a rule applies to (getKinds)
      - dir(rid), ruleType(rid): getDir, getType
      - whenDo(rid, col, row): the WhenDo id of a 5x5 table position, or -1
      - attr(rid, wid, kind): the AttrType of a kind in a WhenDo block
      - inst(rid, wid, cid), arg(rid, wid, cid): command slot cid (0..3) */
  datatype Project = Project(
    kinds: int -> seq<int>,
    dir: int -> int,
    ruleType: int -> int,
    whenDo: (int, int, int) -> int,
    attr: (int, int, int) -> int,
    inst: (int, int, int) -> int,
    arg: (int, int, int) -> int)

  /** The phases of a round (vm.ts enum Phase). */
  datatype Phase = Moving | Resting | Colliding

  function Abs(n: int): nat { if n < 0 then -n else n }

  /** Manhattan distance of table position (col, row) from the centre (2, 2). */
  function Manhattan(col: int, row: int): nat { Abs(2 - col) + Abs(2 - row) }

  /** The positions whose conditions a rule checks: radius 2, centre excluded. */
  predicate InGuardArea(col: int, row: int) {
    Manhattan(col, row) <= 2 && !(col == 2 && row == 2)
  }

  /** The positions whose commands a closure runs: radius 2, centre included. */
  predicate InCommandArea(col: int, row: int) {
    Manhattan(col, row) <= 2
  }

  /** The twelve guard positions, listed. */
  lemma GuardAreaIsTwelveCells(col: int, row: int)
    requires 0 <= col < 5 && 0 <= row < 5
    ensures InGuardArea(col, row) <==>
      (col, row) in {(0, 2), (1, 1), (1, 2), (1, 3), (2, 0), (2, 1),
                     (2, 3), (2, 4), (3, 1), (3, 2), (3, 3), (4, 2)}
    ensures InCommandArea(col, row) <==> InGuardArea(col, row) || (col == 2 && row == 2)
  {
  }

  /** Position (c, w) comes before position (col, row) in the order the
      VM visits the table: column by column, top to bottom. */
  predicate Earlier(c: int, w: int, col: int, row: int) {
    c < col || (c == col && w < row)
  }

  /** The index of a position next to the centre among the four such
      positions, in visiting order: (1,2), (2,1), (2,3), (3,2). */
  function AdjacentRank(col: int, row: int): int {
    if col < 2 then 0 else if col == 2 && row < 2 then 1 else if col == 2 then 2 else 3
  }

  /** Positions next to the centre listed in visiting order without
      repetition: there are at most four of them. */
  lemma {:induction false} AtMostFourAdjacent(ps: seq<(int, int)>)
    requires forall i :: 0 <= i < |ps| ==> Manhattan(ps[i].0, ps[i].1) == 1
    requires forall i, j :: 0 <= i < j < |ps| ==> Earlier(ps[i].0, ps[i].1, ps[j].0, ps[j].1)
    ensures ps != [] ==> |ps| <= AdjacentRank(ps[|ps| - 1].0, ps[|ps| - 1].1) + 1
    ensures |ps| <= 4
  {
    if |ps| > 1 {
      var init := ps[..|ps| - 1];
      AtMostFourAdjacent(init);
      assert init[|init| - 1] == ps[|ps| - 2];
      assert Earlier(ps[|ps| - 2].0, ps[|ps| - 2].1, ps[|ps| - 1].0, ps[|ps| - 1].1);
    }
  }

  /** Which sprites take part in a phase (applyRules): a sprite that is
      moving in the Moving phase; in the Resting phase a sprite that is not
      moving or whose instruction is not a Move. */
  predicate Eligible(phase: Phase, dir: int, inst: int) {
    (phase == Moving && dir != NoneId) ||
    (phase == Resting && (dir == NoneId || inst != CmdMove))
  }

  /** Every sprite takes part in the Moving or the Resting phase, and a
      sprite that is moving under a Move instruction only in the Moving one. */
  lemma EveryPhaseCoversSprite(dir: int, inst: int)
    ensures Eligible(Moving, dir, inst) || Eligible(Resting, dir, inst)
    ensures !Eligible(Colliding, dir, inst)
    ensures Eligible(Moving, dir, inst) && Eligible(Resting, dir, inst) <==>
            dir != NoneId && inst != CmdMove
  {
  }

  /** The rule filter of matchingRules for a sprite of `kind` moving in
      `dir`, with `dpad` the direction pressed this round. The last
      disjunct is not tied to a phase: `&&` binds tighter than `||` in the
      source condition. */
  predicate RuleApplies(p: Project, phase: Phase, rid: int, kind: int, dir: int, dpad: int) {
    kind in p.kinds(rid) &&
    ((phase == Moving && p.dir(rid) == dir && p.ruleType(rid) == RuleMoving)
     || (phase == Resting && p.ruleType(rid) == RuleResting)
     || (p.dir(rid) == dpad && p.ruleType(rid) == RulePushing))
  }

  /** Which rule types each phase admits. A Pushing rule aimed the way of
      the directional pad is admitted in BOTH phases (and in the Colliding
      phase too), whatever direction the sprite itself is moving in. */
  lemma PhaseRuleTypes(p: Project, rid: int, kind: int, dir: int, dpad: int)
    ensures RuleApplies(p, Moving, rid, kind, dir, dpad) <==>
      kind in p.kinds(rid) &&
      ((p.ruleType(rid) == RuleMoving && p.dir(rid) == dir) ||
       (p.ruleType(rid) == RulePushing && p.dir(rid) == dpad))
    ensures RuleApplies(p, Resting, rid, kind, dir, dpad) <==>
      kind in p.kinds(rid) &&
      (p.ruleType(rid) == RuleResting ||
       (p.ruleType(rid) == RulePushing && p.dir(rid) == dpad))
    ensures kind in p.kinds(rid) && p.ruleType(rid) == RulePushing && p.dir(rid) == dpad ==>
      RuleApplies(p, Moving, rid, kind, dir, dpad) &&
      RuleApplies(p, Resting, rid, kind, dir, dpad) &&
      RuleApplies(p, Colliding, rid, kind, dir, dpad)
  {
  }

  /** The command codes the executor handles; any other code is passed over. */
  predicate Handled(inst: int) {
    inst == CmdPaint || inst == CmdMove || inst == CmdSprite ||
    inst == CmdGame || inst == CmdSpritePred
  }

  /** Slot `cid` is passed over by the command loop: not the end marker, and
      not a command it handles. */
  predicate Skipped(p: Project, rid: int, wid: int, cid: int) {
    p.inst(rid, wid, cid) != NoneId && !Handled(p.inst(rid, wid, cid))
  }

  /** Slot `cid` holds the end marker -1. */
  predicate Ends(p: Project, rid: int, wid: int, cid: int) {
    p.inst(rid, wid, cid) == NoneId
  }

  /** The slot, from `cid` on, whose command the executor runs: the first
      handled command before any -1 among the four slots. */
  function CommandSlot(p: Project, rid: int, wid: int, cid: nat): Option<nat>
    requires cid <= 4
    decreases 4 - cid
  {
    if cid == 4 then None
    else if Ends(p, rid, wid, cid) then None
    else if Handled(p.inst(rid, wid, cid)) then Some(cid)
    else CommandSlot(p, rid, wid, cid + 1)
  }

  /** The slot chosen is a handled command that only passed-over slots
      precede; when none is chosen, every handled command comes after a -1. */
  lemma {:induction false} CommandSlotSpec(p: Project, rid: int, wid: int, cid: nat)
    requires cid <= 4
    ensures var r := CommandSlot(p, rid, wid, cid);
      r.Some? ==> cid <= r.value < 4 && Handled(p.inst(rid, wid, r.value)) &&
                  forall j :: cid <= j < r.value ==> Skipped(p, rid, wid, j)
    ensures CommandSlot(p, rid, wid, cid).None? ==>
      forall j :: cid <= j < 4 && Handled(p.inst(rid, wid, j)) ==>
        exists i :: cid <= i < j && Ends(p, rid, wid, i)
    decreases 4 - cid
  {
    if cid < 4 && !Ends(p, rid, wid, cid) && !Handled(p.inst(rid, wid, cid)) {
      CommandSlotSpec(p, rid, wid, cid + 1);
    }
  }

  /** The one command (instruction, argument) a WhenDo cell of a rule runs,
      if any: nothing when the position has no WhenDo block. */
  function CellCommand(p: Project, rid: int, col: int, row: int): Option<(int, int)> {
    var wid := p.whenDo(rid, col, row);
    if wid == NoneId then None
    else match CommandSlot(p, rid, wid, 0)
      case None => None
      case Some(c) => Some((p.inst(rid, wid, c), p.arg(rid, wid, c)))
  }

  /** A cell runs a handled command of its block, one that only passed-over
      slots precede, and nothing when it has no block. */
  lemma CellCommandSpec(p: Project, rid: int, col: int, row: int)
    ensures var r := CellCommand(p, rid, col, row);
      r.Some? ==> Handled(r.value.0) && p.whenDo(rid, col, row) != NoneId
    ensures var r, wid := CellCommand(p, rid, col, row), p.whenDo(rid, col, row);
      r.Some? ==> exists c :: 0 <= c < 4 && r.value == (p.inst(rid, wid, c), p.arg(rid, wid, c)) &&
                    forall j :: 0 <= j < c ==> Skipped(p, rid, wid, j)
    ensures p.whenDo(rid, col, row) == NoneId ==> CellCommand(p, rid, col, row).None?
  {
    var wid := p.whenDo(rid, col, row);
    if wid != NoneId {
      CommandSlotSpec(p, rid, wid, 0);
    }
  }
}
