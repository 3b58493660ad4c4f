/** Numeric codes shared by the rule catalog and the virtual machine.

    The enumerations CommandType, MoveDirection, MoveArg, AttrType, GameArg
    and RuleType are declared outside vm.ts. The model gives each member the
    TypeScript default numbering (0, 1, 2, ... in declaration order); every
    proof relies only on the codes of one enumeration being distinct and
    non-negative, so that none of them collides with the sentinel -1. */
module Codes {

  /** The "none" sentinel of directions, instructions, WhenDo ids. */
  const NoneId: int := -1

  /** The "unset" value of a paint-buffer pixel (vm.ts, `0xf`). */
  const Unset: int := 0xf

  // CommandType
  const CmdMove: int := 0
  const CmdPaint: int := 1
  const CmdSprite: int := 2
  const CmdGame: int := 3
  const CmdSpritePred: int := 4

  // MoveDirection, and the first members of MoveArg that share its numbering
  const DirLeft: int := 0
  const DirRight: int := 1
  const DirUp: int := 2
  const DirDown: int := 3
  const ArgStop: int := 4

  // AttrType
  const AttrOk: int := 0
  const AttrExclude: int := 1
  const AttrInclude: int := 2
  const AttrOneOf: int := 3

  // GameArg
  const GameWin: int := 0
  const GameLose: int := 1

  // RuleType
  const RuleMoving: int := 0
  const RuleResting: int := 1
  const RuleColliding: int := 2
  const RulePushing: int := 3

  /** The optional value of a lookup that may come back `undefined`. */
  datatype Option<T> = None | Some(value: T)
}
