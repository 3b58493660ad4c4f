# Tile-world VM: rule matching and rule application

This project models the core of the tile-world game engine's virtual machine
(class `TileWorldVM` in `vm.ts`), together with the state it runs on
(`VMState`, the `TileSprite` fields it reads and writes, `RuleClosure`). It
also proves what one round of the machine does to that state.

A round works as follows:

- It centres every sprite in its 16x16 cell.
- It clears the paint buffer (`nextWorld`) to the unset marker `0xf`.
- It clears every sprite's instruction and collision slots.
- It runs two phases, Moving and then Resting. In each phase:
  - every sprite eligible for the phase is tried against every rule of the VM, in order;
  - a rule is kept when the phase's rule filter admits it and its guards hold at the twelve cells around the sprite (radius 2, centre excluded);
  - each kept rule becomes a closure that carries the witness sprites its guards captured next to the sprite;
  - the closures then run, in order. Each runs the one command of each cell of its 5x5 table within radius 2. Paint writes the paint buffer only where it is still unset. Move claims a sprite's instruction slot. Game and SpritePred append an (instruction, argument) pair to the global queue.
- Finally it updates the world:
  - every sprite turns its instruction into a direction and a velocity;
  - every painted pixel is copied to the tile map;
  - the global queue is drained.

Files:

- `codes.dfy`: the enumeration codes, the `-1` "none" sentinel and the `0xf` unset marker.
- `catalog.dfy`: the rule catalog (`Project`), modelled as a read-only record of query functions. It also holds the 5x5 table geometry, phase eligibility, the `matchingRules` filter and command-slot selection.
- `effects.dfy`: value-level effects:
  - how successive Paints decide a pixel;
  - how successive Move claims decide an instruction slot;
  - the commit of a pixel to the tile map;
  - the drain of the global queue, as a function giving the `game.over` calls it makes.
- `sprite.dfy`: the `TileSprite` class (position, direction, instruction slots, velocity), cell arithmetic, centring and the `find` over a sprite list.
- `vm.dfy`: the `VMState` and `TileWorldVM` classes. It contains:
  - the matcher: `evaluateWhenDo`, `evaluateRule`, `matchingRules` and `applyRules`;
  - the executor: `evaluateWhenDoCommands` and `evaluateRuleClosure`;
  - `updateWorld` and `round`.
  Loops are methods with invariants, each proved against a specification function over the state. A round is specified by the specification functions `RoundPaints` (the Paints that reach each pixel) and `RoundClaims` (the Move claims made on each sprite); lemmas prove first-write-wins and first-claim-wins properties about them.

Outside collaborators become state or parameters:

- The scene's tile map becomes the `tiles` array.
- `game.over(win)` becomes the `gameOver` log of its arguments.
- The list of sprites of each kind is `sprites`. A kind without a list, such as a fixed kind, has an empty list.

Some behaviour is modelled as the code has it:

- `globalArgs` is never appended to, so the drain reads an undefined argument for every entry and never calls `game.over`. `Round` proves `gameOver` unchanged, and `SkipScenarioAsQueued` / `SkipScenarioSideBySide` contrast the queue as filled with the layout the drain loop reads.
- In the filter of `matchingRules`, `&&` binds tighter than `||`. A Pushing rule aimed in the d-pad's direction is therefore admitted in every phase, whatever the sprite's own direction.
- A Paint outside the buffer reads pixel value 0, which is not the unset marker, so it writes nothing.

## Model

| member | source | states |
|---|---|---|
| Sprites.TileSprite.constructor | vm.ts:16-24 | a new sprite has the given kind and position, with no direction, no instruction and no collision |
| Sprites.TileSprite.Update | vm.ts:27-31 | the direction becomes the Move argument, or -1 when the instruction is not a Move; the velocity is ±100 along that direction and 0 across it; a sprite without a Move stands still |
| Sprites.Centered | vm.ts:77-78 | the centred coordinate stays in the same cell and sits 8 pixels into it |
| Sprites.CenteredIdempotent | vm.ts:77-78 | centring an already centred coordinate changes nothing |
| Sprites.FindAtSpec | vm.ts:241 | the sprite found is in the list and in the cell, and is the first such; nothing is found exactly when no sprite of the list is in the cell |
| Sprites.FindInAgrees | vm.ts:337 | a find over recorded positions agrees with the find over live positions while the record is accurate |
| Sprites.Flatten | vm.ts:110-112 | the sprites visited are exactly those of the per-kind lists |
| Catalog.GuardAreaIsTwelveCells | vm.ts:228-232 | the positions whose guards are checked are the twelve cells at distance 1 or 2 from the centre; the command area adds the centre |
| Catalog.AtMostFourAdjacent | vm.ts:301-304 | positions next to the centre, visited in table order without repetition, number at most four |
| Catalog.EveryPhaseCoversSprite | vm.ts:115-118 | every sprite is eligible for the Moving or the Resting phase; it is eligible for both exactly when it moves without a Move instruction; no sprite is eligible for Colliding |
| Catalog.PhaseRuleTypes | vm.ts:100-103 | the Moving phase admits Moving rules in the sprite's direction and Pushing rules in the d-pad's; the Resting phase admits Resting rules and the same Pushing rules; such a Pushing rule is admitted in every phase |
| Catalog.CommandSlotSpec | vm.ts:325-328 | the slot that runs is a handled command preceded only by unhandled non-terminator slots; when none runs, every handled command comes after a -1 |
| Catalog.CellCommandSpec | vm.ts:319-328 | a position runs at most one command, one of its own block's four slots, and runs nothing without a block |
| Effects.PaintedPixelStays | vm.ts:331-333 | Paints never overwrite a pixel that is already painted |
| Effects.FirstPaintWins | vm.ts:331-333 | after any sequence of Paints on an unset pixel, the pixel holds the first painted value |
| Effects.TwoPaintsFirstDecides | vm.ts:331-333 | of two Paints on an unset pixel, the first decides unless it paints the unset marker itself |
| Effects.PaintAllAppend | vm.ts:331-333 | running two sequences of Paints is running the first, then the second |
| Effects.ClaimsAfterMove | vm.ts:339-342 | once a sprite holds a Move, later claims only replace its argument, and only by Stop |
| Effects.FirstClaimWins | vm.ts:339-342 | on a free sprite, the first claim decides unless a later claim is a Stop |
| Effects.OtherInstructionKept | vm.ts:339 | a slot holding an instruction other than Move is never claimed |
| Effects.ClaimAllAppend | vm.ts:339-342 | running two sequences of claims is running the first, then the second |
| Effects.ClaimsKeepMoveOrFree | vm.ts:339-342 | from a free or Move slot, claims leave it free or a Move, and a Move once there is at least one claim |
| Effects.GlobalPairsAppend | vm.ts:351-352 | two queue segments made of pairs make one |
| Effects.DrainWithoutArgsIsInert | vm.ts:202-220 | with an empty argument queue, draining makes no game.over call whatever the command queue holds |
| Effects.SkipScenarioAsQueued | vm.ts:202-220 | SpritePred(2), Game(Lose), Game(Win), queued as they are pushed, end no game, even when kind 2 has sprites |
| Effects.SkipScenarioSideBySide | vm.ts:211-216 | with commands and arguments side by side, a SpritePred whose kind has sprites skips the Game(Lose) after it, and Game(Win) ends the game in a win |
| Vm.VMState.constructor | vm.ts:34-42 | a state lists every sprite of its per-kind lists and starts with empty queues and no game.over call |
| Vm.VMState.AllSpritesInObjects | vm.ts:110-112 | every sprite allSprites visits is a sprite of the state |
| Vm.VMState.SpriteCountsPresent | vm.ts:212-213 | a SpritePred argument names a kind with sprites exactly when it is present, indexes one of the per-kind lists, and that list is non-empty |
| Vm.TileWorldVM.constructor | vm.ts:62-64 | a new VM has its catalog and rules and no state |
| Vm.TileWorldVM.SetState | vm.ts:66-68 | the VM runs on the given state |
| Vm.TileWorldVM.GetWitness | vm.ts:240-242 | the witness is a sprite of the kind in the cell, and there is one exactly when such a sprite exists |
| Vm.TileWorldVM.GetWitnessFirst | vm.ts:240-242 | the witness is the first sprite of the kind's list that is in the cell |
| Vm.TileWorldVM.ScanAllKinds | vm.ts:249-255 | true exactly when every kind's attribute in the block is OK |
| Vm.TileWorldVM.Capture | vm.ts:289-298 | the captured witness is a sprite of the state in the target cell |
| Vm.TileWorldVM.CellCapture | vm.ts:300-304 | at most one witness per cell, and only from a passing guard at distance 1 from the anchor, in the cell the table position points at |
| Vm.TileWorldVM.CellCases | vm.ts:259-265 | a position without a block, or whose block is all OK, passes and captures nothing; a checked cell out of bounds fails; otherwise the verdict is the block's |
| Vm.TileWorldVM.BlockVerdict | vm.ts:266-300 | when no Exclude/Include condition rejects, the cell passes exactly when it has no OneOf condition or one of them is met |
| Vm.TileWorldVM.ScanFixedKinds | vm.ts:269-281 | passes exactly when no fixed kind's Exclude/Include rejects the cell's tile, and then reports whether there are fixed OneOf kinds and whether one is hit |
| Vm.TileWorldVM.ScanMovableKinds | vm.ts:282-299 | the same for the movable kinds against the sprites in the cell, also returning the first Include or OneOf witness |
| Vm.TileWorldVM.EvaluateWhenDo | vm.ts:257-306 | the result is the cell's guard verdict, and the witness list grows by that cell's capture |
| Vm.TileWorldVM.PassedBeforeEach | vm.ts:228-235 | the guards passed before a table position are exactly those of the guard cells earlier in visiting order |
| Vm.TileWorldVM.GuardStep | vm.ts:229-234 | one guard cell extends both the verdict and the witnesses by that cell |
| Vm.TileWorldVM.FailedGuardRejects | vm.ts:233-234 | once a guard fails, the rule does not match |
| Vm.TileWorldVM.CapturesShape | vm.ts:301-304 | the witnesses captured so far are next to the anchor, at earlier positions, one per cell, in visiting order |
| Vm.TileWorldVM.RuleWitnessesShape | vm.ts:301-304 | a closure has at most four witnesses, each a sprite of the state at distance 1 from the anchor, no two in one cell |
| Vm.TileWorldVM.EvaluateGuardColumn | vm.ts:229-235 | a column either extends the verdict and the witnesses or proves that the rule does not match |
| Vm.TileWorldVM.EvaluateRule | vm.ts:226-238 | a closure is returned exactly when all twelve guards hold, and then it carries the rule, the anchor and the witnesses in visiting order |
| Vm.TileWorldVM.ClosuresOfRulesMembers | vm.ts:98-108 | a closure is collected for a sprite exactly when it is the closure of a rule admitted by the filter whose guards hold |
| Vm.TileWorldVM.TryRule | vm.ts:120-124 | the closure list grows by the rule's closure exactly when the rule is selected |
| Vm.TileWorldVM.MatchingRules | vm.ts:98-108 | the closure list grows by the closures of the selected rules, in rule order |
| Vm.TileWorldVM.PhaseClosuresMembers | vm.ts:114-127 | a closure is collected in a phase exactly when it belongs to a rule selected for a sprite eligible for the phase |
| Vm.TileWorldVM.ApplyRules | vm.ts:114-127 | the closure list grows by the closures of the eligible sprites, in visiting order |
| Vm.TileWorldVM.CollectedIsPhaseClosures | vm.ts:114-127 | the closures collected from the live sprites are the phase's closures over the d-pad and the instructions their slots hold |
| Vm.TileWorldVM.PhaseClosuresKept | vm.ts:98-127 | the closures of a phase stay the same in a later state where every sprite is in the cell it was in and faces the same way, and the tile map is unchanged |
| Vm.TileWorldVM.ClosuresOfRulesAnchored | vm.ts:120-123 | the closures of a sprite of the state are anchored on sprites of the state |
| Vm.TileWorldVM.CollectedAnchored | vm.ts:115-126 | every closure of a phase is anchored on sprites of the state |
| Vm.TileWorldVM.MoveTargetSpec | vm.ts:337 | the Move target is the anchor at the centre; elsewhere it is a witness in the target cell, or none exactly when no witness is there |
| Vm.TileWorldVM.RunCommand | vm.ts:329-355 | Paint writes only the target pixel and only when it is unset; Move changes only the target sprite's slot, as a claim; Game and SpritePred append exactly two entries; nothing else changes |
| Vm.TileWorldVM.EvaluateWhenDoCommands | vm.ts:318-357 | a position runs its one command: the target pixel gets its Paints, the target sprite its claims, and the queue its entries |
| Vm.TileWorldVM.CellQueuePairs | vm.ts:349-353 | a position appends nothing or one (Game or SpritePred, argument) pair |
| Vm.TileWorldVM.ColumnQueuePairs | vm.ts:310-314 | a column of a closure appends whole pairs |
| Vm.TileWorldVM.ClosureQueuePairs | vm.ts:308-316 | a closure appends whole pairs |
| Vm.TileWorldVM.QueuePairs | vm.ts:86-89 | the queue the closures of a round fill is made of (Game or SpritePred, argument) pairs |
| Vm.TileWorldVM.EvaluatePosition | vm.ts:311-313 | one position of the table runs the command of that position only when it lies within radius 2 |
| Vm.TileWorldVM.EvaluateColumn | vm.ts:310-314 | one column of the table runs its positions top to bottom |
| Vm.TileWorldVM.EvaluateRuleClosure | vm.ts:308-316 | a closure runs the commands of its 13 positions column by column, and no sprite moves |
| Vm.TileWorldVM.PaintedClosure | vm.ts:308-316 | the pixels after a closure are the grid painted by that closure's positions around its anchor |
| Vm.TileWorldVM.ClaimedClosure | vm.ts:308-316 | the instruction slots after a closure are those claimed by that closure's Moves |
| Vm.TileWorldVM.RunClosure | vm.ts:86 | running one closure paints its positions around its anchor, claims its targets and appends its queue entries |
| Vm.TileWorldVM.EvaluateNextClosure | vm.ts:86 | running closure i extends the effect of the first i closures to the first i + 1 |
| Vm.TileWorldVM.EvaluateRuleClosures | vm.ts:86 | running the closures in order leaves every pixel with the Paints of all of them, every sprite with all their claims and the queue with all their entries |
| Vm.TileWorldVM.PaintGridEach | vm.ts:86-89 | each pixel after a run of closures is the old pixel after the Paints of every closure on it, in closure order |
| Vm.TileWorldVM.ClaimSlotsEach | vm.ts:86-89 | each sprite's slot after a run of closures is the old slot after the claims of every closure on it, in closure order |
| Vm.TileWorldVM.CollectPhase | vm.ts:84-85 | the closure list is emptied and refilled with exactly the closures of the phase, all anchored on sprites of the state |
| Vm.TileWorldVM.RunPhase | vm.ts:84-89 | the closures run are exactly those the phase collects on the state it starts from, over the instructions the slots then hold; pixels, slots and queue get their effects; a queue made of (command, argument) pairs stays so |
| Vm.TileWorldVM.RunPhases | vm.ts:84-89 | the Moving phase runs exactly the closures it collects on the starting state; the Resting phase runs exactly those collected on the same cells and directions with the instructions the Moving claims leave; the pixels and slots get the Moving effects followed by the Resting ones |
| Vm.TileWorldVM.RoundPixels | vm.ts:81-89 | a pixel unset at the start of the phases ends with the first value painted on it, over Moving then Resting Paints |
| Vm.TileWorldVM.RoundSlots | vm.ts:82-89 | a sprite free at the start of the phases ends with its claims of both phases applied in order, free or holding a Move |
| Vm.TileWorldVM.CenterSprites | vm.ts:76-79 | every sprite is centred in its cell |
| Vm.TileWorldVM.FillPaint | vm.ts:81 | every pixel of the paint buffer is unset |
| Vm.TileWorldVM.ResetInstructions | vm.ts:82 | every sprite's instruction and collision slots are -1 |
| Vm.TileWorldVM.StartRound | vm.ts:73-82 | d-pad recorded, sprites centred, paint buffer unset, instructions and collision slots cleared, arguments kept; the closures any phase would select are unchanged |
| Vm.TileWorldVM.PhasesFromCleared | vm.ts:84-89 | from a cleared start, the Moving closures are those selected with no instructions held and the Resting ones those selected with the Moving claims; every pixel holds the first value painted on it in the round and every sprite holds its claims in order, free or a Move |
| Vm.TileWorldVM.StartAndRunPhases | vm.ts:73-89 | the closures run are those the sprites, directions and tiles before the round select with the new d-pad, Moving with no instructions and Resting with the Moving claims; the phases leave pixels and slots as above, with sprites centred in the cell they were in |
| Vm.TileWorldVM.UpdateSprites | vm.ts:189 | every sprite's direction and velocity follow its instruction |
| Vm.TileWorldVM.CommitTiles | vm.ts:192-201 | every painted pixel's value reaches the tile map; an unset pixel leaves its tile |
| Vm.TileWorldVM.DrainQueue | vm.ts:202-220 | the game.over calls made are those of draining the queue, each command's argument read at its own index in the argument queue |
| Vm.TileWorldVM.UpdateWorld | vm.ts:188-223 | sprites updated, tiles committed, the queue drained and both queues emptied |
| Vm.TileWorldVM.FinishRound | vm.ts:91-95 | the closure list is emptied, the world updated, no game.over call made, and positions and slots kept |
| Vm.TileWorldVM.PlayRound | vm.ts:73-95 | a round on a present state, running the closures selected on the state before it, with the combined effect stated by Round |
| Vm.TileWorldVM.Round | vm.ts:70-96 | nothing happens without a state; otherwise the Moving phase runs the closures the state before the round selects with the new d-pad and no instructions, the Resting phase those it selects with the Moving claims; every sprite ends centred in its cell with its collision slot cleared, holding the claims of the round in order, and with direction and velocity updated; every tile takes the first value painted on it in the round, if any; both queues end empty; no game.over call is made |

## Left out

- RunGame, collisionDetection, collidingRules, collide and the Colliding phase: `round` does not call them (the collision pass is commented out). The `moving` and `other` fields serve only them. `other` is always null during a round, so `evaluateWhenDo`'s use of it is dropped.
- Physics and velocity integration, sprite images, the scene and its rendering: outside the VM core. The velocity is only set.
- The `Project` implementation: the catalog is a record of total query functions that never change during a round.
- The tile map's `getTile(...).tileSet` and `setTileAt`: modelled as the `tiles` array holding one tile kind per cell.
- Vm.TileWorldVM.RunCommand: a Paint writes its argument as it is. The pixel image keeps only the low four bits of a value it is given; the image class is not part of this model, so Paint arguments are taken to be in 0..15 (pixel values).
- Sprites.Centered, Sprites.CellOf: the `>>`/`<<` arithmetic is modelled as floor division and multiplication by 16. The 32-bit truncation of JavaScript shift operators is not modelled.
- Enumeration values: CommandType, MoveDirection, MoveArg, AttrType, GameArg and RuleType are declared outside `vm.ts` and are not part of this model. They get TypeScript default numbering, and the proofs use only that codes are distinct and non-negative.
- Vm.TileWorldVM.Round: does not restate the paint buffer's content at the end of the round. StartAndRunPhases states it, and Round states the tile map it reaches.
- Vm.TileWorldVM.Round: the closures the phases ran and the record of sprite positions are ghost outputs. They name what the round's effect is stated over; they are not values the source returns.
