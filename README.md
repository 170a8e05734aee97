# Redundancy elimination passes of the COINS SSA optimizer, modelled in Dafny

This project models the redundancy-elimination passes of the COINS compiler's SSA optimizer and proves properties of the model. The passes work on the LIR intermediate representation, held in basic blocks of a control-flow graph.

- **Shared layer.** LIR nodes (`Lir.Node`: operator, type, kids) are values compared structurally, as Java's `equals` and `HashMap` keys compare them. A function (`Cfg.Function`) holds one instruction list per block. Its graph (`Cfg.Graph`) gives dense block ids and the following, all supplied as inputs:
  - predecessors and successors;
  - the block-list layout and the reverse postorder;
  - immediate dominators, dominator-tree kids, dominator depth and dominance frontiers.
- **Memory versioning** (`MemoryVersioning`, from `EMemoryAliasAnalyze`). It treats all memory as one object.
  - It marks the blocks in the closure of the dominance frontiers of blocks that store or call.
  - It walks the dominator tree with a version stack, stamping every MEM below a parent with the version on top.
  - It records per-block entry and exit versions. `annul` strips the stamps again.
- **Global value numbering** (`ValueNumbering`, from `GVN`). A monotone number allocator and a value table keyed by value expressions.
  - It keeps per-block holder maps and reachable-value sets.
  - Loop PHIs are numbered optimistically. Each assumption is checked afterwards, and its dependents are renumbered from a worklist.
- **Demand-driven PRE on SSA form** (`EqpQuery` and `Eqp`, from `EQP`). A memoised backward query over predecessors, with a D-safety forward check.
  - It inserts temporaries and PHIs and renumbers the new nodes.
  - It rolls everything back when a query fails.
- **Lazy code motion** (`ExhaustivePre`, from `PRE`, and `ExhaustivePreScalar`, from `PREScalar`).
  - Local properties, then the change-flag fixed points for down-safety, up-safety, delay and isolation, which give the earliest, latest, insert and replace points.
  - Local motion within a block, then insertion of a temporary and replacement of the redundant computations.
  - `PREScalar` drives the same steps for scalar expressions only.
- **Demand-driven PRE on non-SSA form** (`DDPRE`, from `DDPRE`).
  - Per-block `expToVar`/`varToExp` tables and a variable order.
  - Local redundancy elimination, then a backward `propagate`/`local` query with an anticipation check (`checkAnt`) on blocked predecessors, then insertion of one temporary per expression.
- **Copy propagation** (`DDCopyProp`, from `DDCPYP`).
  - The rewrite of one instruction, which also keeps DDPRE's tables up to date.
  - Local propagation through the rest of the block.
  - Global propagation, either by availability equations over the sub-CFG dominated by the copy or by a question-propagation walk.
- **Alias oracle** (`DDAliasAnalysis`, from `DDAliasAnalysis`).
  - Per-block ambiguous sets and alias maps.
  - PHI congruence classes.
  - A conservative `checkAlias`: a local backward scan first, then a global search over predecessors.
- **Three-address splitting** (`DivideExpression`, from `DivideExpression`). It moves operators and loads into fresh temporaries, inserting their SETs before the instruction.

Where the Java updates fields, arrays or instruction lists in place, the model is a class with those fields and methods with `modifies` clauses, and the methods' loops carry invariants. Each such method is proved against a specification function, and the properties are proved about that function. Fixed-size Java arrays indexed by block id are Dafny arrays. Lists, hash maps and hash sets are `seq`, `map` and `set`. Fresh symbols come from a counter.

Behaviour the model keeps as written:
- `EQP.doIt` calls `invoke(1)`, but `propagate` reads the field `mode`, which both constructors fix to 2.
- `checkCongruence` deletes the class it looks up.
- The removal at the end of `insertNewEntry` can never fire.
- `blkRankIn` is `nextNum - 1`, which need not be the version on top of the stack.
- Question propagation in copy propagation never rewrites anything. Only the copy's own block is given a result, no block is ever marked killing, and the copy's block has no use list. `DDCopyProp.CopyProp.DoItByQuestionPropagation` therefore promises that the code is left as it was.
- In GVN's optimistic PHI branch, the holder read right after `setValueRecordBlkVal(val, kid0, blk)` is always `kid0`. So every recorded PHI assumption maps a target to itself (`SelfAssumed`).

## Model

| member | source | states |
|---|---|---|
| `Lir.CollectVars` | exhaustivePre/PRE.java:486-491 | the collected operands are exactly the registers reached from the node through non-register children |
| `MemoryVersioning.ReplaceMem` | eddpre/EMemoryAliasAnalyze.java:277-292 | every MEM below a parent carries the version on top of the stack, the operator is kept, and annulling the result gives what annulling the input gives |
| `MemoryVersioning.MemAsBefore` | eddpre/EMemoryAliasAnalyze.java:328-341 | no MEM below a parent carries a version afterwards |
| `MemoryVersioning.MemAsBeforeKeepsUnstamped` | eddpre/EMemoryAliasAnalyze.java:328-341 | annulling a tree without versions leaves it unchanged |
| `MemoryVersioning.StampRoundTrip` | eddpre/EMemoryAliasAnalyze.java:277-292 | stamping a tree without versions and annulling it gives the tree back |
| `MemoryVersioning.MemAsBeforeIdempotent` | eddpre/EMemoryAliasAnalyze.java:328-341 | annulling twice is annulling once |
| `MemoryVersioning.RestampOverrides` | eddpre/EMemoryAliasAnalyze.java:277-292 | stamping an already stamped tree only replaces its versions: the last stamp wins |
| `MemoryVersioning.StampOperandsReads` | eddpre/EMemoryAliasAnalyze.java:189-216 | every MEM the instruction reads carries the version on top of the stack: below a CALL's callee and arguments, in the address of a MEM result (in the whole result list otherwise), in a SET's source and in the address of a MEM destination, and anywhere below any other instruction but PHI and PROLOGUE |
| `MemoryVersioning.StampOperandsKeepsShape` | eddpre/EMemoryAliasAnalyze.java:189-216 | the operand rewriting changes versions only: the annulled instruction and whether it stores to memory are unchanged |
| `MemoryVersioning.StampDest` | eddpre/EMemoryAliasAnalyze.java:233-252 | giving a store or a CALL result its own version changes nothing once annulled |
| `MemoryVersioning.Unstamp` | eddpre/EMemoryAliasAnalyze.java:311-320 | annulling code keeps its number of blocks |
| `MemoryVersioning.VersionRoundTrip` | eddpre/EMemoryAliasAnalyze.java:171-341 | code versioned by the walk and then annulled is the original code, when the original had no versions |
| `MemoryVersioning.MemoryVersioner.constructor` | eddpre/EMemoryAliasAnalyze.java:60-88 | the stack holds the bottom version 0 only; the merge blocks are closed under dominance frontiers and include every frontier of a block with a store or a call; the walk entered the entry block with version 0 on top and 1 as the next version, visited every dominator kid of every block it visited, and visited only blocks the entry dominates; every visited block was versioned from the original code as `VersionBlock` states, its entry and exit ranks are the last version handed out before and after its instructions, it was entered with the stack its immediate dominator left, and every other block keeps its original code |
| `MemoryVersioning.MemoryVersioner.WalkTree` | eddpre/EMemoryAliasAnalyze.java:83-84 | the walk from the entry records the entry block, entered with the current top of the stack and counter, visits the whole dominator tree below it, and leaves the stack as it was |
| `MemoryVersioning.MemoryVersioner.Fresh` | eddpre/EMemoryAliasAnalyze.java:236-237 | the version handed out is the counter's old value, was never handed out before, and the counter moves past it |
| `MemoryVersioning.MemoryVersioner.MarkFrontier` | eddpre/EMemoryAliasAnalyze.java:136-147 | the block is marked, marks only grow, and the marked set stays closed under frontiers |
| `MemoryVersioning.MemoryVersioner.MarkFrontiersOf` | eddpre/EMemoryAliasAnalyze.java:122-125 | every frontier of the block is marked, marks only grow, and the marked set stays closed under frontiers |
| `MemoryVersioning.MemoryVersioner.SetOffset` | eddpre/EMemoryAliasAnalyze.java:108-130 | every dominance frontier of a block holding a store or a call is marked, and the marked set is closed under frontiers |
| `MemoryVersioning.MemoryVersioner.VersionInstr` | eddpre/EMemoryAliasAnalyze.java:183-252 | the instruction is unchanged once annulled and a PHI is untouched; every MEM it reads carries the version on top of the stack; a CALL takes the next version, recorded for its position, and a store to memory the one after, which its destination carries; the k-th memory parameter of a PROLOGUE takes the counter's old value plus k; exactly those versions are pushed, in order |
| `MemoryVersioning.MemoryVersioner.VersionOperands` | eddpre/EMemoryAliasAnalyze.java:184-252 | for an instruction other than PROLOGUE: what it reads carries the top of the stack, a CALL takes and records the next version, and the memory a store or CALL defines carries the version after it; both are pushed |
| `MemoryVersioning.MemoryVersioner.DefineMem` | eddpre/EMemoryAliasAnalyze.java:233-252 | a store, or a CALL whose first result is memory, gets the next version on the memory it defines, pushed on the stack; any other instruction is left as it is and nothing is pushed |
| `MemoryVersioning.MemoryVersioner.RecordCall` | eddpre/EMemoryAliasAnalyze.java:198-202 | the CALL's version is the counter's old value, it is pushed and recorded for the CALL's position |
| `MemoryVersioning.MemoryVersioner.PushFresh` | eddpre/EMemoryAliasAnalyze.java:236-251 | a fresh version is handed out and pushed |
| `MemoryVersioning.MemoryVersioner.VersionPrologue` | eddpre/EMemoryAliasAnalyze.java:220-231 | the k-th memory parameter (counting from 0) carries the counter's old value plus k, the counter moves past exactly the memory parameters, those versions are pushed in order, and the PROLOGUE is unchanged once annulled |
| `MemoryVersioning.MemoryVersioner.VersionBlock` | eddpre/EMemoryAliasAnalyze.java:182-253 | the block's instructions are versioned in order, each as `VersionInstr` states with the top of the stack the earlier instructions left; the versions handed out are pushed, every CALL's version is recorded, and no other block changes |
| `MemoryVersioning.MemoryVersioner.VisitBlock` | eddpre/EMemoryAliasAnalyze.java:171-255 | a merge block first pushes a fresh version, then the instructions are versioned as `VersionBlock` states; the entry rank becomes the last version handed out before the instructions and the exit rank the last one after them; the stack grows by exactly the versions handed out |
| `MemoryVersioning.MemoryVersioner.EnterBlock` | eddpre/EMemoryAliasAnalyze.java:172-180 | a merge block pushes one fresh version and any other block none; the entry rank becomes the last version handed out |
| `MemoryVersioning.MemoryVersioner.LeaveBlock` | eddpre/EMemoryAliasAnalyze.java:255 | the exit rank becomes the last version handed out, and the entry rank stays at or below it |
| `MemoryVersioning.MemoryVersioner.MarkMem` | eddpre/EMemoryAliasAnalyze.java:171-267 | after walking the subtree of the block: the block is recorded as entered with the top of the stack and the counter it found, every earlier record is kept, every block newly visited lies in the dominator subtree of the block and had all its dominator kids visited, the record of the walk holds for the current code and ranks, and the stack is as it was |
| `MemoryVersioning.MemoryVersioner.MarkKids` | eddpre/EMemoryAliasAnalyze.java:259-261 | every dominator kid of the block is visited, each entered with the stack the block left; earlier records are kept and every block newly visited lies in the block's subtree |
| `MemoryVersioning.MemoryVersioner.MarkKid` | eddpre/EMemoryAliasAnalyze.java:259-261 | visiting one more kid keeps every earlier record and extends the visited kids by that kid, whose subtree holds every block newly visited |
| `MemoryVersioning.MemoryVersioner.KidFresh` | eddpre/EMemoryAliasAnalyze.java:259-261 | the next kid to visit has not been visited and dominates no visited block, because each block is the dominator kid of its immediate dominator only |
| `MemoryVersioning.WalkedShape` | eddpre/EMemoryAliasAnalyze.java:171-267 | a walked function keeps the annulled form of every instruction, so versioning changes only versions |
| `MemoryVersioning.MemoryVersioner.PopVersions` | eddpre/EMemoryAliasAnalyze.java:264-266 | exactly the given number of versions is popped off the top |
| `MemoryVersioning.MemoryVersioner.GetIndexWalked` | eddpre/EMemoryAliasAnalyze.java:294-296 | for a visited block, `GetIndex` answers the last version handed out by the end of its instructions, which is the version on top of the stack as the walk leaves the block whenever the block handed out any version |
| `MemoryVersioning.MemoryVersioner.GetIndexIssued` | eddpre/EMemoryAliasAnalyze.java:294-296 | the version leaving a block was handed out |
| `MemoryVersioning.MemoryVersioner.BlkRankIn` | eddpre/EMemoryAliasAnalyze.java:99-101 | the entry rank of a block was handed out and is not above its exit rank; for a visited block it is the version a merge block pushed on entry, and otherwise the last version handed out before the block |
| `MemoryVersioning.MemoryVersioner.MakeNewMem` | eddpre/EMemoryAliasAnalyze.java:299-304 | the copy has the same type and address and, as its version, the counter's old value, which was never handed out; the counter moves past it, and the copy is the original MEM once annulled |
| `MemoryVersioning.MemoryVersioner.CallThreshold` | eddpre/EMemoryAliasAnalyze.java:156-165 | the answer is not -1 exactly when the position holds a CALL with a recorded version, and then it is that version; for a CALL of a block the walk visited, it is the version that CALL took when the walk reached it |
| `MemoryVersioning.MemoryVersioner.CallOf` | eddpre/EMemoryAliasAnalyze.java:197-199 | a CALL of a visited block stays a CALL, and the version kept for its position is the one the walk handed it |
| `MemoryVersioning.MemoryVersioner.Annul` | eddpre/EMemoryAliasAnalyze.java:311-320 | the function's code becomes its annulled form |
| `MemoryVersioning.MemoryVersioner.AnnulBlock` | eddpre/EMemoryAliasAnalyze.java:314-317 | each instruction of the block is annulled, and none carries a version afterwards |
| `ValueNumbering.PhiCount` | gvn/GVN.java:499-501 | the count covers exactly the leading PHI instructions of a block: all before it are PHIs and the one at it is not |
| `ValueNumbering.RewrittenFromTrans` | gvn/GVN.java:525-580 | rewrites allowed by the numbering compose: two rounds of rewriting are one rewriting |
| `ValueNumbering.NoEliminationInMode3` | gvn/GVN.java:557-567 | in elimination mode 3 the numbering cannot change the code |
| `ValueNumbering.BlockRewritten` | gvn/GVN.java:525-580 | rewriting one block instruction by instruction as allowed rewrites the code as allowed |
| `ValueNumbering.BlockNumberedKept` | gvn/GVN.java:525-580 | once a block's destinations are numbered they stay numbered through later rewriting and a growing table |
| `ValueNumbering.DependOperands` | gvn/GVN.java:654-678 | the operands whose dependence an instruction inherits are the PHI argument values, the leaf source of a SET, or the operands of its compound source, and none for other instructions |
| `ValueNumbering.Gvn.constructor` | gvn/GVN.java:43-50 | a new numbering starts with number 0, no table entries, no holders and nothing reachable in any block |
| `ValueNumbering.Gvn.NewValue` | gvn/GVN.java:132-135 | the new number is one above the last, never handed out before, and above every earlier number |
| `ValueNumbering.Gvn.GetMaximumValue` | gvn/GVN.java:124-126 | no handed-out number exceeds the maximum, and the maximum was handed out whenever any was |
| `ValueNumbering.Gvn.SameArgVal` | gvn/GVN.java:593-599 | true exactly when every argument of the PHI value expression carries the same number |
| `ValueNumbering.Gvn.GetValue` | gvn/GVN.java:217-221 | -1 exactly when the expression has no entry and is not a PHI whose arguments agree; such a PHI gets its arguments' number, otherwise the entry is returned |
| `ValueNumbering.Gvn.SetValue` | gvn/GVN.java:169-173 | the expression's entry becomes the number, a non-register leaf becomes the constant of that number, and no other entry changes |
| `ValueNumbering.Gvn.GetVariable` | gvn/GVN.java:349-353 | a holder is found exactly when the block holds the number |
| `ValueNumbering.Gvn.SetValueRecordBlkVal` | gvn/GVN.java:155-162 | the expression gets the number, becomes its holder in the block and the number reaches the block; no other block changes |
| `ValueNumbering.Gvn.NewValueFor` | gvn/GVN.java:142-146 | a fresh number is recorded for the expression and held and reached in the block, and the assumption tables are untouched |
| `ValueNumbering.Gvn.SetValuePair` | gvn/GVN.java:175-183 | both sides of the SET carry the number, no other entry changes, and no other block's holders or reachable numbers change |
| `ValueNumbering.Gvn.SetValueIn` | gvn/GVN.java:185-209 | the variable carries the number; a register becomes its holder when the block had no register holder, a leaf constant always does, a compound expression never touches the holder tables |
| `ValueNumbering.Gvn.ScanForDefinition` | gvn/GVN.java:190-202 | the backward scan either leaves the tables alone or records the one variable it settles on as holder of the number |
| `ValueNumbering.Gvn.RemoveValuePair` | gvn/GVN.java:227-230 | both expressions lose their entries and neither stays holder of the number; other blocks are unchanged |
| `ValueNumbering.Gvn.RemoveValueIn` | gvn/GVN.java:232-239 | the expression loses its entry, and its holder slot in the block goes exactly when it was the holder |
| `ValueNumbering.Gvn.RemoveValueFromBlkMap` | gvn/GVN.java:241-247 | the holder of the number is removed exactly when it is the given expression |
| `ValueNumbering.Gvn.UpdateBlkVariableMap` | gvn/GVN.java:355-358 | afterwards the block's holders are exactly those of the given table |
| `ValueNumbering.Gvn.CheckReachability` | gvn/GVN.java:360-363 | true exactly when the number is reachable at the block |
| `ValueNumbering.Gvn.DeleteReachableValues` | gvn/GVN.java:375-377 | no number reaches the block afterwards and no other block changes |
| `ValueNumbering.Gvn.RecordReachableValues` | gvn/GVN.java:365-373 | the block gains exactly the numbers reaching its predecessors, so each predecessor's set is included in it |
| `ValueNumbering.Gvn.UpdateReachableValues` | gvn/GVN.java:379-387 | the block keeps its numbers and gains the given ones and its predecessors'; no other block changes |
| `ValueNumbering.Gvn.LeafValue` | gvn/GVN.java:419-423 | a leaf with an entry keeps its number; one without gets a fresh number; entries and assumptions are never lost |
| `ValueNumbering.Gvn.MakeVExp` | gvn/GVN.java:401-436 | a CALL has no value expression, a SET with a leaf source is its source, a leaf becomes the constant of its number (fresh when it had none), and no entry or assumption is lost |
| `ValueNumbering.Gvn.PhiVExp` | gvn/GVN.java:403-410 | the PHI value expression has the block as its first operand and one number constant per argument |
| `ValueNumbering.Gvn.DetermineValue` | gvn/GVN.java:389-395 | every instruction gets a number; a CALL result always gets a fresh one and becomes its holder in the block |
| `ValueNumbering.Gvn.PrologueHit` | gvn/GVN.java:484-491 | a hit is a register parameter of the PROLOGUE carrying the number; no hit means no parameter from that position on carries it |
| `ValueNumbering.Gvn.ScanBackFinds` | gvn/GVN.java:453-495 | the backward scan finds nothing exactly when no scanned instruction offers a holder, and what it finds is offered by one of them |
| `ValueNumbering.Gvn.PrologueVar` | gvn/GVN.java:484-491 | the method finds the first PROLOGUE parameter carrying the number, as the reference scan defines |
| `ValueNumbering.Gvn.GetLocalVar` | gvn/GVN.java:453-495 | the loop's answer is the reference backward scan from the given position |
| `ValueNumbering.Gvn.LocalStop` | gvn/GVN.java:458-483 | the stop decision for one instruction is the reference one |
| `ValueNumbering.Gvn.GetReachVar` | gvn/GVN.java:438-447 | a local holder wins; otherwise the holder in the nearest dominator holding the number; nothing exactly when no dominator holds it; every answer holds the number at that point |
| `ValueNumbering.Gvn.ValueNumberToVariable` | gvn/GVN.java:249-272 | the rebuilt expression has the value expression's operator and arity, keeps non-register operands and uses a holder for each register operand; it succeeds whenever every register operand has a constant or a reaching holder |
| `ValueNumbering.Gvn.PhiTargetForFinds` | gvn/GVN.java:306-330 | a target is found exactly when some leading PHI has an argument carrying the number, and it is that PHI's target |
| `ValueNumbering.Gvn.ArgCarriesVal` | gvn/GVN.java:315-322 | true exactly when some argument of the PHI carries the number |
| `ValueNumbering.Gvn.MakeNewValueExpSucc` | gvn/GVN.java:306-330 | translating into a successor keeps the operator and arity, keeps non-register leaves and maps each register operand through the successor's PHIs |
| `ValueNumbering.Gvn.SuccPhiTarget` | gvn/GVN.java:310-324 | the loop returns the reference PHI target |
| `ValueNumbering.Gvn.PredArg` | gvn/GVN.java:285-296 | the answer is the first PHI argument from the predecessor, and none means no argument comes from it |
| `ValueNumbering.Gvn.ArgValue` | gvn/GVN.java:287-291 | the argument's number is its entry, or a fresh one for a constant without one; -1 only for a non-constant without an entry, and then nothing changes |
| `ValueNumbering.Gvn.PredOperand` | gvn/GVN.java:278-298 | a translated operand is the predecessor argument's number of a leading PHI whose target carries the operand; without one nothing changes |
| `ValueNumbering.Gvn.MakeNewValueExpPred` | gvn/GVN.java:274-304 | translating into a predecessor keeps operator and arity and non-register leaves, and changes a register operand only through a PHI argument from that predecessor |
| `ValueNumbering.Gvn.ScanPhiArgs` | gvn/GVN.java:502-508 | the scan of one PHI succeeds exactly when all its unnumbered arguments come along back edges, and then reports whether it has one |
| `ValueNumbering.Gvn.CheckPhiArg` | gvn/GVN.java:497-511 | true exactly when some leading PHI has an unnumbered argument and every such argument comes along a back edge |
| `ValueNumbering.Gvn.DependList` | gvn/GVN.java:702-709 | the registered dependants of a target, and none when it has no entry |
| `ValueNumbering.Gvn.AddDependMap` | gvn/GVN.java:680-685 | the destination now depends on the PHI target at the root of the operand's dependence |
| `ValueNumbering.Gvn.AddDependList` | gvn/GVN.java:691-700 | the instruction is appended to the dependants of that root target |
| `ValueNumbering.Gvn.DependOn` | gvn/GVN.java:657-660 | when the operand is or depends on an optimistic PHI both dependence tables gain the entry, and otherwise neither changes |
| `ValueNumbering.Gvn.CheckDependPhi` | gvn/GVN.java:654-678 | the instruction is registered as a dependant exactly when one of its operands depends on an optimistic PHI, and only its destination's dependence can change |
| `ValueNumbering.Gvn.CheckAssum` | gvn/GVN.java:626-632 | the assumption holds exactly when there is none or its equal carries the new number; a failed one is withdrawn, shrinking the assumption table |
| `ValueNumbering.Gvn.Recheck` | gvn/GVN.java:641-649 | a dependant is renumbered; assumptions are only withdrawn, and the worklist grows only when one is |
| `ValueNumbering.Gvn.ReCompVal` | gvn/GVN.java:634-652 | rechecking terminates, keeps the dependence tables, and only withdraws assumptions |
| `ValueNumbering.Gvn.PhiValStep` | gvn/GVN.java:614-620 | one renumbered instruction either withdraws an assumption, shrinking the table, or leaves it alone |
| `ValueNumbering.Gvn.CheckPhiVal` | gvn/GVN.java:609-624 | the repeated passes terminate and only withdraw assumptions |
| `ValueNumbering.Gvn.RecordReachValue` | gvn/GVN.java:116-122 | reachable sets only grow, only inside the block's dominator subtree, and the block includes its predecessors' |
| `ValueNumbering.Gvn.NumberPrologue` | gvn/GVN.java:530-537 | every register parameter of the PROLOGUE is numbered |
| `ValueNumbering.Gvn.NumberPhi` | gvn/GVN.java:540-551 | the PHI target is numbered and holds its number in the block; numbering optimistically records an assumption for it, pessimistically none |
| `ValueNumbering.Gvn.LocalEliminate` | gvn/GVN.java:557-571 | only the SET at the position can change: when the mode allows it (compound source; not a load in mode 2; never in mode 3) and its number already has a local holder, its source becomes that holder, and otherwise it stays; the local table then names the register destination, or a store's source, as the holder of the number |
| `ValueNumbering.Gvn.RecordSet` | gvn/GVN.java:572-576 | the SET's destinations are numbered; a register destination holds the number, and a constant source becomes the holder instead |
| `ValueNumbering.Gvn.NumberSet` | gvn/GVN.java:555-577 | a register SET's destination gets the SET's number; numbering pessimistically, the SET is rewritten against the local table exactly as `LocalEliminate` states, so a replaced source is the holder of the same number; numbering optimistically, the code and the local table stay |
| `ValueNumbering.Gvn.NumberInstr` | gvn/GVN.java:529-577 | one instruction's destinations are numbered; numbering pessimistically, a SET is rewritten against the local table with the number it was given, which is its destination's number, and the table gains its holder; numbering optimistically the code stays and every PHI gets an assumption |
| `ValueNumbering.Gvn.NumberNext` | gvn/GVN.java:528-578 | numbering the next instruction of the block extends the numbered prefix by one: earlier instructions keep their rewriting, destinations and local table |
| `ValueNumbering.NumberedUpToStep` | gvn/GVN.java:528-578 | an instruction numbered as `NumberInstr` states carries the numbered prefix of the block, its local table and its destinations one instruction further |
| `ValueNumbering.PrefixDestsInStep` | gvn/GVN.java:528-578 | destinations numbered earlier stay numbered as the table grows, and one more numbered instruction extends the numbered prefix |
| `ValueNumbering.Gvn.NumberInstrs` | gvn/GVN.java:528-578 | every instruction of the block has its destinations numbered and only this block changes; numbering pessimistically, each instruction is rewritten against the local table of the instructions before it, with the number recorded for it; numbering optimistically the code stays and every PHI has an assumption |
| `ValueNumbering.Gvn.Numbering` | gvn/GVN.java:525-580 | the block is rewritten only as the mode allows and, numbering pessimistically, each instruction exactly against the local table of those before it; every destination in it is numbered, optimistic numbering changes no code, and the numbers reaching each predecessor reach the block |
| `ValueNumbering.LocalHoldersLatest` | gvn/GVN.java:557-571 | a number has a holder in the local table exactly when an earlier SET of the block was given that number and defined one, and the holder is the one the latest such SET defined |
| `ValueNumbering.LocallyEliminatedRewritten` | gvn/GVN.java:557-571 | a block rewritten against its local tables only has sources replaced by variables defined earlier in the block |
| `ValueNumbering.Gvn.TraverseDomTree` | gvn/GVN.java:513-523 | optimistic numbering of a dominator subtree leaves the code unchanged and numbers the block |
| `ValueNumbering.Gvn.Reset` | gvn/GVN.java:94-104 | every table is empty and the numbers restart |
| `ValueNumbering.Gvn.VisitBlock` | gvn/GVN.java:105-112 | after the optional optimistic round, the block is numbered pessimistically: only this block changes, each of its instructions is rewritten against the local table of those before it with the number recorded for it, and every destination in it is numbered |
| `ValueNumbering.Gvn.Run` | gvn/GVN.java:91-113 | the code is memory-versioned, then every reverse-postorder block is rewritten against its local tables with the numbers recorded for it (a replaced source is the latest earlier holder of the same number) and ends numbered, every other block keeps its versioned code, and no assumption is left failed |
| `ValueNumbering.Gvn.DoIt` | gvn/GVN.java:73-79 | the pass versions the code, numbers it in mode 1, replacing each compound source whose number an earlier SET of the block holds by that holder, and removes the versions again |
| `EqpQuery.RecordResult` | eddpre/EQP.java:473-480 | the block has answered the number afterwards, every earlier answer is kept, no other answer appears and nothing else changes |
| `EqpQuery.RecordAvail` | eddpre/EQP.java:488-490 | the number becomes the only one available at the block; other blocks keep theirs |
| `EqpQuery.RecordIsReal` | eddpre/EQP.java:516-523 | the number is recorded as really computed at the block, and earlier records stay |
| `EqpQuery.RecordIsSelf` | eddpre/EQP.java:533-540 | the number is recorded as made available by the original SET, and earlier records stay |
| `EqpQuery.RecordAnswer` | eddpre/EQP.java:351-353 | a yes answer makes the number available at the block and, as asked, real and self; the memo only advances and the visited blocks are untouched |
| `EqpQuery.WithBlkVal` | eddpre/EQP.java:325 | the number asked of the block is recorded, other blocks keep theirs |
| `EqpQuery.RecordNewNode` | eddpre/EQP.java:756 | the block's received node is recorded and other blocks keep theirs |
| `EqpQuery.RecordVisited` | eddpre/EQP.java:553-555 | the block is marked asked with exactly this number; other asked blocks keep theirs |
| `EqpQuery.AddNode` | eddpre/EQP.java:680-682 | the node is appended to the nodes to insert and assigned to the block; nothing else in the question changes |
| `EqpQuery.MoveNode` | eddpre/EQP.java:428-445 | a node to insert is taken out of its place and appended again, in the given block; nothing else changes |
| `EqpQuery.ReplaceNode` | eddpre/EQP.java:778-782 | the node to insert at the index is replaced by the new one, which is assigned to the block; no earlier assignment is lost |
| `EqpQuery.EmptyQuery` | eddpre/EQP.java:162-174 | a new question from a block has nothing asked, answered, available or to insert |
| `Eqp.Without` | eddpre/EQP.java:811-817 | unlinking keeps exactly the instructions that do not define the variable |
| `Eqp.PhiArgs` | eddpre/EQP.java:564-567 | a new phi has one argument per predecessor, in order, each naming that predecessor and carrying the target |
| `Eqp.Drop` | eddpre/EQP.java:675-677 | removing a node keeps exactly the other elements |
| `Eqp.FirstNonPhi` | eddpre/EQP.java:727-735 | the position found is the first instruction that is not a PHI; none means the block holds PHIs only |
| `Eqp.InsertAfterPhisPlaces` | eddpre/EQP.java:727-735 | `insert` puts the node after every leading PHI, keeps every other instruction in order, adds nothing else, and leaves a block of PHIs only unchanged |
| `Eqp.Eqp.constructor` | eddpre/EQP.java:119-130 | after setup the numbering is empty, a block is killing exactly when it is reached in reverse postorder and holds a CALL or a store, every phi target is collected, and every collected register is a phi target or a register SET from a collected operand |
| `Eqp.Eqp.CollectInformation` | eddpre/EQP.java:138-159 | the killing blocks are exactly those in reverse postorder that hold a CALL or a store; every phi target is collected and nothing is collected without a reason |
| `Eqp.Eqp.CollectBlock` | eddpre/EQP.java:141-157 | one block becomes killing exactly when it holds a CALL or a store, its phi targets are collected, and no other block's flag changes |
| `Eqp.Eqp.CollectInstrs` | eddpre/EQP.java:141-157 | the scan reports a CALL or store exactly when the block has one, collects its phi targets, and only grows the collected set with justified registers |
| `Eqp.Eqp.CollectInstr` | eddpre/EQP.java:142-156 | one instruction kills exactly when it is a CALL or a store, and a phi target is always collected |
| `Eqp.Eqp.HasCollectedOperand` | eddpre/EQP.java:146-155 | true exactly when a direct operand of the source was collected |
| `Eqp.Eqp.DependPhi` | eddpre/EQP.java:601-610 | true exactly when a collected register is reached from the expression through non-register children |
| `Eqp.Eqp.DependPhiFrom` | eddpre/EQP.java:602-608 | the same question over the children from a given one on |
| `Eqp.Eqp.SetVarsToGCM` | eddpre/EQP.java:162-174 | the question state becomes the empty question from the block |
| `Eqp.Eqp.CheckMemKill` | eddpre/EQP.java:385-397 | true exactly when some instruction of the block computes the number with no CALL or store after it |
| `Eqp.Eqp.CheckHolds` | eddpre/EQP.java:363 | the block holds the number, and for a load in a killing block the number is computed after the last CALL or store |
| `Eqp.Eqp.GetVarLocal` | eddpre/EQP.java:612-633 | nothing exactly when no instruction up to the position carries the number or was inserted; otherwise the variable of the nearest such instruction |
| `Eqp.Eqp.GetVar` | eddpre/EQP.java:643-662 | any variable returned is offered by a local instruction at or before the position or by a holder on the dominator chain; with a position, a local instruction carrying the number in a block that holds it or received an insertion is always found; otherwise the answer is exactly what the walk up the dominator chain from the immediate dominator (from the block itself without a position) finds: the holder of the recorded number at the first block holding it, or the node inserted there, stopping with nothing where the number was not available |
| `Eqp.Eqp.ExistDomBlk` | eddpre/EQP.java:451-464 | true exactly when, from every predecessor, the dominator chain asked for the number reaches a holder dominating the block before any block that received an inserted node |
| `Eqp.Eqp.ChainFrom` | eddpre/EQP.java:454-461 | the loop up the dominator tree answers the chain condition for one predecessor |
| `Eqp.Eqp.ChainHoldsDominator` | eddpre/EQP.java:451-464 | an accepted chain ends at a block that holds the number and dominates both the predecessor and the block, so no phi is needed |
| `Eqp.Eqp.InsertCode` | eddpre/EQP.java:763-766 | the node is spliced in at the position, every other instruction is kept and the current instruction does not move |
| `Eqp.Eqp.Cancel` | eddpre/EQP.java:811-817 | exactly the SETs and PHIs defining the variable are removed from the block, and the current instruction survives unless it is one of them |
| `Eqp.Eqp.CancelInsertNode` | eddpre/EQP.java:820-830 | afterwards no inserted node's variable has a number and no instruction of its block defines it; the instruction `eliminate` is at stays when it defines none of those variables |
| `Eqp.Eqp.CancelNode` | eddpre/EQP.java:821-829 | one node is cancelled, nodes cancelled before stay cancelled, and the instruction `eliminate` is at stays unless it defines that node's variable |
| `Eqp.Eqp.CreateNewVar` | eddpre/EQP.java:558-561 | the new register has the given type and a symbol never used before |
| `Eqp.Eqp.NewPhi` | eddpre/EQP.java:564-567 | the new phi targets a fresh register and has one argument per predecessor |
| `Eqp.Eqp.InsertTempNewNode` | eddpre/EQP.java:400-409 | a block that already received a node is left alone; otherwise the SET, retargeted to a fresh temporary (and a load given a fresh memory version), becomes the last node to insert in the block and its temporary gets the number |
| `Eqp.Eqp.FreshTemp` | eddpre/EQP.java:402-404 | the SET keeps its source (a load keeps its address) and writes a fresh temporary of the destination's type |
| `Eqp.Eqp.InsertTempNewNodes` | eddpre/EQP.java:412-420 | every blocked predecessor with a remembered SET receives a node to insert, and only the insertion lists change |
| `Eqp.Eqp.InsertStored` | eddpre/EQP.java:414-418 | the blocked predecessor receives a node to insert when one is remembered for it |
| `Eqp.Eqp.FindTempPhi` | eddpre/EQP.java:428-430 | the index found is the first phi to insert whose label names the block; none means there is no such phi |
| `Eqp.Eqp.InsertNewTempPhi` | eddpre/EQP.java:423-448 | a phi is placed exactly when some predecessor's dominator chain does not hold the number, and then the last node to insert is a phi of the block numbered as asked; otherwise nothing changes |
| `Eqp.Eqp.PlaceTempPhi` | eddpre/EQP.java:425-446 | the last node to insert is a phi of the block whose target carries the number |
| `Eqp.Eqp.TempPhi` | eddpre/EQP.java:427-444 | the phi is the last node to insert, in the block |
| `Eqp.Eqp.MoveTempPhi` | eddpre/EQP.java:429-434 | the existing phi is moved to the end in the block and its target loses its number |
| `Eqp.Eqp.TranslateToPred` | eddpre/EQP.java:276-290 | for a load the SET's memory version becomes the version leaving the predecessor, otherwise the SET is unchanged; a rebuilt source keeps the value expression's operator |
| `Eqp.Eqp.VersionAtPred` | eddpre/EQP.java:278-283 | the load's memory version becomes the one leaving the predecessor |
| `Eqp.Eqp.RenameAtPred` | eddpre/EQP.java:285-290 | a rebuilt source keeps the translated value expression's operator |
| `Eqp.Eqp.NumberAtPred` | eddpre/EQP.java:295-317 | the SET asked of the predecessor keeps its destination, and the number reported is that of the translated value expression |
| `Eqp.Eqp.NumberAfresh` | eddpre/EQP.java:300-317 | a translated expression without a number gets one, and the number reported is its number |
| `Eqp.Eqp.PredStep` | eddpre/EQP.java:272-335 | one predecessor's step only advances the memo, keeps the SET's destination, answers no when the question cannot be rebuilt, and counts real or self answers only among yes answers |
| `Eqp.Eqp.AskPred` | eddpre/EQP.java:319-327 | a block asked before answers from the memo without changing it (its recorded availability, or whether it is being asked the same number); a new block is marked asked with the number and records it as answered |
| `Eqp.Eqp.Local` | eddpre/EQP.java:360-375 | the block ends marked asked with the number and has answered it, and the set of unasked blocks shrinks |
| `Eqp.Eqp.LocalAnswer` | eddpre/EQP.java:362-372 | a block holding the number answers yes, available and real; a load in a killing block without it answers no; so does the questioning block, or one the number neither reaches nor depends on a phi |
| `Eqp.Eqp.Propagate` | eddpre/EQP.java:265-357 | the block has always answered the number afterwards, the memo only advances, and a yes means the number is available at the block |
| `Eqp.Eqp.AskPreds` | eddpre/EQP.java:271-336 | when every predecessor could be asked, the yes answers and the blocked predecessors together are all the predecessors, and real answers are among the yes ones |
| `Eqp.Eqp.Conclude` | eddpre/EQP.java:337-356 | no yes, or blocked predecessors without a real answer, give no; a yes makes the number available, real when some answer was real or the block merges paths, and self when every answer was |
| `Eqp.Eqp.Place` | eddpre/EQP.java:340-350 | placement fails without a yes or when blocked predecessors had no real answer; when down-safety is asked for (mode 2 unless every predecessor answered with the SET itself, and mode 3) and insertion is needed, success comes with a witness that the number is computed on every path from the block; with no blocked predecessor and no down-safety needed, a yes always succeeds; only the insertion lists change |
| `Eqp.Eqp.InsertAll` | eddpre/EQP.java:341-345 | a refusal happens only when down-safety was asked for, and then leaves the question unchanged; a success under down-safety comes with a witness that the block holds the number or that all its successors answer yes as a whole; otherwise only insertion lists change |
| `Eqp.Eqp.InsertPhi` | eddpre/EQP.java:346-350 | a refusal happens only when down-safety was asked for, and then leaves the question unchanged; a success under down-safety comes with a witness that the block holds the number or that all its successors answer yes as a whole; otherwise only insertion lists change |
| `Eqp.Eqp.Replace` | eddpre/EQP.java:716-724 | only the current instruction changes: its source becomes the variable of the holder |
| `Eqp.Eqp.Insert` | eddpre/EQP.java:727-735 | the block becomes the node inserted after its leading PHIs, and the current instruction is unchanged |
| `Eqp.Eqp.InsertNewPhi` | eddpre/EQP.java:769-783 | the filled phi keeps the target and the arity and replaces the node in the same block; on success every argument holds a variable offered by a dominator of its predecessor |
| `Eqp.Eqp.FillPhi` | eddpre/EQP.java:770-779 | each argument keeps its predecessor label, and on success holds a variable offered by a dominator of that predecessor |
| `Eqp.Eqp.PlaceNode` | eddpre/EQP.java:746-756 | the node goes into its block's code and the block is recorded as having received it; no instruction is lost |
| `Eqp.Eqp.ChangeNameNewNodes` | eddpre/EQP.java:744-760 | on success every node to insert is in the code of its block and that block is recorded; no instruction is lost and the current one does not move |
| `Eqp.Eqp.NumberNewNode` | eddpre/EQP.java:792-805 | a renumbered node's variable and its value expression carry the same number, a fresh one when the expression had none, and only a phi can ask for another round |
| `Eqp.Eqp.Renumber` | eddpre/EQP.java:799-804 | the variable and its value expression end with the same number: the given one, or a fresh one exactly when none was given |
| `Eqp.Eqp.NewNodesNumbering` | eddpre/EQP.java:786-808 | the numbering rounds terminate and keep the state well formed |
| `Eqp.Eqp.ChangeProg` | eddpre/EQP.java:701-713 | without a holder nothing changes; with one, the holder is offered at that point, the SET reads its variable, the new number is the holder's, and the SET's old entries are dropped when the number changed |
| `Eqp.Eqp.RecordDefined` | eddpre/EQP.java:187-202 | every variable a PHI, CALL result or PROLOGUE parameter defines is recorded with its number, every new entry comes from the instruction, and other instructions record nothing |
| `Eqp.Eqp.RecordParams` | eddpre/EQP.java:195-201 | every register parameter is recorded with its number, and every new entry is one of them |
| `Eqp.Eqp.NumberSet` | eddpre/EQP.java:205-222 | a SET with a value expression always ends with a number, which for a register SET is its value expression's |
| `Eqp.Eqp.NumberStore` | eddpre/EQP.java:209-214 | a store without a number gets a fresh one |
| `Eqp.Eqp.NumberMemory` | eddpre/EQP.java:210-214 | the versioned memory gets a fresh number and the value expression loses its entry |
| `Eqp.Eqp.NumberAssign` | eddpre/EQP.java:216-220 | the destination and the value expression get the same fresh number |
| `Eqp.Eqp.Reuse` | eddpre/EQP.java:224-233 | when the mode allows it the SET reads the block's holder of its number, and the holder table then names the SET's own holder; otherwise the code is unchanged |
| `Eqp.Eqp.Question` | eddpre/EQP.java:243-257 | the SET ends with a number; when it now reads a register (a holder was found whose variable is a register) it keeps reading it and the question's nodes join the inserted set; otherwise every node of the question is undone, the inserted set is unchanged, and the SET stays as the question left it (reading the holder's variable, or untouched when no holder was found) unless it defines one of the question's temporaries |
| `Eqp.Eqp.Ask` | eddpre/EQP.java:243-251 | the SET ends with a number, and reads the variable of the holder found or, when the question found none, is unchanged |
| `Eqp.Eqp.Pose` | eddpre/EQP.java:243-248 | a new question from the block; a yes means the number is available at the block |
| `Eqp.Eqp.Rename` | eddpre/EQP.java:248-250 | the SET ends with a number, and reads the variable of the holder `changeProg` found or, when the inserted nodes could not all be placed or no holder was found, is unchanged |
| `Eqp.Eqp.Settle` | eddpre/EQP.java:256-257 | when the SET now reads a register the question's nodes join the inserted set and the SET stays; otherwise every one of them is cancelled, and the SET stays unless it defines one of their temporaries |
| `Eqp.Eqp.EliminateSet` | eddpre/EQP.java:203-257 | a SET without a value expression leaves the code alone; when its number is already held in the block, a source the mode lets `eliminate` replace (compound, and not a load in mode 2) now reads that holder, and any other source stays; a new number with a leaf source, or a load after a CALL or store or in modes 2 and 3, becomes the holder and the code stays; a load in modes 2 and 3 never changes the code; any other new number is asked of the predecessors, with the outcome `Settled` describes: a SET that now reads a register (the variable of the holder found) keeps it and the question's nodes join the inserted set, and otherwise the question's nodes are undone and the SET stays as the question left it; the tables and the inserted set only grow |
| `Eqp.Eqp.EliminateStep` | eddpre/EQP.java:184-257 | the killed flag becomes set exactly when the instruction is a CALL or a store; an instruction other than a SET not inserted by an earlier question leaves the code alone; a SET is handled as `EliminateSet` states, including the question's outcome (`Settled`); the tables only grow |
| `Eqp.Eqp.EliminateBlock` | eddpre/EQP.java:180-260 | every number with a holder in the block afterwards reaches the block |
| `Eqp.Eqp.EliminateInstrs` | eddpre/EQP.java:184-258 | every number with a holder in the block is among the block's numbers |
| `Eqp.Eqp.Eliminate` | eddpre/EQP.java:177-262 | the walk over all blocks keeps the state well formed |
| `Eqp.Eqp.Invoke` | eddpre/EQP.java:110-116 | the final code is the eliminated code with its memory versions removed |
| `Eqp.Eqp.DoIt` | eddpre/EQP.java:96-101 | the pass runs `invoke` in mode 1, and the final code is the eliminated code with its memory versions removed |
| `Eqp.Eqp.CheckDSafe` | eddpre/EQP.java:570-581 | a block holding the number is down-safe; a yes otherwise means every successor was asked and every asked block holds its number or is not the exit and had all successors asked, which is the witness `Place` passes on |
| `Eqp.Eqp.CheckSuccs` | eddpre/EQP.java:573-580 | a yes means every successor was asked and the asked blocks stay closed; marks are never removed |
| `Eqp.Eqp.CheckDSafeFrom` | eddpre/EQP.java:584-598 | a holder is safe, the exit without the number is not, and a yes records the block with its number with the asked blocks closed |
| `ExhaustivePre.CompTransp` | exhaustivePre/PRE.java:200-206 | the backward scan answers exactly whether no instruction of the block kills the expression (reference predicate `Transp`) |
| `ExhaustivePre.CompNIsSame` | exhaustivePre/PRE.java:180-187 | the forward scan answers exactly whether some SET computes the expression before any kill of it (locally anticipable, `NIsSame`) |
| `ExhaustivePre.CompXIsSame` | exhaustivePre/PRE.java:190-197 | the backward scan answers exactly whether some SET computes the expression after every kill of it (locally available, `XIsSame`) |
| `ExhaustivePre.SameThrough` | exhaustivePre/PRE.java:180-206 | a transparent block that computes the expression before any kill also has it available at its exit |
| `ExhaustivePre.Trues` | exhaustivePre/PRE.java:214-236 | the count of true entries, the measure that makes the iterate-until-no-change loops terminate, never exceeds the vector length |
| `ExhaustivePre.TruesLe` | exhaustivePre/PRE.java:214-236 | a pointwise smaller boolean vector has no more true entries, strictly fewer when it differs |
| `ExhaustivePre.CrossMono` | exhaustivePre/PRE.java:219-231 | the block equations of every system are monotone in the vector they read |
| `ExhaustivePre.StepAbove` | exhaustivePre/PRE.java:231-234 | recomputing one block from values lying above their equations only lowers values and keeps every equation below the current values |
| `ExhaustivePre.StepAboveAt` | exhaustivePre/PRE.java:231-234 | the per-block half of the previous step: block `d`'s equations stay below its values after block `b` is recomputed |
| `ExhaustivePre.StepSolutions` | exhaustivePre/PRE.java:231-234 | recomputing one block keeps every solution of the system below the current values |
| `ExhaustivePre.SolvedExtend` | exhaustivePre/PRE.java:215-236 | in a pass that changes nothing, each visited block extends the prefix of the block order that satisfies its equations |
| `ExhaustivePre.SolvedAll` | exhaustivePre/PRE.java:215-236 | once every position of an order covering all blocks satisfies its equations, the whole system is solved |
| `ExhaustivePre.Order` | exhaustivePre/PRE.java:217 | a pass visits every block, and only blocks (the block list from its end for backward systems, from its start for forward ones) |
| `ExhaustivePre.Reversed` | exhaustivePre/PRE.java:217 | walking the block list from its end visits the same blocks in mirrored positions |
| `ExhaustivePre.CrossAt` | exhaustivePre/PRE.java:219-230 | the loop over successors (or predecessors) with early break yields exactly the block's cross equation |
| `ExhaustivePre.Recompute` | exhaustivePre/PRE.java:218-234 | recomputing one block keeps values above their equations and above every solution, only lowers them; `moved` means strictly fewer trues, no move means the block already satisfies its equations |
| `ExhaustivePre.Pass` | exhaustivePre/PRE.java:216-235 | a pass never raises the count of trues, lowers it when it reports a change, and a pass reporting no change leaves a solution |
| `ExhaustivePre.SolvedDSafe` | exhaustivePre/PRE.java:219-234 | a solution of the down-safety system satisfies `xDSafe = xIsSame or (not exit and all successors nDSafe)` and `nDSafe = nIsSame or (xDSafe and transp)` in every block |
| `ExhaustivePre.SolvedUSafe` | exhaustivePre/PRE.java:250-264 | a solution of the up-safety system satisfies `nUSafe = not entry and all predecessors xUSafe` and `xUSafe = xIsSame or (nUSafe and transp)` |
| `ExhaustivePre.SolvedDelayed` | exhaustivePre/PRE.java:304-319 | a solution of the delayedness system satisfies its entry equation (earliest, or every predecessor delayed and not computing at its exit) and its exit equation |
| `ExhaustivePre.SolvedIsolated` | exhaustivePre/PRE.java:359-372 | a solution of the isolation system satisfies its exit equation over the successors and its entry equation |
| `ExhaustivePre.Solve` | exhaustivePre/PRE.java:209-237 | starting from all true and repeating passes until none changes yields the greatest solution: a solution above every other solution |
| `ExhaustivePre.SomePredUnsafe` | exhaustivePre/PRE.java:280-286 | the predecessor loop answers exactly whether some predecessor is neither up-safe nor down-safe at its exit |
| `ExhaustivePre.SomeSuccUndelayed` | exhaustivePre/PRE.java:334-340 | the successor loop answers exactly whether some successor is not delayed at its entry |
| `ExhaustivePre.Earliest` | exhaustivePre/PRE.java:270-291 | entry-earliest holds exactly when the block is safe at its entry and is the entry block or has a predecessor unsafe at its exit; exit-earliest is down-safe at exit and (not transparent, or neither down-safe nor earliest at entry) |
| `ExhaustivePre.Latest` | exhaustivePre/PRE.java:325-346 | exit-latest holds exactly when delayed at exit and (computed there, or not the exit block with an undelayed successor); entry-latest is delayed at entry and (not delayed at exit, or computed at entry) |
| `ExhaustivePre.InsertPoints` | exhaustivePre/PRE.java:378-386 | an insertion point is exactly a block of the reverse postorder that is latest and not isolated |
| `ExhaustivePre.ReplacePoints` | exhaustivePre/PRE.java:389-397 | a replacement point is exactly a block of the reverse postorder computing the expression locally, unless it is both latest and isolated there |
| `ExhaustivePre.LocalProperty` | exhaustivePre/PRE.java:167-177 | each of the three vectors holds the reference local property for every block of the reverse postorder and false for any other block |
| `ExhaustivePre.LocalScanSource` | exhaustivePre/PRE.java:97-107 | local motion leaves either the original source or the destination of an earlier SET |
| `ExhaustivePre.LocalScanFound` | exhaustivePre/PRE.java:97-107 | the source is replaced only when an earlier SET computes it and nothing between kills it or writes one of its operand registers |
| `ExhaustivePre.LocalUpTo` | exhaustivePre/PRE.java:118-124 | local motion over a block keeps its length |
| `ExhaustivePre.LocalUpToShape` | exhaustivePre/PRE.java:115-126 | local motion changes nothing but the sources of the SETs it handles: operator, destination and arity of every instruction are kept |
| `ExhaustivePre.LocalAll` | exhaustivePre/PRE.java:115-126 | local motion over the blocks keeps the number of blocks |
| `ExhaustivePre.FirstHit` | exhaustivePre/PRE.java:421-431 | a hit is a SET of the expression with no kill of it from the start of the scan up to and including it |
| `ExhaustivePre.FirstHitIsSame` | exhaustivePre/PRE.java:419-431 | the entry scan of insertion finds a computation if and only if the expression is locally anticipable from that point |
| `ExhaustivePre.FirstNonPrologue` | exhaustivePre/PRE.java:434-440 | the result is the first instruction that is not a PROLOGUE, everything before it being one; none means all the rest are PROLOGUEs |
| `ExhaustivePre.EntryInsertPlaces` | exhaustivePre/PRE.java:419-443 | at a block entry, when the expression is computed before any kill the temporary goes right before that computation, whose source becomes the temporary's register; otherwise it goes after the leading PROLOGUEs, or nowhere when there are only PROLOGUEs |
| `ExhaustivePre.InsertAll` | exhaustivePre/PRE.java:414-450 | insertion over the blocks keeps the number of blocks |
| `ExhaustivePre.FirstReplace` | exhaustivePre/PRE.java:457-463 | the entry replacement target is a SET of the expression with no copy of the temporary before it |
| `ExhaustivePre.LastReplace` | exhaustivePre/PRE.java:466-472 | the exit replacement target is a SET of the expression with no copy of the temporary after it |
| `ExhaustivePre.Redirect` | exhaustivePre/PRE.java:461 | redirecting a SET keeps the block length |
| `ExhaustivePre.ReplaceBlock` | exhaustivePre/PRE.java:456-473 | replacement in one block keeps its length |
| `ExhaustivePre.ReplaceBlockRedirects` | exhaustivePre/PRE.java:453-475 | replacement changes only SETs of the expression, whose source becomes the temporary's register; a block with no replacement point is unchanged |
| `ExhaustivePre.ReplaceAll` | exhaustivePre/PRE.java:453-475 | replacement over the blocks keeps the number of blocks |
| `ExhaustivePre.EntryPosTracks` | exhaustivePre/PRE.java:426-437 | after an entry insertion every original instruction is found at its shifted index, unchanged or redirected to the temporary |
| `ExhaustivePre.ExitPosTracks` | exhaustivePre/PRE.java:444-447 | after an exit insertion every original instruction is found, unchanged, at its shifted index |
| `ExhaustivePre.InsertBlockPosTracks` | exhaustivePre/PRE.java:419-447 | after a block's insertions every original instruction is found at its computed new index, unchanged or redirected to the temporary |
| `ExhaustivePre.OriginTrans` | exhaustivePre/PRE.java:146-148 | "every instruction is an original one, the temporary, or an original SET redirected to the temporary" composes over successive rewrites |
| `ExhaustivePre.EntryOrigin` | exhaustivePre/PRE.java:419-443 | an entry insertion adds only the temporary and the redirected computation |
| `ExhaustivePre.InsertBlockOrigin` | exhaustivePre/PRE.java:419-447 | one block's insertions add only the temporary and redirected SETs |
| `ExhaustivePre.InsertAllOrigin` | exhaustivePre/PRE.java:414-450 | insertion adds to any block only the temporary and SETs redirected to its register |
| `ExhaustivePre.ReplaceAllOrigin` | exhaustivePre/PRE.java:453-475 | replacement only redirects sources to the temporary's register, in every block |
| `ExhaustivePre.ReplaceBlockOrigin` | exhaustivePre/PRE.java:456-473 | replacement in one block only redirects sources to the temporary's register |
| `ExhaustivePre.CandsShrink` | exhaustivePre/PRE.java:138-150 | handling one candidate strictly shrinks the set of sources global motion has left to handle, although the block grows, so the walk over a growing list ends |
| `ExhaustivePre.FindHit` | exhaustivePre/PRE.java:421-431 | the forward loop returns the reference first hit |
| `ExhaustivePre.FindNonPrologue` | exhaustivePre/PRE.java:434-440 | the loop returns the reference first non-PROLOGUE position |
| `ExhaustivePre.EntryInto` | exhaustivePre/PRE.java:419-443 | the entry insertion on one block yields the reference entry insertion |
| `ExhaustivePre.InsertInto` | exhaustivePre/PRE.java:419-447 | one block's insertions yield the reference block insertion |
| `ExhaustivePre.FindFirstReplace` | exhaustivePre/PRE.java:457-463 | the forward replacement loop returns the reference entry target |
| `ExhaustivePre.FindLastReplace` | exhaustivePre/PRE.java:466-472 | the backward replacement loop returns the reference exit target |
| `ExhaustivePre.Scan` | exhaustivePre/PRE.java:98-106 | the backward loop of local motion yields the reference local-motion source |
| `ExhaustivePre.Pre.constructor` | exhaustivePre/PRE.java:68-72 | the pass is bound to the function, the class invariant holds and temporaries are numbered from the given first symbol |
| `ExhaustivePre.Pre.CompLocalProperty` | exhaustivePre/PRE.java:167-177 | the three local-property fields hold the reference properties of the expression in every block |
| `ExhaustivePre.Pre.CompDSafe` | exhaustivePre/PRE.java:209-237 | the down-safety fields are the greatest solution of the down-safety equations |
| `ExhaustivePre.Pre.CompUSafe` | exhaustivePre/PRE.java:240-267 | the up-safety fields are the greatest solution of the up-safety equations |
| `ExhaustivePre.Pre.CompEarliest` | exhaustivePre/PRE.java:270-291 | the earliestness fields satisfy the earliestness equations, and exit-earliest implies down-safe at exit |
| `ExhaustivePre.Pre.CompDelayed` | exhaustivePre/PRE.java:294-322 | the delayedness fields are the greatest solution of the delayedness equations |
| `ExhaustivePre.Pre.CompLatest` | exhaustivePre/PRE.java:325-346 | the latestness fields satisfy the latestness equations, and entry-latest implies delayed at entry |
| `ExhaustivePre.Pre.CompIsolated` | exhaustivePre/PRE.java:349-375 | the isolation fields are the greatest solution of the isolation equations |
| `ExhaustivePre.Pre.CompInsert` | exhaustivePre/PRE.java:378-386 | the insertion fields mark exactly the latest, non-isolated points of the reverse postorder |
| `ExhaustivePre.Pre.CompReplace` | exhaustivePre/PRE.java:389-397 | the replacement fields mark exactly the local computations that are not both latest and isolated |
| `ExhaustivePre.Pre.Analyze` | exhaustivePre/PRE.java:154-164 | after the analysis every property field satisfies its definition for the expression, each computed from the ones it depends on |
| `ExhaustivePre.Pre.AnalyzeSafety` | exhaustivePre/PRE.java:155-158 | local properties, down- and up-safety and earliestness all satisfy their definitions |
| `ExhaustivePre.Pre.AnalyzePlacement` | exhaustivePre/PRE.java:159-163 | delayedness, latestness, isolation and the insertion and replacement points satisfy their definitions |
| `ExhaustivePre.Pre.AnalyzeDelay` | exhaustivePre/PRE.java:159-160 | delayedness is the greatest solution of its equations and latestness satisfies its equations |
| `ExhaustivePre.Pre.AnalyzePoints` | exhaustivePre/PRE.java:161-163 | isolation is the greatest solution of its equations and the insertion and replacement points satisfy their definitions |
| `ExhaustivePre.Pre.LocalCM` | exhaustivePre/PRE.java:97-107 | only the handled SET changes, and its source becomes the reference local-motion source |
| `ExhaustivePre.Pre.LocalBlock` | exhaustivePre/PRE.java:118-124 | only block `b` changes, and it becomes the reference local motion over all its instructions |
| `ExhaustivePre.Pre.LocalCodeMotion` | exhaustivePre/PRE.java:115-126 | the code becomes the reference local motion over the blocks in reverse postorder |
| `ExhaustivePre.Pre.InsertNewNode` | exhaustivePre/PRE.java:400-450 | the code becomes the reference insertion over the blocks in reverse postorder; a temporary with a fresh register is made exactly when some block is an insertion point, and only then is a symbol consumed |
| `ExhaustivePre.Pre.Replace` | exhaustivePre/PRE.java:453-475 | the code becomes the reference replacement over the blocks in reverse postorder |
| `ExhaustivePre.Pre.MoveExpression` | exhaustivePre/PRE.java:142-148 | for the chosen SET: the local properties are those of its source, the code is the reference insertion followed, exactly when a temporary was made, by the reference replacement, the SET's new index is tracked, and the block holds only original, temporary or redirected instructions |
| `ExhaustivePre.Pre.GlobalBlock` | exhaustivePre/PRE.java:140-149 | the handled sources grow from the given ones and stay free of duplicates; the walk over the growing block ends |
| `ExhaustivePre.Pre.GlobalCodeMotion` | exhaustivePre/PRE.java:136-151 | the class invariant is kept and symbols are only consumed |
| `ExhaustivePre.Pre.Invoke` | exhaustivePre/PRE.java:129-133 | the class invariant is kept and symbols are only consumed |
| `ExhaustivePreScalar.PreScalar.constructor` | exhaustivePre/PREScalar.java:34-43 | the driver owns a fresh exhaustive-PRE instance for the function, numbering temporaries from the given symbol |
| `ExhaustivePreScalar.PreScalar.LocalCM` | exhaustivePre/PREScalar.java:68-79 | the code becomes the reference local motion over the blocks in reverse postorder, loads left alone |
| `ExhaustivePreScalar.PreScalar.GlobalCM` | exhaustivePre/PREScalar.java:82-97 | the invariant is kept and symbols are only consumed; handled sources are forgotten at every block |
| `ExhaustivePreScalar.PreScalar.Invoke` | exhaustivePre/PREScalar.java:61-66 | the invariant is kept and symbols are only consumed |
| `DDPRE.KillsOperand` | ddpre/DDPRE.java:108-118 | a source that is not a load is killed only by a SET, or a call result, writing a register the source reads |
| `DDPRE.NearestSame` | ddpre/DDPRE.java:141-152 | a hit lies before the scanned position and is a SET computing the same source |
| `DDPRE.FindNearest` | ddpre/DDPRE.java:142-152 | the backward loop returns the reference nearest computation |
| `DDPRE.NearestSameSpec` | ddpre/DDPRE.java:141-154 | the scan returns `j` if and only if `j` computes the source, nothing from `j` on kills it, and no later position computes it again |
| `DDPRE.Eliminated` | ddpre/DDPRE.java:339-347 | local elimination over a prefix keeps the block length and leaves the rest of the block alone |
| `DDPRE.EliminatedLeafRegs` | ddpre/DDPRE.java:147 | elimination installs only destinations as sources, so register operands stay leaves |
| `DDPRE.PrologueRegs` | ddpre/DDPRE.java:391-397 | exactly the register kids of a prologue are listed |
| `DDPRE.RecordNode` | ddpre/DDPRE.java:358-398 | only an assignment changes the two maps; an instruction other than SET, CALL or PROLOGUE changes nothing |
| `DDPRE.RecordAssign` | ddpre/DDPRE.java:359-381 | after `d = e`, `e` is the recorded source of `d`; the old source of `d` leaves `expToVar`, `e` enters it mapped to `d` when it has kids, other entries stay, and `d` moves to the end of `varList` |
| `DDPRE.RecordCall` | ddpre/DDPRE.java:382-390 | a call goes to the end of `varList`, followed by its result register moved there when it has one |
| `DDPRE.RecordCoherent` | ddpre/DDPRE.java:358-398 | recording keeps every entry of `expToVar` backed by the matching entry of `varToExp` |
| `DDPRE.KillsUpToSpec` | ddpre/DDPRE.java:376-383 | the block's kill flag is set exactly when it holds a call or a store |
| `DDPRE.UpToPrefix` | ddpre/DDPRE.java:339-349 | the tables and the kill flag of a prefix depend on that prefix only |
| `DDPRE.RecordLatest` | ddpre/DDPRE.java:335-355 | `varToExp` maps exactly the destinations assigned in the block, each to the source of its last assignment |
| `DDPRE.RecordLatestStep` | ddpre/DDPRE.java:358-381 | recording one more instruction keeps `varToExp` the latest source of each assigned destination |
| `DDPRE.RecordUpToCoherent` | ddpre/DDPRE.java:335-355 | the tables built for any prefix of a block are coherent |
| `DDPRE.HeldSpec` | ddpre/DDPRE.java:305-318 | the backward scan of `varList` says yes exactly when some entry holds the expression and no later entry stops the scan |
| `DDPRE.AntScanSpec` | ddpre/DDPRE.java:417-431 | the forward scan says yes exactly when the holder occurs with nothing stopping the scan before it |
| `DDPRE.AntRegionPaths` | ddpre/DDPRE.java:412-454 | a path from the anticipation region that meets no block computing the expression stays in the region and never reaches the exit, so every path out computes it first |
| `DDPRE.AntRegionKept` | ddpre/DDPRE.java:412-454 | the region stays valid under any change that leaves the tables and kill flags of initialised blocks alone |
| `DDPRE.ExprBlkAnswerAsWritten` | ddpre/DDPRE.java:235-260 | as written, the expression's own block is available exactly when no kill follows the expression there, yet a blocked answer is not counted as unavailable |
| `DDPRE.ExprBlkAnswer` | ddpre/DDPRE.java:235-260 | corrected: the same availability, and a blocked answer counts as unavailable |
| `DDPRE.BlockedPreds` | ddpre/DDPRE.java:221-271 | the predecessors listed for checking are exactly those whose answers are blocked, in order |
| `DDPRE.PlanSound` | ddpre/DDPRE.java:277-295 | when blocked answers count as unavailable, a query is accepted unchecked only when no predecessor is blocked, and a checked acceptance needs a real computation and checks every blocked predecessor |
| `DDPRE.AsWrittenAcceptsBlocked` | ddpre/DDPRE.java:235-292 | as written, a loop whose own block kills the expression after computing it is accepted without checking the blocked back edge when another predecessor has the expression |
| `DDPRE.CorrectedChecksBlocked` | ddpre/DDPRE.java:277-288 | with the corrected answer the same situation requires checking the blocked predecessor |
| `DDPRE.TailAvail` | ddpre/DDPRE.java:238-252 | the expression is unavailable at the end of its own block exactly when a kill follows it there |
| `DDPRE.CreateNewNode` | ddpre/DDPRE.java:121-126 | the temporary keeps the SET's operator, arity and source, with a fresh register of its type as destination |
| `DDPRE.Rewritten` | ddpre/DDPRE.java:510-515 | the rewrite changes only the source: a register becomes it, a SET gives its destination, anything else changes nothing |
| `DDPRE.PlaceIn` | ddpre/DDPRE.java:469-493 | the temporary goes before a SET computing the expression, or after a SET whose destination holds it |
| `DDPRE.PlaceUnkilled` | ddpre/DDPRE.java:469-493 | nothing from the chosen place to the end of the scanned part kills the expression, so the temporary holds its value there |
| `DDPRE.ScanAnt` | ddpre/DDPRE.java:419-430 | the forward loop returns the reference anticipation scan |
| `DDPRE.ScanHeld` | ddpre/DDPRE.java:307-317 | the backward loop returns the reference holder scan |
| `DDPRE.AnyListed` | ddpre/DDPRE.java:323-328 | the loop says yes exactly when `varList` lists one of the operands |
| `DDPRE.ScanTail` | ddpre/DDPRE.java:239-252 | the backward loop over the expression's own block returns the reference tail scan |
| `DDPRE.FindPlace` | ddpre/DDPRE.java:469-493 | the backward loop returns the reference placement |
| `DDPRE.AntFromKept` | ddpre/DDPRE.java:401-454 | an anticipation answer stays true under any change that leaves initialised blocks alone |
| `DDPRE.Ddpre.constructor` | ddpre/DDPRE.java:77-81 | the pass is bound to the function with its own copy propagator, no block initialised, nothing inserted and no temporary |
| `DDPRE.Ddpre.CopyFrom` | ddpre/DDPRE.java:148-149 | copy propagation after a rewrite changes only the rest of the same block, keeps the block shapes and initialised tables, and does nothing unless both sides are registers |
| `DDPRE.Ddpre.CheckTransp` | ddpre/DDPRE.java:157-165 | yes exactly when no instruction before the candidate kills its source |
| `DDPRE.Ddpre.EliminateLocalRedundant` | ddpre/DDPRE.java:141-154 | succeeds exactly when an unkilled earlier computation exists; then the SET takes that computation's destination as source, otherwise nothing changes; earlier instructions and other blocks stay |
| `DDPRE.Ddpre.InitBlk` | ddpre/DDPRE.java:335-355 | the block's tables become the record of its rewritten instructions, its kill flag notes any call or store, other blocks stay, and the rewriting is the reference local elimination |
| `DDPRE.Ddpre.Walk` | ddpre/DDPRE.java:339-349 | after the walk, the tables record the whole rewritten block and the kill flag covers it, with nothing outside the block moved |
| `DDPRE.Ddpre.WalkOne` | ddpre/DDPRE.java:340-348 | one more instruction is eliminated, recorded and covered by the kill flag |
| `DDPRE.Ddpre.ElimStep` | ddpre/DDPRE.java:341-346 | elimination at one position leaves the recorded prefix and every other block untouched |
| `DDPRE.Ddpre.Ready` | ddpre/DDPRE.java:90-105 | the block's tables are returned, built on first use only; an initialised block and every other block are left as they were |
| `DDPRE.Ddpre.CheckAntFrom` | ddpre/DDPRE.java:412-454 | a block computing the expression answers yes, a blocked one no; a yes means every newly visited block is fine, a no names a blocked block |
| `DDPRE.Ddpre.AntFromOn` | ddpre/DDPRE.java:417-452 | the same answer once the block is visited; on a yes through the block all its successors are visited |
| `DDPRE.Ddpre.AskSucc` | ddpre/DDPRE.java:442-448 | asking one successor marks it visited; a yes keeps every newly visited block fine, a no names a blocked block |
| `DDPRE.Ddpre.ThroughSuccs` | ddpre/DDPRE.java:403-407 | a yes means every successor but the skipped one is visited and every newly visited block is fine; a no names a blocked block |
| `DDPRE.Ddpre.CheckAnt` | ddpre/DDPRE.java:401-409 | a yes means the expression is computed on every path from the block before a kill or the exit; a no names a blocked block; initialised blocks are left alone |
| `DDPRE.Ddpre.CheckAll` | ddpre/DDPRE.java:282-287 | a yes means every listed predecessor anticipates the expression |
| `DDPRE.Ddpre.Local` | ddpre/DDPRE.java:299-332 | a block holding the expression answers by the holder scan and then receives the temporary as a real computation; a killing block or one redefining an operand answers no; a yes marks the block available |
| `DDPRE.Ddpre.LocalOn` | ddpre/DDPRE.java:302-330 | the same answer once the block is visited and its tables built; its kill flag stays |
| `DDPRE.Ddpre.MarkHeld` | ddpre/DDPRE.java:312-314 | the block joins the insertion list and is marked available and real, nothing else changes |
| `DDPRE.Ddpre.AskPred` | ddpre/DDPRE.java:222-270 | a blocked answer is unavailable, an unavailable one not available, a real one comes from a block marked available and real, and an available one from a block marked available or still in progress; the expression's own block is answered by the corrected `ExprBlkAnswer`, not as written (see Findings) |
| `DDPRE.Ddpre.AskPreds` | ddpre/DDPRE.java:220-272 | one answer per predecessor, with the same guarantees as a single answer |
| `DDPRE.Ddpre.Propagate` | ddpre/DDPRE.java:214-296 | the entry block refuses; elsewhere a yes is never the refusal plan, the accept plan always gives yes, a yes marks the block available, and every blocked predecessor then anticipates the expression and receives the temporary |
| `DDPRE.Ddpre.Decide` | ddpre/DDPRE.java:277-295 | the decision follows the plan for the answers: never yes on a refusal, always yes on acceptance, and blocked predecessors are checked and listed for insertion on a yes |
| `DDPRE.Ddpre.MarkAvail` | ddpre/DDPRE.java:290-291 | the block is marked available, and real when a real computation reaches it |
| `DDPRE.Ddpre.CheckBlocked` | ddpre/DDPRE.java:282-288 | on success every blocked predecessor anticipates the expression and all of them join the insertion list |
| `DDPRE.Ddpre.Replace` | ddpre/DDPRE.java:510-518 | the instruction takes the rewritten source, earlier instructions and other blocks stay, and the shapes are kept |
| `DDPRE.Ddpre.GetNewNode` | ddpre/DDPRE.java:521-526 | the first request makes the temporary with the next fresh register; later ones return the same temporary without consuming a symbol |
| `DDPRE.Ddpre.InsertIn` | ddpre/DDPRE.java:461-504 | the block grows by one SET of the temporary's register at the reference place, before it nothing changes, the tables register the temporary, and other blocks stay |
| `DDPRE.Ddpre.Put` | ddpre/DDPRE.java:469-499 | the new SET enters at the reference place; after a holder it copies that holder's destination, before a computation that computation then reads the temporary |
| `DDPRE.Ddpre.PutBefore` | ddpre/DDPRE.java:474-479 | the temporary enters before the computation, which then reads the temporary's register |
| `DDPRE.Ddpre.PutAfter` | ddpre/DDPRE.java:481-488 | the copy enters right after the holder, nothing else in the code changes |
| `DDPRE.Ddpre.PutAtEnd` | ddpre/DDPRE.java:495-498 | with no place found, the temporary enters before the block's last instruction |
| `DDPRE.Ddpre.Insert` | ddpre/DDPRE.java:457-507 | every listed block holds the temporary afterwards, other blocks stay, the temporary is recorded as inserted and the candidate's position is followed |
| `DDPRE.Ddpre.InsertOnce` | ddpre/DDPRE.java:460-505 | one block receives the temporary once and nothing else changes |
| `DDPRE.Ddpre.CheckBlk` | ddpre/DDPRE.java:168-211 | the block's tables are built and tables built before stay built; the kill flags stay, inserted temporaries only grow and stay fresh, numbered in increasing order |
| `DDPRE.Ddpre.Candidate` | ddpre/DDPRE.java:171-209 | the same for one instruction: the block stays initialised and no built tables are lost |
| `DDPRE.Ddpre.Query` | ddpre/DDPRE.java:177-208 | the same for one candidate |
| `DDPRE.Ddpre.ResetMarks` | ddpre/DDPRE.java:178-185 | every block starts unvisited, without a result, not available and not real |
| `DDPRE.Ddpre.ResetQuery` | ddpre/DDPRE.java:186-189 | the query starts with no insertions, the candidate's block and position, and no temporary |
| `DDPRE.Ddpre.Rewrite` | ddpre/DDPRE.java:198-208 | one fresh temporary is made and inserted; when the candidate's block is not an insertion point and its source is not a register, the candidate reads the temporary |
| `DDPRE.Ddpre.Invoke` | ddpre/DDPRE.java:529-542 | the per-function state is reset, and afterwards every block of the reverse postorder has been checked, so its tables are built; the inserted temporaries are fresh, numbered in increasing order |
| `DDCopyProp.CheckUseOccurs` | ddcpyp/DDCPYP.java:333-339 | the use test holds exactly when `from` is the expression or occurs anywhere beneath it |
| `DDCopyProp.Unregister` | ddcpyp/DDCPYP.java:145-154 | the tables entry is taken out exactly when tables are current and the SET's source is a key of `expToVar`; otherwise the tables are untouched |
| `DDCopyProp.Cpyp` | ddcpyp/DDCPYP.java:141-191 | the answer is false exactly when the instruction redefines `from` or `to`; the rewrite keeps the operator and arity, and without current tables none appear |
| `DDCopyProp.CpypKids` | ddcpyp/DDCPYP.java:183-188 | the kid-by-kid rewrite keeps the number of kids |
| `DDCopyProp.CpypSet` | ddcpyp/DDCPYP.java:144-166 | for a SET, false exactly when its destination is `from` or `to`; operator and arity kept |
| `DDCopyProp.CpypCall` | ddcpyp/DDCPYP.java:168-182 | for a call, false exactly when its result register is `from` or `to`; operator and arity kept |
| `DDCopyProp.CpypCallOk` | ddcpyp/DDCPYP.java:168-182 | a call that does not redefine is rewritten in its address and arguments, then in its result |
| `DDCopyProp.CallArgs` | ddcpyp/DDCPYP.java:174-175 | rewriting the address and arguments never fails and leaves the result list alone |
| `DDCopyProp.CallOut` | ddcpyp/DDCPYP.java:176-179 | rewriting the result list introduces no tables when there are none |
| `DDCopyProp.Subst` | ddcpyp/DDCPYP.java:183-188 | the reference rewrite keeps the operator and arity |
| `DDCopyProp.SubstRemoves` | ddcpyp/DDCPYP.java:183-188 | after the reference rewrite of one leaf by another, `from` no longer occurs below the node |
| `DDCopyProp.CpypPlain` | ddcpyp/DDCPYP.java:183-188 | on leaf operands, an instruction other than SET and CALL is rewritten exactly by the reference rewrite and keeps the tables |
| `DDCopyProp.CpypSetPlain` | ddcpyp/DDCPYP.java:144-166 | a SET that does not redefine is the reference rewrite; its tables entry is re-keyed by the rewritten source and keeps its place in `varList` |
| `DDCopyProp.CpypSetSteps` | ddcpyp/DDCPYP.java:144-166 | the same SET rewrite, as unregistering the old entry, rewriting and registering the new one |
| `DDCopyProp.CpypCallPlain` | ddcpyp/DDCPYP.java:168-182 | a call that does not redefine is rewritten inside its address, arguments and result |
| `DDCopyProp.CpypCallTables` | ddcpyp/DDCPYP.java:170-180 | a call listed in `varList` keeps its place there, rewritten, unless it redefines, in which case it is taken out |
| `DDCopyProp.ScanStep` | ddcpyp/DDCPYP.java:348-367 | one step only appends positions, all of them the current one, and reports a kill exactly when the instruction redefines `from` or `to` |
| `DDCopyProp.StepAdds` | ddcpyp/DDCPYP.java:349-367 | one step appends only the current position |
| `DDCopyProp.ScanBlock` | ddcpyp/DDCPYP.java:346-369 | the instruction loop yields the reference local scan of the block |
| `DDCopyProp.ScanInstr` | ddcpyp/DDCPYP.java:348-367 | one instruction's step, then the scan goes on after it unless it kills |
| `DDCopyProp.ScanStepAdds` | ddcpyp/DDCPYP.java:349-367 | one step lists a well-formed instruction exactly when it uses `from` somewhere before redefining |
| `DDCopyProp.ScanKills` | ddcpyp/DDCPYP.java:351-363 | the block is marked killing exactly when some instruction redefines `from` or `to` |
| `DDCopyProp.StepMember` | ddcpyp/DDCPYP.java:349-367 | after one step a position is listed exactly when it was already or it is the current one and the instruction uses `from` |
| `DDCopyProp.ScanUses` | ddcpyp/DDCPYP.java:347-368 | a position is listed exactly when its instruction uses `from` and no instruction before it redefines `from` or `to` |
| `DDCopyProp.ScanUsesAtKill` | ddcpyp/DDCPYP.java:351-354 | the scan stops at a redefining instruction, having listed it when it uses `from` |
| `DDCopyProp.ScanUsesPast` | ddcpyp/DDCPYP.java:347-368 | past an instruction that does not redefine, the scan's listing follows from the rest of the block |
| `DDCopyProp.Stored` | ddcpyp/DDCPYP.java:160-165 | storing the rewritten tables keeps every block's tables present |
| `DDCopyProp.RewriteAt` | ddcpyp/DDCPYP.java:141-191 | rewriting one instruction in place keeps all shapes, changes no other instruction, and answers false exactly when it redefines |
| `DDCopyProp.Sweep` | ddcpyp/DDCPYP.java:73-79 | the local pass changes only later instructions of the block and keeps shapes; without current tables none change |
| `DDCopyProp.SweepKeepsSome` | ddcpyp/DDCPYP.java:73-79 | the local pass never takes a block's tables away |
| `DDCopyProp.SweepGlobal` | ddcpyp/DDCPYP.java:71-80 | global propagation follows exactly when no later instruction of the block redefines `from` or `to` |
| `DDCopyProp.SweepStops` | ddcpyp/DDCPYP.java:73-79 | nothing after the first redefinition is touched |
| `DDCopyProp.ApplyUses` | ddcpyp/DDCPYP.java:405-408 | rewriting the listed uses keeps all shapes |
| `DDCopyProp.ApplyUsesOnly` | ddcpyp/DDCPYP.java:405-408 | only listed positions of the block can change |
| `DDCopyProp.ChangeFrom` | ddcpyp/DDCPYP.java:399-411 | the data-flow `change` keeps all shapes |
| `DDCopyProp.ChangeOnly` | ddcpyp/DDCPYP.java:399-411 | `change` rewrites only recorded uses, and only in sub-CFG blocks where the copy is available on entry |
| `DDCopyProp.ScannedUsesIn` | ddcpyp/DDCPYP.java:342-371 | use lists recorded by the local scan name instructions of their blocks |
| `DDCopyProp.QpScan` | ddcpyp/DDCPYP.java:228-235 | the uses `qp` records are positions of the block |
| `DDCopyProp.QpScanKills` | ddcpyp/DDCPYP.java:231-234 | `qp` stops at a block exactly when one of its instructions redefines `from` or `to` |
| `DDCopyProp.QpScanUses` | ddcpyp/DDCPYP.java:228-235 | a position is recorded exactly when its instruction uses `from` and no instruction before it redefines `from` or `to` |
| `DDCopyProp.RegionCoversPaths` | ddcpyp/DDCPYP.java:414-437 | every path leaving `top` that avoids `kid` runs through transparent blocks of the region, so none of them redefines `from` or `to` |
| `DDCopyProp.CopyProp.constructor` | ddcpyp/DDCPYP.java:29-32 | the propagator is bound to the function with no tables, no current block, no use lists and an empty sub-CFG |
| `DDCopyProp.CopyProp.SetMap` | ddcpyp/DDCPYP.java:452-456 | the block's tables become the current ones |
| `DDCopyProp.CopyProp.RewriteInstr` | ddcpyp/DDCPYP.java:141-191 | the in-place rewrite of one instruction is the reference rewrite, answer included |
| `DDCopyProp.CopyProp.LocalPass` | ddcpyp/DDCPYP.java:110-119 | the local pass is the reference sweep after position `p`; it reports global propagation exactly when no later instruction redefines `from` or `to`, and only the current block's tables can change |
| `DDCopyProp.CopyProp.SweepFrom` | ddcpyp/DDCPYP.java:112-118 | the loop from position `k` is the reference sweep |
| `DDCopyProp.CopyProp.Mark` | ddcpyp/DDCPYP.java:299-300 | exactly one unchecked block joins the sub-CFG and becomes checked |
| `DDCopyProp.CopyProp.AddBlk` | ddcpyp/DDCPYP.java:291-304 | the sub-CFG only grows and is closed under predecessors, short of `e` |
| `DDCopyProp.CopyProp.PushPreds` | ddcpyp/DDCPYP.java:296-302 | every predecessor not yet checked, other than `e`, is checked, added and pushed once; the sub-CFG stays closed under predecessors of the stack |
| `DDCopyProp.CopyProp.TakeKid` | ddcpyp/DDCPYP.java:323-326 | an unchecked dominator-tree kid joins the sub-CFG with its predecessors, strictly shrinking the unchecked blocks |
| `DDCopyProp.CopyProp.CreateSubTree` | ddcpyp/DDCPYP.java:307-330 | the sub-CFG starts at `blk`, holds each block once, contains its dominator-tree kids and is closed under predecessors |
| `DDCopyProp.CopyProp.StartSubTree` | ddcpyp/DDCPYP.java:308-312 | the sub-CFG holds `blk` alone and a fresh `checked` marks it |
| `DDCopyProp.CopyProp.PushKids` | ddcpyp/DDCPYP.java:321-328 | every dominator-tree kid of `b` ends up checked, new ones are pushed, and the sub-CFG stays closed under predecessors |
| `DDCopyProp.CopyProp.CompLocalProp` | ddcpyp/DDCPYP.java:342-371 | every sub-CFG block other than the copy's gets the reference use list and its kill flag; other blocks and lists are kept |
| `DDCopyProp.CopyProp.LocalPropBlk` | ddcpyp/DDCPYP.java:346-369 | one block gets the reference use list, and its kill flag is set when it redefines |
| `DDCopyProp.CopyProp.AllPredsAvail` | ddcpyp/DDCPYP.java:380-387 | the predecessor loop answers exactly whether every predecessor has the copy available on exit |
| `DDCopyProp.CopyProp.CompAvail` | ddcpyp/DDCPYP.java:374-396 | the rounds end with the availability equations holding on every sub-CFG block, values only having gone down, and other blocks untouched |
| `DDCopyProp.CopyProp.Lower` | ddcpyp/DDCPYP.java:388-393 | one update sets the block's entries to the new values and strictly shrinks the set of true entries |
| `DDCopyProp.CopyProp.ApplyUseList` | ddcpyp/DDCPYP.java:405-408 | the loop over one use list is the reference rewrite of those uses |
| `DDCopyProp.CopyProp.Change` | ddcpyp/DDCPYP.java:399-411 | the code becomes the reference `change` over the sub-CFG |
| `DDCopyProp.CopyProp.Locals` | ddcpyp/DDCPYP.java:274-281 | fresh use lists and kill flags, the sub-CFG, and the reference local properties of its blocks other than `blk` |
| `DDCopyProp.CopyProp.Analyse` | ddcpyp/DDCPYP.java:274-282 | the sub-CFG, its local properties and availability satisfying its equations, with the code untouched |
| `DDCopyProp.CopyProp.DoItByDataFlowEquation` | ddcpyp/DDCPYP.java:273-284 | the analysis holds; the new code and tables are exactly `ChangeFrom` of the old ones (the recorded uses of each sub-CFG block where the copy is available on entry, rewritten by `cpyp` block by block), so an instruction changes only when it is such a use |
| `DDCopyProp.CopyProp.BlockTransparent` | ddcpyp/DDCPYP.java:427-430 | the loop answers exactly whether no instruction of the block redefines `from` or `to` |
| `DDCopyProp.CopyProp.CheckTranspFrom` | ddcpyp/DDCPYP.java:425-437 | a yes means every newly visited block is transparent with all successors visited or the stop block; a no names a visited block that is not transparent |
| `DDCopyProp.CopyProp.CheckTransp` | ddcpyp/DDCPYP.java:414-422 | a yes gives a transparent region covering every path from `top` that avoids `kid`; a no names a block that is not transparent |
| `DDCopyProp.CopyProp.ScanQp` | ddcpyp/DDCPYP.java:228-235 | the instruction loop over a kid yields the reference `qp` scan |
| `DDCopyProp.CopyProp.Qp` | ddcpyp/DDCPYP.java:223-240 | use lists only grow; each new one belongs to a block dominated by `blk` and holds the reference `qp` scan |
| `DDCopyProp.CopyProp.VisitSuccs` | ddcpyp/DDCPYP.java:251-262 | an instruction changes only when it is a recorded use of a successor with `result` or `kill` set |
| `DDCopyProp.CopyProp.Pushed` | ddcpyp/DDCPYP.java:255-261 | only recorded uses of the pushed successor change |
| `DDCopyProp.CopyProp.ChangeQp` | ddcpyp/DDCPYP.java:243-264 | an instruction changes only when it is a recorded use of a block with `result` or `kill` set |
| `DDCopyProp.CopyProp.DoItByQuestionPropagation` | ddcpyp/DDCPYP.java:200-212 | the code and tables are left as they were; every recorded use list belongs to a block dominated by `blk` and is the reference `qp` scan |
| `DDCopyProp.CopyProp.StartQuestion` | ddcpyp/DDCPYP.java:201-209 | fresh use lists; only `blk` has a result and no block is killing |
| `DDCopyProp.CopyProp.CpypGlobal` | ddcpyp/DDCPYP.java:129-138 | mode 0 leaves exactly the data-flow version's `ChangeFrom` result, with its guarantees; any other mode leaves the code and tables as they were |
| `DDCopyProp.CopyProp.CpypAfter` | ddcpyp/DDCPYP.java:110-120 | the result is exactly the local pass `Sweep` after `p`, followed, when the pass reached the end of the block and the mode is 0, by `ChangeFrom`; so nothing up to `p` changes, and another block changes only at a recorded available use when no later instruction of this block redefines |
| `DDCopyProp.CopyProp.CpypShared` | ddcpyp/DDCPYP.java:91-107 | the given tables are adopted with those of `blk` current, and the result is exactly `Sweep` then (mode 0, end of block reached) `ChangeFrom` from them; nothing up to `p` changes, other blocks only at recorded available uses |
| `DDCopyProp.CopyProp.PropagateCopy` | ddcpyp/DDCPYP.java:69-80 | only a register copy is propagated: the result is exactly `Sweep` after the copy followed, when nothing after it in the block redefines its operands, by `ChangeFrom`; instructions up to it stay |
| `DDCopyProp.CopyProp.Invoke` | ddcpyp/DDCPYP.java:64-83 | the function's shape and the tables' count are kept |
| `DDAliasAnalysis.GetAddr` | aliasanalysis/DDAliasAnalysis.java:421-425 | the address is a leaf reached from the memory operand by following first kids |
| `DDAliasAnalysis.GetAddrUnique` | aliasanalysis/DDAliasAnalysis.java:421-425 | the first-kid chain ends in exactly one leaf, so any leaf on it is the address |
| `DDAliasAnalysis.MayAmbBelow` | aliasanalysis/DDAliasAnalysis.java:377-382 | `mayAmb` holds exactly when the address occurs strictly below the root of the expression |
| `DDAliasAnalysis.CheckAliasSSAOnlyFrames` | aliasanalysis/DDAliasAnalysis.java:222-253 | both SSA alias checks answer "no alias" only for two memory operands, distinct (as whole operands for one, as addresses for the other), whose addresses are both FRAMEs; everything else may alias |
| `DDAliasAnalysis.AmbFoldUnion` | aliasanalysis/DDAliasAnalysis.java:170-174 | the predecessor walk adds to the set exactly the sets of the other predecessors that hold either address |
| `DDAliasAnalysis.AliasEntry` | aliasanalysis/DDAliasAnalysis.java:149-155 | the destination address's alias set gains both addresses and the source address's alias set, and gains nothing else; no other entry changes |
| `DDAliasAnalysis.FirstWith` | aliasanalysis/DDAliasAnalysis.java:74-81 | the answer is the first class holding the variable, or none exactly when no class holds it |
| `DDAliasAnalysis.Untouched` | aliasanalysis/DDAliasAnalysis.java:72-83 | exactly the classes that share nothing with the operands are kept |
| `DDAliasAnalysis.Merged` | aliasanalysis/DDAliasAnalysis.java:58-69 | the merged class holds exactly the operands and the members of every class sharing one of them |
| `DDAliasAnalysis.UntouchedTwice` | aliasanalysis/DDAliasAnalysis.java:72-83 | taking out the classes of one operand set and then another is taking out those of their union |
| `DDAliasAnalysis.UntouchedConcat` | aliasanalysis/DDAliasAnalysis.java:72-83 | taking out classes distributes over concatenation of class lists |
| `DDAliasAnalysis.RemoveFirst` | aliasanalysis/DDAliasAnalysis.java:74-81 | among disjoint classes, removing the first one holding the variable leaves exactly the classes not holding it |
| `DDAliasAnalysis.TailFree` | aliasanalysis/DDAliasAnalysis.java:74-81 | among disjoint classes no later class holds the variable again |
| `DDAliasAnalysis.UntouchedDisjoint` | aliasanalysis/DDAliasAnalysis.java:72-83 | the classes kept by a lookup are still pairwise disjoint |
| `DDAliasAnalysis.MergedStep` | aliasanalysis/DDAliasAnalysis.java:60-64 | folding in one more operand adds it and the one remaining class holding it, if any |
| `DDAliasAnalysis.DisjointSame` | aliasanalysis/DDAliasAnalysis.java:58-83 | in disjoint classes a variable lies in one class at most |
| `DDAliasAnalysis.UntouchedOut` | aliasanalysis/DDAliasAnalysis.java:58-69 | a member of a class sharing nothing with the operands is not in the merged class |
| `DDAliasAnalysis.MergeDisjoint` | aliasanalysis/DDAliasAnalysis.java:58-69 | after a merge the kept classes and the new class are pairwise disjoint |
| `DDAliasAnalysis.MergeKeepsTogether` | aliasanalysis/DDAliasAnalysis.java:58-69 | variables that shared a class still share one after a merge |
| `DDAliasAnalysis.AbsorbStep` | aliasanalysis/DDAliasAnalysis.java:61-63 | one lookup on the classes untouched so far leaves exactly the classes untouched by those operands and the new one |
| `DDAliasAnalysis.AmbVarsStep` | aliasanalysis/DDAliasAnalysis.java:184-189 | `getAmbSet` adds one kid at a time: a register itself, else the registers below it |
| `DDAliasAnalysis.InsertAmb` | aliasanalysis/DDAliasAnalysis.java:167-175 | the block's set becomes its old members, both addresses, and every other predecessor's set holding either address, and nothing more |
| `DDAliasAnalysis.GroupStep` | aliasanalysis/DDAliasAnalysis.java:123-132 | one instruction only grows its own block's set and alias map, by at least what it needs, and records a SET's addresses under its destination; other blocks are untouched |
| `DDAliasAnalysis.GroupBlockCovers` | aliasanalysis/DDAliasAnalysis.java:120-133 | after a block's walk its set holds every instruction's needs and its alias map covers every SET; other blocks are untouched |
| `DDAliasAnalysis.CoverStep` | aliasanalysis/DDAliasAnalysis.java:110-117 | walking the next block in list order covers it and keeps earlier blocks covered |
| `DDAliasAnalysis.LocalFrom` | aliasanalysis/DDAliasAnalysis.java:350-374 | the backward scan answers 0 (cannot tell), 1 (alias) or 2 (no alias) |
| `DDAliasAnalysis.LocalUndecided` | aliasanalysis/DDAliasAnalysis.java:351-373 | the scan cannot tell only when no PROLOGUE lies at or before the start position |
| `DDAliasAnalysis.LocalNoAlias` | aliasanalysis/DDAliasAnalysis.java:353-367 | the scan says "no alias" only at a PROLOGUE naming neither address, or at a SET whose destination may alias the store address while its source does not alias the load address |
| `DDAliasAnalysis.FoundGrow` | aliasanalysis/DDAliasAnalysis.java:407-418 | an alias found past a later visited snapshot is found past an earlier one |
| `DDAliasAnalysis.SearchExhausted` | aliasanalysis/DDAliasAnalysis.java:401-418 | a search from the block with nothing visited that finds no alias has exhausted every block it reached: none answers alias, and each that cannot tell had all its predecessors searched |
| `DDAliasAnalysis.QuietJoin` | aliasanalysis/DDAliasAnalysis.java:412-415 | searching on from a predecessor that cannot tell keeps the caller's search free of alias answers |
| `DDAliasAnalysis.JoinSearch` | aliasanalysis/DDAliasAnalysis.java:409-417 | a finished search from a predecessor leaves the caller's search closed under predecessors |
| `DDAliasAnalysis.ArgValuesStep` | aliasanalysis/DDAliasAnalysis.java:60-64 | the PHI's argument values grow one argument at a time from argument 1 and stop past the last kid |
| `DDAliasAnalysis.Analysis.constructor` | aliasanalysis/DDAliasAnalysis.java:32-39 | every block's ambiguous set and alias map cover its instructions, and every PHI's operands share one congruence class |
| `DDAliasAnalysis.Analysis.GetCC` | aliasanalysis/DDAliasAnalysis.java:72-83 | the first class holding the variable is returned and taken out of the list; with none, nothing changes and nothing is returned |
| `DDAliasAnalysis.Analysis.CheckCongruence` | aliasanalysis/DDAliasAnalysis.java:86-89 | the answer is whether the two variables share a class, and that class is taken out of the list |
| `DDAliasAnalysis.Analysis.Absorb` | aliasanalysis/DDAliasAnalysis.java:61-63 | one operand's class joins the new class and leaves the list |
| `DDAliasAnalysis.Analysis.MakePhiCC` | aliasanalysis/DDAliasAnalysis.java:58-69 | the classes sharing a PHI operand are replaced by one class at the end holding them and all the operands, and the classes stay disjoint |
| `DDAliasAnalysis.Analysis.AbsorbArgs` | aliasanalysis/DDAliasAnalysis.java:60-64 | the argument loop leaves the classes untouched by the arguments and builds the merge of those touched |
| `DDAliasAnalysis.Analysis.MakeCongruenceClass` | aliasanalysis/DDAliasAnalysis.java:45-55 | the classes end disjoint, with every PHI's operands in one class |
| `DDAliasAnalysis.Analysis.MakeMayAliasGroup` | aliasanalysis/DDAliasAnalysis.java:110-117 | one set and one map per block, each covering the block's instructions |
| `DDAliasAnalysis.Analysis.MakeMayAliasGroupBlock` | aliasanalysis/DDAliasAnalysis.java:120-133 | the sets and maps become the reference walk of the block |
| `DDAliasAnalysis.Analysis.GroupInstr` | aliasanalysis/DDAliasAnalysis.java:124-131 | the sets and maps become the reference effect of the instruction |
| `DDAliasAnalysis.Analysis.AddPrologueRegs` | aliasanalysis/DDAliasAnalysis.java:125-129 | the PROLOGUE's register kids join the block's set, and nothing else changes |
| `DDAliasAnalysis.Analysis.InsertNewEntry` | aliasanalysis/DDAliasAnalysis.java:145-157 | the block's set gains both addresses and the matching predecessor sets, and the destination's alias set gains the reference entry; both addresses end in the set |
| `DDAliasAnalysis.Analysis.SetAmbSet` | aliasanalysis/DDAliasAnalysis.java:167-175 | the block's set becomes the reference fold over its predecessors |
| `DDAliasAnalysis.Analysis.GetAmbSet` | aliasanalysis/DDAliasAnalysis.java:184-189 | every operand register of the expression joins the block's set, and nothing else changes |
| `DDAliasAnalysis.Analysis.Alias` | aliasanalysis/DDAliasAnalysis.java:385-398 | the answer is the reference may-alias test over the block's head and its predecessors' sets |
| `DDAliasAnalysis.Analysis.CheckLocal` | aliasanalysis/DDAliasAnalysis.java:350-374 | the loop yields the reference backward scan |
| `DDAliasAnalysis.Analysis.CheckGlobalFrom` | aliasanalysis/DDAliasAnalysis.java:407-418 | a yes means some visited predecessor answers alias; a no means the search from the block is closed, with no alias answer among newly visited blocks |
| `DDAliasAnalysis.Analysis.AskPred` | aliasanalysis/DDAliasAnalysis.java:410-415 | visited marks only grow; a hit is an alias answer past the snapshot, otherwise the search stays quiet and closed |
| `DDAliasAnalysis.Analysis.CheckGlobal` | aliasanalysis/DDAliasAnalysis.java:401-404 | a yes means the block itself, or a block whose own scan cannot tell, has a predecessor answering alias; a no means the blocks searched are exhausted: none answers alias and each that cannot tell had all its predecessors searched |
| `DDAliasAnalysis.Analysis.CheckAlias` | aliasanalysis/DDAliasAnalysis.java:192-205 | non-memory operands, equal addresses and two STATICs answer alias; two distinct FRAMEs answer no; otherwise a local alias answers yes, and a no means the global search was exhausted |
| `DivideExpression.Hoist` | ddpre/DivideExpression.java:124-134 | the fresh temporary, when one can be had, is numbered next and its SET appended, keeping the emitted SETs numbered consecutively |
| `DivideExpression.Divide` | ddpre/DivideExpression.java:110-325 | the divided node keeps its type; the inserted SETs define consecutive fresh temporaries from `next` on, and `next` advances by their number |
| `DivideExpression.DivideMem` | ddpre/DivideExpression.java:115-139 | a load keeps its type and defines consecutive fresh temporaries |
| `DivideExpression.DivideUnary` | ddpre/DivideExpression.java:141-178 | a unary operator or cast keeps its type and defines consecutive fresh temporaries |
| `DivideExpression.DivideBinary` | ddpre/DivideExpression.java:180-218 | a binary operator keeps its type and defines consecutive fresh temporaries |
| `DivideExpression.DivideCompare` | ddpre/DivideExpression.java:220-238 | a comparison keeps its type and defines consecutive fresh temporaries |
| `DivideExpression.DivideCall` | ddpre/DivideExpression.java:264-274 | a call keeps its type and defines consecutive fresh temporaries |
| `DivideExpression.DivideSet` | ddpre/DivideExpression.java:239-263 | a SET keeps its type and defines consecutive fresh temporaries |
| `DivideExpression.StoreTemp` | ddpre/DivideExpression.java:244-253 | moving a store's source into a temporary keeps the emitted SETs numbered consecutively |
| `DivideExpression.DefUseTemp` | ddpre/DivideExpression.java:73-83 | the SET keeps its type and the emitted SETs stay numbered consecutively |
| `DivideExpression.DivideKids` | ddpre/DivideExpression.java:289-297 | one divided node per remaining kid, with consecutive fresh temporaries |
| `DivideExpression.SubRoundTrip` | ddpre/DivideExpression.java:116 | a divided kid, with its inserted SETs substituted back, is the original kid |
| `DivideExpression.KidsRoundTrip` | ddpre/DivideExpression.java:289-297 | every divided kid of a LIST unfolds back to the original kid |
| `DivideExpression.MemRoundTrip` | ddpre/DivideExpression.java:115-139 | a divided load unfolds back to the original load |
| `DivideExpression.UnaryRoundTrip` | ddpre/DivideExpression.java:141-178 | a divided unary operator or cast unfolds back to the original |
| `DivideExpression.BinaryRoundTrip` | ddpre/DivideExpression.java:180-218 | a divided binary operator unfolds back to the original |
| `DivideExpression.CompareRoundTrip` | ddpre/DivideExpression.java:220-238 | a divided comparison unfolds back to the original |
| `DivideExpression.CallRoundTrip` | ddpre/DivideExpression.java:264-274 | a divided call unfolds back to the original |
| `DivideExpression.SetRoundTrip` | ddpre/DivideExpression.java:239-263 | a divided SET unfolds back to the original, including after `divDefUseNode` |
| `DivideExpression.JumpRoundTrip` | ddpre/DivideExpression.java:275-288 | a divided conditional jump unfolds back to the original |
| `DivideExpression.ListRoundTrip` | ddpre/DivideExpression.java:289-297 | a divided LIST unfolds back to the original |
| `DivideExpression.DivideRoundTrip` | ddpre/DivideExpression.java:110-325 | substituting the inserted SETs back, last first, into the divided node gives the original node, so division changes no computed value |
| `DivideExpression.ThreeAddress` | ddpre/DivideExpression.java:110-325 | the divided node and every inserted SET are flat (each operator's operands are leaves), and an operator left in place is a SET's direct source or destination |
| `DivideExpression.OperatorHoisted` | ddpre/DivideExpression.java:141-218 | a unary, cast or binary operator moves into a fresh temporary unless it is a SET's direct source or of aggregate type, in which case it stays in place |
| `DivideExpression.LoadHoisted` | ddpre/DivideExpression.java:115-139 | a load moves into a fresh temporary unless it is a destination or of aggregate type, in which case it stays a load |
| `DivideExpression.StoreOfRegister` | ddpre/DivideExpression.java:244-256 | a divided store of a non-aggregate source always stores a register |
| `DivideExpression.DefUseNodeMeans` | ddpre/DivideExpression.java:86-97 | `defUseNode` holds exactly for a SET to a register that reads it as its whole source or as one of at most two operands |
| `DivideExpression.NoDefUseAfterDivide` | ddpre/DivideExpression.java:258-260 | after division no non-aggregate SET reads its own destination |
| `DivideExpression.DefUseTempClears` | ddpre/DivideExpression.java:73-83 | the temporary `divDefUseNode` introduces is not the destination, so the SET no longer reads it |
| `DivideExpression.CompareKept` | ddpre/DivideExpression.java:220-238 | a comparison is never moved into a temporary; its operands are divided as plain operands |
| `DivideExpression.CopiedUnchanged` | ddpre/DivideExpression.java:298-321 | leaves, PHIs, prologues, epilogues and jumps come back as they were with nothing inserted; FRAME and STATIC are moved into a temporary only with the extend option and a non-aggregate type |
| `DivideExpression.DivideBlock` | ddpre/DivideExpression.java:60-63 | the block grows by exactly the number of fresh temporaries used |
| `DivideExpression.DivideAll` | ddpre/DivideExpression.java:58-64 | blocks not in the list keep their code |
| `DivideExpression.BlockThreeAddress` | ddpre/DivideExpression.java:60-63 | a block of divisible instructions comes out entirely flat |
| `DivideExpression.AllThreeAddress` | ddpre/DivideExpression.java:58-64 | every listed block of divisible instructions comes out entirely flat |
| `DivideExpression.DivideInstrs` | ddpre/DivideExpression.java:60-63 | the loop over a block yields the reference division of the block |
| `DivideExpression.DoIt` | ddpre/DivideExpression.java:54-70 | the function's code becomes the reference division of every block in block-list order |

## Left out

- Logging and printing: every `env.println`, the print helpers in `GVN` and `PRE`, the debug printer, the statistics counter and the PAPI interface. None of them changes the IR.
- COINS infrastructure. Dominators, dominance frontiers, the DFST and reverse postorder, and loop analysis are inputs of `Cfg.Graph`. `SsaSymTab.newSsaSymbol` is a counter of fresh symbol numbers; an aggregate type gets no symbol. `BiLink` lists are sequences, and a list position is an index. The `LirNode` factories and `makeCopy` are value construction.
- `flowGraph().touch()` and `f.touch()`: cache invalidation only.
- The constructors that only store the environment and symbol table, such as `DDAliasAnalysis(env, sstab)`, and the `LocalTransformer` `doIt(Data)` stubs. `DDAliasAnalysis.doIt` only logs and touches the graph.
- Object identity. Nodes are values, so a node rewritten with `setKid` is a new value written back where the Java holds a reference. This is also why EQP's filled PHI is stored again under its new value, and the stale key stays.
- `EMemoryAliasAnalyze`'s `callMap` is keyed by the call's (block, position) instead of the node's id.
- Copy propagation's use lists hold instruction positions instead of node references. `cpyp` never inserts or removes instructions, so positions are stable.
- `DDCopyProp.CopyProp.CpypGlobal`: requires `from` or `to` to be a leaf (and `CpypAfter`, `CpypShared` require it unless a later instruction of the block redefines them). The Java aborts with `System.exit` when both have kids; that abort is a precondition here and is not modelled. `DDCopyProp.Cpyp` itself has no precondition.
- `DDCopyProp.InsertAt`: a position past the end appends. `ArrayList.add` would throw there, and no caller passes one.
- `DivideExpression.Divide`: with the extend option, a FRAME or STATIC of aggregate type stays inline, and so does the source of a `divDefUseNode` SET of aggregate type. In both cases the Java dereferences a null symbol or node.
- `ValueNumbering`: a CALL nested inside an expression gives no value expression (the Java would build one with a null kid), and a store whose address has no value expression records nothing. `getDependListMap`'s lazily created empty list is not stored until something is appended to it.
- `Eqp.Eqp.Propagate`: a predecessor value renumbered to -1 is treated as "cannot rebuild", where the Java would ask `local` about -1. `changeProg` keeps the value when `getVar` finds no holder, where the Java dereferences null.
- `checkLocalSSA`, `checkGlobalSSA` and `contain` in `DDAliasAnalysis`: dead code, reachable only from commented-out lines.
- `Eqp.Eqp.EliminateInstrs`: at most `fuel` instructions per block are visited, and renumbering runs at most `fuel` rounds. A function needing more is only partly handled.
- `DDPRE.Ddpre.CheckBlk`: at most `fuel` instructions per block are visited, as a termination bound.
- `ExhaustivePre.Pre.GlobalBlock`: promises only that the pass state stays valid, that the handled expressions are distinct and only grow, and that fresh symbols only grow. What insertion and replacement do is stated on `InsertNewNode`, `Replace` and `MoveExpression`.
- `ExhaustivePre.Pre.GlobalCodeMotion`: promises only a valid state and growing fresh symbols. The work per block is stated on `GlobalBlock`'s steps.
- `ExhaustivePre.Pre.Invoke`: promises only a valid state and growing fresh symbols. Local and global motion are stated on `LocalCodeMotion` and `MoveExpression`.
- `ExhaustivePreScalar.PreScalar.GlobalCM`: promises only a valid state and growing fresh symbols.
- `ExhaustivePreScalar.PreScalar.Invoke`: promises only a valid state and growing fresh symbols.
- `DDPRE.Ddpre.Candidate`: promises only the pass invariants: valid tables, temporaries registered, `killBlk` unchanged, inserted nodes and fresh symbols only growing. The query's answer is stated on `Propagate`, `CheckAnt` and `Insert`.
- `DDPRE.Ddpre.Query`: promises only the same pass invariants as `Candidate`.
- `DDPRE.Ddpre.Invoke`: promises the pass invariants, growing fresh symbols and that every block of the reverse postorder was checked (its tables built), but neither the order of the checks nor what they do to the code.
- `DDCopyProp.CopyProp.Invoke`: promises only that the function keeps its shape and the tables keep their count. Each copy's effect is stated on `PropagateCopy`.
- `Eqp.Eqp.NewNodesNumbering`: promises only a valid state. Each renumbering step is stated on `NumberNewNode` and `Renumber`.
- `Eqp.Eqp.Question`: states what the question does to the SET in terms of the holder found, but not that a holder is found only after a yes answer, nor that the holder was offered for the number at that point; `ChangeProg` states the latter in its own state, and what a query answers is stated on `Propagate`, `Local` and `CheckDSafe`.
- `Eqp.Eqp.Ask`: the same as `Question`: the holder found is not tied to the answer of `Pose`.
- `Eqp.Eqp.Rename`: the holder found is stated on `ChangeProg`, whose state the contract of `Rename` does not carry.
- `Eqp.Eqp.Eliminate`: promises only a valid state and growing versions. What it does to the code is stated per instruction, on `EliminateSet` and `EliminateStep`, including the question's outcome (`Settled`); `EliminateBlock`, `EliminateInstrs`, `Invoke` and `DoIt` do not compose those steps into a statement about the whole block or function.
- `Eqp.Eqp.EliminateSet`: in mode 3 a compound source other than a load is still asked of the predecessors, as `EQP.eliminate` does, so a mode-3 run can insert code and, on a yes answer, rewrite the SET to read the holder's variable (`changeProg` and `replace`); the model follows the code here rather than the design's description of mode 3 as leaving the code unchanged. What holds in mode 3 is that a number already held in the block does not replace the source and no load is touched.
- `Eqp.Eqp.Propagate`: does not state that a predecessor for which the question cannot be rebuilt makes the answer no; it states only that the block is then recorded as answered.
- `Eqp.Eqp.InsertStored`: a blocked predecessor with no remembered node is skipped, where `EQP.insertTempNewNode` would dereference null.
- `Eqp.TempPhiLabel`: reads child 2 of the phi's first argument, as `insertNewTempPhi` does, and reads block 0 when that child is missing, where the Java would fail. The phis the model builds carry their label as child 1 (`Util.newPhi` is not part of this model), so the lookup that removes an earlier phi reads block 0 for each of them and can match only when the phi is placed in block 0.
- `DDPRE.Ddpre.PutBefore`: when the computation's destination is missing from the block's variable order, the temporary is appended to that order, where `varList.add(-1, ...)` at ddpre/DDPRE.java:476-477 throws.
- `DDAliasAnalysis.Analysis.CheckGlobal`: a yes names a predecessor that answers alias, of the block itself or of a block that cannot tell. It does not state that this block is reachable backwards from the starting block; `CheckGlobalFrom` states the search step by step.

## Findings

| source | as written | input that shows it | evidently intended | confidence | as-written member | corrected member |
|---|---|---|---|---|---|---|
| ddpre/DDPRE.java:235-260 | When the expression's own block is a predecessor and a kill follows the expression there, `propagate` lists that predecessor among the blocked ones but never sets `False`. So if another predecessor is available through a real computation, `True && !False` accepts the query. The blocked predecessor is then neither checked with `checkAnt` nor given the temporary. | A loop header with two predecessors: the preheader computes `a+b`, and the loop body computes `a+b` and then redefines `a`. The back edge is blocked, yet the query is accepted without checks. | A blocked predecessor counts as unavailable like every other blocked one: `False` is set, so `checkAnt` runs on it and it receives the temporary. The pass model (`DDPRE.Ddpre.AskPred` and everything above it) adopts this corrected answer. | medium; not executed | `DDPRE.ExprBlkAnswerAsWritten`, `DDPRE.AsWrittenAcceptsBlocked` | `DDPRE.ExprBlkAnswer`, `DDPRE.PlanSound`, `DDPRE.CorrectedChecksBlocked` |
