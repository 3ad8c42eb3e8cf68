# Sokoban puzzle-to-CNF encoder, modelled in Dafny

This project models the encoding engine of a Sokoban solver. The solver turns a
puzzle and a step limit `H` into a CNF formula whose models are plans.

The model covers four parts:

- **Board classification.** `Preprocessor::loadMap` reads the map lines into the
  Walls, Players, Boxes, Targets and Walkable lists and the map size. The grid
  predicates `notWall`, `isWall`, `isWalkable`, `isTarget` and `isDeadLockBoxPos`
  answer questions over those lists (modules `Boards`, `Preprocessor`).
- **Deadlock analysis.** `findDeadlockPos` and `bfs` flood-fill under the
  push-lookahead adjacency. A step from A to a neighbour B needs the cell on the
  far side of A to be a non-wall. Every blank cell whose flood reaches no target
  is a deadlock box position (module `Deadlock`).
- **Tunnel detection.** `TunnelIdentifying` and its corridor walk `helper`
  (module `Tunnels`).
- **Literals and clauses.**
  - `Lit`, `~`, the id comparisons, `LitHash`, `Clause::AddLit`, `createKey`, and
    the memoising allocators `AddPlayerLiteral` and `AddBoxLiteral` with their
    shared counter `LitIndex` (modules `Keys`, `Literals`).
  - `cartesianProduct` (module `Cartesian`).
  - Every clause generator that `AllConstraints` calls, and the two it has
    commented out (modules `Families`, `Placement`, `BoxPush`, `Encoder`).

The clause families are pure functions. They produce *request clauses*: each
literal is a request `Req(kind, cell, entity, time, sign)`. `Literals.RealizeAll`
then threads one literal manager through those requests, in the order the
generators call the allocators. `BoxPushMovementConstraints` allocates its push
literals before its head literals, so its manager is threaded directly
(`BoxPush`). `Encoder.AllConstraints` runs the whole sequence from the empty
manager, in the order the solver uses.

Each generator has a *partner*. This is a predicate stating what one of its
clauses means, such as `IsFrame`, `IsExclusion`, `IsClash`, `IsBoxFrame`,
`PushShape` or `InitUnit`. A membership lemma then proves that a clause is
generated exactly when it satisfies that predicate. The deadlock scan is
compared with an independent reachability definition (`Deadlock.Reaches`), and
the code's labelled scan is shown to agree with it up to 36 dead groups. The
tunnel scan records exactly the corridors (`Tunnels.Corridor`) whose entry it
reaches unvisited. The
key function is proved injective, and the literal manager keeps a stated
invariant (`Literals.Valid`).

## Model

| member | source | states |
|---|---|---|
| Boards.LoadMap | src/ext-lsv/Preprocessor.cpp:9-73 | The board has one row per line and as many columns as the longest line. A cell is in a tag's list exactly when it was read from the text and its character carries that tag: `#` only Walls, `@`/`+` Players, `$`/`*` Boxes, `.`/`*`/`+` Targets, and every non-`#` character Walkable. Every list is in reading order. |
| Boards.ScanLines | src/ext-lsv/Preprocessor.cpp:29-60 | The character switch over all lines puts each cell into the lists of its tags and nowhere else, in row-major order. |
| Boards.MaxLength | src/ext-lsv/Preprocessor.cpp:29-66 | The column count bounds every line length and is reached by some line (0 for no lines). |
| Boards.NotWallIsNotIsWall | src/ext-lsv/Preprocessor.h:32-33 | `notWall` is exactly the negation of `isWall`. |
| Boards.UnloadedIsNothing | src/ext-lsv/Preprocessor.h:32-35 | A coordinate that was never read, inside or outside the grid, is neither wall, walkable nor target. |
| Boards.LoadedWalkableIffNotWall | src/ext-lsv/Preprocessor.h:32-34 | A coordinate that was read is walkable exactly when it is not a wall. |
| Boards.NeverWallAndWalkable | src/ext-lsv/Preprocessor.h:33-34 | No coordinate is both a wall and walkable. |
| Deadlock.StepsRule | src/ext-lsv/Preprocessor.cpp:145-163 | `bfs` steps from a cell to an orthogonal neighbour exactly when the neighbour is in the grid and not a wall, and the cell on the opposite side is not a wall. |
| Deadlock.FloodIsReach | src/ext-lsv/Preprocessor.cpp:140-166 | The group `bfs` collects from a cell is exactly the set of cells reachable from it by such steps. |
| Deadlock.FloodNested | src/ext-lsv/Preprocessor.cpp:140-166 | The flood from any member of a group stays inside that group. |
| Deadlock.ScanCharacterised | src/ext-lsv/Preprocessor.cpp:90-126 | The row-major scan keeps every position it already has, adds only deadlocks, and adds every scanned blank cell whose flood reaches no target. |
| Deadlock.FindDeadlockPos | src/ext-lsv/Preprocessor.cpp:75-126 | A cell is a deadlock position exactly when it is a grid cell that is neither wall nor target and whose flood group contains no target. |
| Deadlock.DeadlockNeverWallOrTarget | src/ext-lsv/Preprocessor.cpp:82-85 | A deadlock position is in the grid and is never a wall or a target. No cell of its group is a target. |
| Deadlock.DeadlockIffNoTargetReachable | src/ext-lsv/Preprocessor.cpp:104-121 | A blank grid cell is a deadlock position exactly when no target is reachable from it under the push-lookahead rule. |
| Deadlock.DeadlockPosMap | src/ext-lsv/Preprocessor.cpp:130-138 | The boolean grid has the map's size, and an entry is true exactly for the cells that are deadlock positions. |
| Deadlock.LabelThirtySixMasksDeadlock | src/ext-lsv/Preprocessor.cpp:106-122 | With the code's labels: group label 36 is the character `T`. When the scan as written reaches a true deadlock whose flood meets a cell labelled 36, it leaves that deadlock unmarked. |
| Deadlock.ScanCellAgrees | src/ext-lsv/Preprocessor.cpp:94-124 | While at most 36 dead groups are labelled, the code's labelled scan step marks exactly the cells the reference scan step adds. |
| Deadlock.ScanAsWrittenAgrees | src/ext-lsv/Preprocessor.cpp:90-124 | The labelled scan as written, over any cells, ends with the same marked cells as the reference scan whenever it labels at most 36 groups in all. |
| Deadlock.FindDeadlockPosAsWritten | src/ext-lsv/Preprocessor.cpp:75-124 | On a board with at most 36 dead groups, the code's `findDeadlockPos` marks exactly the deadlock positions. |
| Preprocessor.Preprocess | src/ext-lsv/Preprocessor.cpp:9-248 | The analysed board is the loaded map, and its deadlock set is exactly the deadlock positions. Its tunnel set holds exactly the corridors that the row-major scan of interior cells finds starting at a cell no earlier walk has visited, so every recorded tunnel is a corridor. |
| Preprocessor.Prep.IsDeadLockBoxPos | src/ext-lsv/Preprocessor.h:36 | For an in-grid cell, the lookup in the precomputed grid is true exactly when the cell is a deadlock position. |
| Preprocessor.TargetNeverDead | src/ext-lsv/Preprocessor.cpp:82-85 | A target cell is never a deadlock position. |
| Tunnels.WalkPath | src/ext-lsv/Preprocessor.cpp:249-287 | `helper` moves on only from a cell walled on both sides into a non-wall cell. |
| Tunnels.WalkEnds | src/ext-lsv/Preprocessor.cpp:255-282 | `helper` succeeds exactly when its last cell opens to a side after at least two cells, and then returns the cell before it. A flanked last cell is a dead end whose next cell is a wall. |
| Tunnels.TunnelIdentifying | src/ext-lsv/Preprocessor.cpp:168-248 | Every recorded tunnel is `[far end, entry]` on one row or column, at least one cell long. Its entry is interior and walkable, and so are the cells before and after the entry. Every corridor cell is walled on both sides, and the cell past the far end opens to a side. Conversely, every such corridor is recorded when the row-major scan reaches its entry before any walk has visited it, and nothing else is recorded. |
| Tunnels.Scan | src/ext-lsv/Preprocessor.cpp:176-246 | The scan only adds tunnels, every one a corridor, and marks only grid cells as visited. |
| Tunnels.CorridorWalk | src/ext-lsv/Preprocessor.cpp:255-282 | Started inside a corridor, `helper` walks to its far end and returns it. |
| Tunnels.ScanCellTunnels | src/ext-lsv/Preprocessor.cpp:180-216 | One scan step adds exactly the corridors entered at the scanned cell, horizontal or vertical, and only when that cell is walkable and not yet visited. |
| Tunnels.ScanTunnels | src/ext-lsv/Preprocessor.cpp:176-218 | The scan records exactly the corridors entered at a scanned cell that was unvisited when the scan reached it. |
| Tunnels.WalkRunsOffGrid | src/ext-lsv/Preprocessor.cpp:255-282 | As written, a corridor that is open at the right or bottom edge makes `helper` touch the cell one past the grid. |
| Tunnels.RunsOffGridExample | src/ext-lsv/Preprocessor.cpp:184-216 | For the map `# #`, `# #`, `#@#` the vertical walk from (2,1) touches (3,1), which is outside the 3x3 grid. |
| Keys.NatRoundTrip | src/ext-lsv/SokobanSolver.h:98-101 | Decimal digits parse back to the number `to_string` printed. |
| Keys.IntRoundTrip | src/ext-lsv/SokobanSolver.h:98-101 | A signed decimal (leading `-` exactly for negatives) parses back to the integer. |
| Keys.CreateKeyInjective | src/ext-lsv/SokobanSolver.h:98-101 | Two keys are equal exactly when all four coordinates are equal. |
| Literals.Negate | src/ext-lsv/SokobanSolver.h:44-49 | `~` flips the sign of the id and keeps row, column, entity and time. |
| Literals.DoubleNegation | src/ext-lsv/SokobanSolver.h:44-49 | `~~l` is `l`. |
| Literals.Trichotomy | src/ext-lsv/SokobanSolver.h:26-28 | Exactly one of `<`, `==` and `>` holds between two literals, and `a < b` is `b > a`. |
| Literals.Hash | src/ext-lsv/SokobanSolver.h:57-62 | The hash is the id converted to a 64-bit unsigned value: the id itself when it is not negative, and 2^64 plus the id for small negative ids. |
| Literals.HashRespectsSame | src/ext-lsv/SokobanSolver.h:57-62 | Literals that compare equal under `operator==` (header line 26, equal ids) hash equally, as the hash map requires. |
| Literals.Clause.AddLit | src/ext-lsv/SokobanSolver.cpp:99-102 | The literal is appended at the end, and the earlier literals are unchanged. |
| Literals.AddLiteral | src/ext-lsv/SokobanSolver.cpp:187-210 | A known tuple returns its stored literal and leaves the manager unchanged. A new tuple gets id `LitIndex`, the counter grows by exactly one, and the dictionary stores the tuple under that id. The manager invariant is kept: ids are exactly 1 to `LitIndex-1`, and they are shared by both kinds. |
| Literals.StringLookupAgrees | src/ext-lsv/SokobanSolver.cpp:187-210 | Looking a tuple up through its `createKey` string finds exactly what the tuple-keyed table holds. |
| Literals.SameVariableIffSameTuple | src/ext-lsv/SokobanSolver.cpp:187-210 | In a valid manager, two literals name the same variable exactly when they were allocated for the same kind, cell, entity and time. |
| Literals.RealizeAll | src/ext-lsv/SokobanSolver.cpp:187-210 | Allocating clause by clause keeps the manager valid and only extends it. Every literal produced is the literal of its request with its requested sign. |
| Cartesian.ProductMember | src/ext-lsv/SokobanSolver.cpp:211-233 | A combination is produced exactly when it takes one element from each non-empty set, in order. Empty sets are skipped. |
| Cartesian.ProductCount | src/ext-lsv/SokobanSolver.cpp:211-233 | The number of combinations is the product of the sizes of the non-empty sets. |
| Cartesian.ProductAllEmpty | src/ext-lsv/SokobanSolver.cpp:213-214 | When every set is empty, the result is one empty combination. |
| Cartesian.ProductDistributes | src/ext-lsv/SokobanSolver.cpp:211-233 | Under any assignment, all combinations contain a true literal exactly when some set is entirely true (CNF distribution). |
| Cartesian.LitSet | src/ext-lsv/SokobanSolver.cpp:305-325 | Putting literals into an ordered `set<Lit>` gives ids in increasing order, with duplicates collapsed and nothing new added. |
| Families.InitStateCharacterised | src/ext-lsv/SokobanSolver.cpp:592-641 | `InitState` emits exactly the unit clauses at t=0 that put each player or box on its start cell positively, and negate every other in-grid non-wall cell. Box clauses skip deadlock cells. |
| Families.InitStateConsistent | src/ext-lsv/SokobanSolver.cpp:592-641 | No unit clause of `InitState` also occurs negated. |
| Families.SolvedStateShape | src/ext-lsv/SokobanSolver.cpp:642-655 | One clause per target, each with exactly `boxNum` positive box literals on that target at t=H. |
| Families.MoveClause | src/ext-lsv/SokobanSolver.cpp:244-284 | A movement clause is `~P(w,p,t) ∨ P(w,p,t2)` followed by the moves, and has between 2 and 6 literals. |
| Families.MovesMember | src/ext-lsv/SokobanSolver.cpp:248-256 | A move literal is a positive `P` at `t2` on an orthogonal neighbour that is in the grid and not a wall, and every such neighbour occurs. |
| Families.PlayerMovementMember | src/ext-lsv/SokobanSolver.cpp:234-288 | A clause is emitted exactly when it is the frame clause of a player and a walkable cell, for a step t to t+1 (0<=t<H) or t to t-1 (1<=t<=H). |
| Families.PlayerMovementCount | src/ext-lsv/SokobanSolver.cpp:234-288 | Exactly 2·H·playerNum·\|Walkable\| clauses are emitted. |
| Families.OriginsMember | src/ext-lsv/SokobanSolver.cpp:363-372 | A box frame clause allows exactly the positive `B` at t-1 on each in-grid, non-wall, non-deadlock orthogonal neighbour. |
| Families.DebugClause | src/ext-lsv/SokobanSolver.cpp:360-375 | A box frame clause is `~B(w,b,t) ∨ B(w,b,t-1)` followed by the origins, and has between 2 and 6 literals. |
| Families.DebugMember | src/ext-lsv/SokobanSolver.cpp:351-379 | A clause is emitted exactly when it is the box frame clause of a non-deadlock walkable cell, a box and 1<=t<=H. |
| Families.DebugCount | src/ext-lsv/SokobanSolver.cpp:351-379 | Exactly \|non-deadlock walkable\|·boxNum·H clauses are emitted. |
| Placement.PlayerSingleMember | src/ext-lsv/SokobanSolver.cpp:381-409 | A clause is emitted exactly when it is `~P(c,p,t) ∨ ~P(d,p,t)` for a player, 1<=t<=H, and walkable cells with c before d in reading order. |
| Placement.BoxSingleMember | src/ext-lsv/SokobanSolver.cpp:410-443 | The same as for players, for boxes over the non-deadlock walkable cells. |
| Placement.PlayerAtMostOne | src/ext-lsv/SokobanSolver.cpp:381-409 | For any two distinct walkable cells, one of the two orderings of the pair is forbidden by an emitted clause. |
| Placement.BoxAtMostOne | src/ext-lsv/SokobanSolver.cpp:410-443 | The same for a box and two distinct non-deadlock walkable cells. |
| Placement.SinglesCount | src/ext-lsv/SokobanSolver.cpp:381-443 | Exactly entities·H·(number of ordered cell pairs) clauses are emitted. |
| Placement.BoxCollisionMember | src/ext-lsv/SokobanSolver.cpp:445-468 | A clause is emitted exactly when it is `~B(w,i,t) ∨ ~B(w,j,t)` for boxes i<j, a non-deadlock walkable cell and 1<=t<=H. |
| Placement.BoxAndPlayerMember | src/ext-lsv/SokobanSolver.cpp:470-493 | A clause is emitted exactly when it is `~B(w,b,t) ∨ ~P(w,p,t)` for any box and player, a non-deadlock walkable cell and 1<=t<=H. |
| Placement.BoxAndPlayerCount | src/ext-lsv/SokobanSolver.cpp:470-493 | Exactly playerNum·boxNum·\|non-deadlock walkable\|·H clauses are emitted. |
| Placement.PlayerCollisionMember | src/ext-lsv/SokobanSolver.cpp:499-520 | A clause is emitted exactly when it is `~P(w,i,t) ∨ ~P(w,j,t)` for players i<j, a walkable cell and 1<=t<=H. |
| Placement.PlayerHeadOnMember | src/ext-lsv/SokobanSolver.cpp:521-586 | A clause is emitted exactly when it is `~P(a,p,t) ∨ ~P(n,p,t+1) ∨ ~P(n,q,t) ∨ ~P(a,q,t+1)`, for some walkable cell `a`, its right or lower neighbour `n` that is not a wall, two distinct players `p` and `q`, and 1<=t<H. `notWall` has no bounds test, so a cell just past the grid counts as such a neighbour. The clause stops `p` and `q` swapping `a` and `n` between t and t+1. |
| Placement.ExistenceMember | src/ext-lsv/SokobanSolver.cpp:778-797 | For each 1<=t<H and each box there is exactly one clause: the positive `B` on every non-deadlock walkable cell. |
| BoxPush.TriplesMember | src/ext-lsv/SokobanSolver.cpp:300-322 | A push triple occurs exactly when it belongs to a player and a direction whose near cell is a non-wall, non-deadlock cell and whose far cell is an in-grid non-wall cell. It consists of the box behind, the player behind that, and the player on the vacated cell. |
| BoxPush.TriplesCount | src/ext-lsv/SokobanSolver.cpp:300-322 | There are playerNum times (number of pushable directions) triples. |
| BoxPush.RealizeSet | src/ext-lsv/SokobanSolver.cpp:309-325 | A triple's three literals are allocated. The set holds exactly them, one literal for each request, in increasing id order. |
| BoxPush.SetHoldsIffTriple | src/ext-lsv/SokobanSolver.cpp:309-325 | Under any assignment, an allocated push set holds entirely exactly when the literals of all three of its triple's requests hold. |
| BoxPush.PushStepShape | src/ext-lsv/SokobanSolver.cpp:305-345 | With k triples, the step emits 3^k clauses, or none when k=0. Each clause is `~B(w,b,t) ∨ B(w,b,t-1)` followed by one literal from each triple, in triple order. |
| BoxPush.PushStepMeaning | src/ext-lsv/SokobanSolver.cpp:327-345 | When some triple applies, under any assignment all of the step's clauses hold exactly when `~B(w,b,t)` or `B(w,b,t-1)` holds, or when some push triple has the literals of all three of its requests true. Those requests are the box on the near cell at t-1, the player behind it at t-1, and that player on the near cell at t. |
| BoxPush.CellTotalIsProduct | src/ext-lsv/SokobanSolver.cpp:292-347 | A cell gets boxNum·H·PushCount clauses. |
| BoxPush.BoxPushMovement | src/ext-lsv/SokobanSolver.cpp:290-349 | Only non-deadlock walkable cells get clauses, in the number counted above. Every clause is a push clause for a box there and 1<=t<=H. The manager stays valid and is only extended. |
| Encoder.AllConstraints | src/ext-lsv/SokobanSolver.cpp:975-993 | The clause list is, in order: the realized `InitState`, `SolvedState` and player movement clauses; then the push clauses; then the realized player and box placement, box collision, box/player collision, existence and box frame clauses. |
| Encoder.AllConstraintsOpensWithInitState | src/ext-lsv/SokobanSolver.cpp:975-980 | The encoding opens with the `InitState` units, each one literal for a start-cell or free-cell request at t=0. |

## Left out

- Opening the map file and `getline`: the map is a `seq<string>` of lines.
- `sokoban.cpp` (the horizon search loop, the SAT calls, timing, the table output and the animation), `CnfWriter` (calls into the SAT library) and `debugger` (file output): I/O and foreign code.
- The older copies of `loadMap` and `bfs`/`findDeadLockBoxPos` inside `SokobanSolver.cpp`: the driver loads the map and finds the deadlock positions with the `Preprocessor` versions and never calls these.
- Encoder.AllConstraints: the `TunnelIdentifying()` call at `SokobanSolver.cpp:979` runs the solver's own older copy (`helper` at lines 799-829, `TunnelIdentifying` at 831-904), not the `Preprocessor` one. `SokobanSolver.h` declares neither, and the model follows the `.cpp` definitions. The call adds no clause and allocates no literal, and no clause generator that `AllConstraints` calls reads the tunnels it collects, so the model leaves the call out. That copy also marks `visited[row][col]` before any bounds test, and it lacks the dead-end test of `Preprocessor.cpp:256-257`. So the off-grid write of the first finding is reached on every `AllConstraints` call for such a board. On that finding's 3x3 map the vertical walk started at line 869 writes `visited[3][1]`. The model does not represent this second, unguarded walk.
- `tunnelMacro`, `LearntConstraints` and `ObstacleConstraints`: not called by `AllConstraints`.
- Pull mode (`findPullRegions`, `PullOnlyConstraints`): not part of the modelled sources.
- Soundness and completeness of the encoding against the Sokoban move rules: only the structure and meaning of each clause family is proved.
- The `Lit::identity` field and the ownership of `Clause*`: a literal's kind is read from the allocation dictionary.
- The `tunnel_map` grid and the verbose printouts of `findDeadlockPos` and `TunnelIdentifying`: debug output only.
- Deadlock.FindDeadlockPos: gives the deadlock positions as a set. The order of the `deadlockPositions` list is not modelled.
- Deadlock.FindDeadlockPos: models the evident intent for boards with more than 36 dead groups (see Findings). `ScanAsWritten` keeps the code's labels, and `FindDeadlockPosAsWritten` shows the two agree up to 36 dead groups.
- Tunnels.TunnelIdentifying: only cells inside the grid are marked visited. As written, `helper` can write one past the grid (see Findings).
- Literals.Hash: gives the 64-bit conversion only for ids a 32-bit `int` can hold; `size_t` wrap-around is not otherwise modelled.
- Literals.AddLiteral: `LitIndex` and `Lit::x` are 32-bit `int`s in the code, so after 2^31 - 1 allocations the counter overflows and ids are no longer positive or consecutive. The model's counter is unbounded, so its `r.0.next == m.next + 1` and its positive ids match the code only while fewer than 2^31 - 1 literals have been allocated.
- Boards.LoadMap: the map is taken to be ASCII. `getline` yields bytes, so in the code a multi-byte character becomes several walkable cells and `line.size()` counts bytes; the model treats each `char` of a line as one cell.
- Deadlock.FindDeadlockPos: the repeats of the `deadlockPositions` list are not modelled. Dead group 240 is labelled `char(288)`, which is `' '`, so its cells stay blank and are pushed again when a later group reaches them. The set of positions is unaffected.
- Families.PlayerMovementMember: movement literals on cells beyond a short line are kept, as in the code. `notWall` is a list lookup, so such padding cells count as non-walls.
- Placement.PlayerHeadOnMember and Placement.PlayerCollisionMember: modelled, but not part of `Encoder.AllConstraints`, because the solver has both calls commented out.

Deadlock positions include blank padding cells beyond a short line. Those cells are in the grid but never read, so they are neither walls nor walkable. The model follows the code.

## Findings

| source | as written | input that shows it | evidently intended | confidence | as-written member | corrected member |
|---|---|---|---|---|---|---|
| src/ext-lsv/Preprocessor.cpp:255-282 | `helper` marks `visited[row][col]` before checking bounds. A corridor that runs open to the right or bottom edge steps onto the cell one past the grid. The older copy in `SokobanSolver.cpp` (lines 799-829), which `AllConstraints` calls at line 979, does the same. | The 3x3 map `# #`, `# #`, `#@#`: the vertical walk from (2,1) reaches (3,1). | Stop at the grid edge and mark only grid cells. | not executed | Tunnels.RunsOffGridExample | Tunnels.TunnelIdentifying |
| src/ext-lsv/Preprocessor.cpp:106-119 | Dead group `k` is labelled `char(k + '0')`. Group 36 is labelled `T`, which a later group check reads as a target. | A map with at least 37 target-free groups, where a cell scanned later has a flood that reaches a cell of the 37th group. | Dead groups are labelled apart from targets, and every blank cell whose flood reaches no target is a deadlock. | not executed | Deadlock.LabelThirtySixMasksDeadlock | Deadlock.FindDeadlockPos |
