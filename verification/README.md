# Navigation mesh core of cocos2d-x, modelled in Dafny

This project models `NavMesh`, the navigation-mesh wrapper of cocos2d-x. It
covers the four pieces of `NavMesh` that have discrete logic:

- **Loading a tile-cache set** (`read`). This part checks the header's magic
  number and version, then sets up the Detour mesh and tile cache. It then
  runs the tile loop, which stops at the first terminating record, and finally
  sizes the agent and obstacle slot arrays.
- **Fixed-capacity slot arrays** for agents and obstacles. Add takes the
  lowest empty slot and retains the entity. Remove empties the lowest slot
  that holds the identical handle and releases it. When add finds no free
  slot, or remove finds no matching slot, nothing happens. Handles are never
  null here; what the code does with a null argument is under "Left out".
- **The per-frame update protocol** (`update`). It is modelled as a trace of
  calls: pre-updates, one crowd step, then post-updates.
- **The control skeleton of `findPath`**. This covers the empty-corridor
  short-circuit and the 2048-point budget. It covers what each pass of the
  walk appends: the end point, which stops the walk; the off-mesh entry
  point, which is appended a second time only when the count is odd, and
  the exit point after it; or the position reached. It also covers the
  scan-and-shift that advances the polygon corridor past an off-mesh
  connection. `PathFollow.Path` is a reference definition of the points
  appended, one pass at a time, and `FindPath` is proved to append exactly
  those.

All calls into Detour take their results from oracle datatypes, whose fields
are total functions. This includes allocation, initialisation, adding tiles,
nearest-polygon and corridor searches, steering, surface moves, corridor
fix-ups, polygon heights and off-mesh end points. The file system is an
oracle too. Positions are an opaque `Vec3`, and all vector arithmetic belongs
to the oracles. The tile file arrives already decoded: a header, plus the
record that reading yields at each position.

Modules: `Slots` (the generic slot registry), `Mesh` (the mesh's state and
agent/obstacle registration), `TileSetLoad` (`read`), `FrameUpdate`
(`update`) and `PathFollow` (`findPath`). `Wrappers` and `Geometry` hold
`Option` and `Vec3`.

A reader of the class's interface might expect four things that the code
does not do. The model follows the code in each case:

- That an agent occupies at most one slot. `addNavMeshAgent` searches only
  for an empty slot and never for the agent itself
  (cocos/navmesh/CCNavMesh.cpp:212), so the same agent can fill two slots
  (`Slots.AddAllowsDuplicates`).
- That `read` closes the file on every exit path. Every failure after
  `fopen` calls `fclose`, but the success return at
  cocos/navmesh/CCNavMesh.cpp:176 does not (see Findings).
- That the off-mesh entry point is always emitted twice. The second copy is
  pushed only when the first one leaves the count odd
  (cocos/navmesh/CCNavMesh.cpp:375-389, `PathFollow.AppendEntry`).
- That `update` skips empty slots. Its four loops call through every slot
  pointer (cocos/navmesh/CCNavMesh.cpp:240-257; see Findings).

## Model

| member | source | states |
|---|---|---|
| Slots.FirstIndexOf | cocos/navmesh/CCNavMesh.cpp:181-182 | The scan behind every add and remove. It returns None exactly when the value is absent. Otherwise it returns the one index that holds the value with no earlier occurrence. |
| Slots.Fresh | cocos/navmesh/CCNavMesh.cpp:173-174 | The slot array built by a load has the requested capacity, and every slot is empty. |
| Slots.Add | cocos/navmesh/CCNavMesh.cpp:189-197 | The entity goes into the lowest-index empty slot and is registered and retained once. No other slot changes. With no empty slot, nothing changes. |
| Slots.Remove | cocos/navmesh/CCNavMesh.cpp:179-187 | The lowest-index slot holding the identical handle is emptied, and the entity is unregistered and released once. With no such slot, nothing changes. |
| Slots.FreshConsistent | cocos/navmesh/CCNavMesh.cpp:173-174 | A fresh registry holds nothing, and its retains and registrations match its (empty) slots. |
| Slots.AddPreservesConsistent | cocos/navmesh/CCNavMesh.cpp:189-197 | After an add, the retains and registrations still equal the multiset of occupied slots. |
| Slots.RemovePreservesConsistent | cocos/navmesh/CCNavMesh.cpp:179-187 | After a remove, the retains and registrations still equal the multiset of occupied slots. |
| Slots.AddThenRemoveRestores | cocos/navmesh/CCNavMesh.cpp:179-197 | Take an entity that no slot holds. Adding it and then removing it gives back the original registry. |
| Slots.RemoveThenAddKeepsCopies | cocos/navmesh/CCNavMesh.cpp:179-197 | Removing a held entity and re-adding it leaves it in as many slots as before (once, if it was held once). The number of empty slots is also unchanged. |
| Slots.AddAllowsDuplicates | cocos/navmesh/CCNavMesh.cpp:189-197 | Add does not check for duplicates. With two empty slots, adding one entity twice puts it into two more slots. |
| Slots.AddOccupiesOneSlot | cocos/navmesh/CCNavMesh.cpp:189-197 | An add fills exactly one empty slot when one exists. When none exists, the array stays full. |
| Slots.AddAllFillsInOrder | cocos/navmesh/CCNavMesh.cpp:210-219 | Successive adds into a fresh array hand out slots in index order. The k-th entity lands in slot k, and the later slots stay empty. |
| Slots.OverCapacityAddIsNoOp | cocos/navmesh/CCNavMesh.cpp:210-219 | After n adds fill an n-slot array, no slot is empty. The (n+1)-th add is then a no-op. |
| Mesh.AddNavMeshAgent | cocos/navmesh/CCNavMesh.cpp:210-219 | The agent goes into the lowest empty agent slot, is retained and added to the crowd once, and gets this mesh's query back-reference. Nothing else changes. A full array changes nothing. |
| Mesh.RemoveNavMeshAgent | cocos/navmesh/CCNavMesh.cpp:199-208 | The lowest slot holding this very agent is emptied. The agent is released and removed from the crowd once, and its query back-reference is cleared. Nothing else changes. An absent agent changes nothing. |
| Mesh.AddNavMeshObstacle | cocos/navmesh/CCNavMesh.cpp:189-197 | The obstacle goes into the lowest empty obstacle slot and is retained and added to the tile cache once. Nothing else changes. A full array changes nothing. |
| Mesh.RemoveNavMeshObstacle | cocos/navmesh/CCNavMesh.cpp:179-187 | The lowest slot holding this very obstacle is emptied, and the obstacle is released and removed from the tile cache once. Nothing else changes. An absent obstacle changes nothing. |
| Mesh.OperationsPreserveValid | cocos/navmesh/CCNavMesh.cpp:179-219 | All four operations keep both registries consistent and never change either array's capacity. |
| Mesh.AddThenRemoveAgentRestores | cocos/navmesh/CCNavMesh.cpp:199-219 | Adding a fresh agent and removing it again restores the mesh. The only remaining change is the agent's cleared query pointer. |
| Mesh.AddThenRemoveObstacleRestores | cocos/navmesh/CCNavMesh.cpp:179-197 | Adding an obstacle that no slot holds and removing it again gives back the same mesh. |
| TileSetLoad.BuiltTiles | cocos/navmesh/CCNavMesh.cpp:158-162 | The tiles built from a prefix of records are never more than the records, and no built reference is zero. |
| TileSetLoad.ReadTiles | cocos/navmesh/CCNavMesh.cpp:146-163 | The loop reads at most numTiles record headers (none when numTiles <= 0). It stops at the first record with a zero reference, a zero size or a failed buffer allocation, and every earlier record passed those checks. The tiles built are exactly the nonzero addTile answers of the accepted prefix. |
| TileSetLoad.ReadTileSet | cocos/navmesh/CCNavMesh.cpp:94-177 | read as written. It loads exactly when the file opens, the magic and version match, and the mesh and cache allocate and initialise. For each step, when every earlier step succeeded and this one fails, read reports this step and holds exactly what the earlier steps allocated: nothing when the file does not open (and no file), nothing after a bad magic, a bad version or a failed mesh allocation, the mesh after a failed mesh init or cache allocation, and both after a failed cache init; the file is closed on every failure after it opened. On success the file is left open, the agent array holds 128 empty slots, the obstacle array holds maxObstacles empty slots, and the tile loop behaves as in ReadTiles. |
| TileSetLoad.Read | cocos/navmesh/CCNavMesh.cpp:94-177 | read with the missing fclose added. It gives the same verdict, the same step-by-step failures and the same loaded mesh as ReadTileSet, and no exit path leaves the file open. |
| TileSetLoad.LoadedMeshIsValid | cocos/navmesh/CCNavMesh.cpp:173-174 | A freshly loaded mesh is consistent, holds no agents, and has 128 agent slots. |
| TileSetLoad.BuiltTilesExtend | cocos/navmesh/CCNavMesh.cpp:146-163 | The tiles built from a shorter prefix are a prefix of those built from a longer one. Stopping early keeps every tile already built. |
| TileSetLoad.BuiltTilesComeFromRecords | cocos/navmesh/CCNavMesh.cpp:158-162 | Every built reference is the addTile answer for one of the accepted records, given at that record's position. |
| TileSetLoad.NoTilesDeclaredBuildsNone | cocos/navmesh/CCNavMesh.cpp:146-163 | A load whose header declares no tiles reads no record and builds no tile. |
| FrameUpdate.Sweep | cocos/navmesh/CCNavMesh.cpp:240-242 | One pass over a slot array visits the occupied slots in index order and skips the empty ones. |
| FrameUpdate.Update | cocos/navmesh/CCNavMesh.cpp:238-257 | update with empty slots skipped. The trace is the pre-updates of agents and then obstacles, one crowd step if there is a crowd, and then the post-updates of agents and obstacles. |
| FrameUpdate.SweepAsWritten | cocos/navmesh/CCNavMesh.cpp:240-242 | The unchecked loop. It dereferences null exactly when some slot is empty, and it visits every slot in order when none is. |
| FrameUpdate.UpdateAsWritten | cocos/navmesh/CCNavMesh.cpp:238-257 | update as written. It hits a null dereference exactly when some slot is empty, and matches the corrected frame when no slot is. With an empty agent slot, the crowd never steps. |
| FrameUpdate.FreshMeshUpdateDereferencesNull | cocos/navmesh/CCNavMesh.cpp:173-174 | On a freshly loaded mesh, whatever its obstacle capacity, the first call of update as written goes through an empty slot. The corrected update only steps the crowd. |
| FrameUpdate.FrameTraceInOrder | cocos/navmesh/CCNavMesh.cpp:238-257 | Applied to the occupied slots of a mesh, the frame never reorders its stages: agent pre-updates, obstacle pre-updates, crowd step, agent post-updates, obstacle post-updates. |
| FrameUpdate.FrameInOrder | cocos/navmesh/CCNavMesh.cpp:238-257 | For any agent and obstacle sequences, the frame's stages come in the order pre-updates, crowd step, post-updates, with agents before obstacles in each phase. |
| FrameUpdate.FrameStepsCrowdOnce | cocos/navmesh/CCNavMesh.cpp:248-249 | For any agent and obstacle sequences, the frame holds one crowd step with a crowd and none without one, and no null dereference. |
| FrameUpdate.FrameTraceStepsCrowdOnce | cocos/navmesh/CCNavMesh.cpp:248-249 | The crowd steps once per frame if it exists and never otherwise. No call goes through an empty slot. |
| PathFollow.ScanCorridor | cocos/navmesh/CCNavMesh.cpp:359-366 | The scan reads the first entry twice. If the steer polygon is first, it scans nothing and the previous reference stays 0. If the polygon first occurs at j >= 1, it stops after j+1 entries with the pair (polys[j-1], polys[j]). If it is absent, it scans everything and ends on the last two entries. |
| PathFollow.ShiftCorridor | cocos/navmesh/CCNavMesh.cpp:367-368 | The entries from npos on move to the front of the array in order. The entries behind them keep their old values. |
| PathFollow.AdvanceOverOffMesh | cocos/navmesh/CCNavMesh.cpp:359-369 | The corridor becomes the suffix after the scanned entries. If the steer polygon is first, nothing is consumed and the previous reference is 0. If it first occurs at j >= 1, j+1 entries go and the lookup gets (polys[j-1], polys[j]). If it is absent, the corridor empties. The first array slot keeps its old value when nothing is shifted. The result is the reference cut `Advanced` that the walk's definition uses. |
| PathFollow.AppendEntry | cocos/navmesh/CCNavMesh.cpp:375-389 | The entry point is appended once, and again exactly when the first copy leaves the count odd. The count is then even and still within the 2048 budget. |
| PathFollow.FindPath | cocos/navmesh/CCNavMesh.cpp:260-409 | Points are only appended, never cleared. The points appended are exactly `Path`: nothing when the corridor is empty, otherwise the start snapped onto its polygon and then the walk's passes, each appending what the lemmas below state. The result is also finished: at most 2048 points, a start point only first, an end point only last and at the end snapped onto the last polygon, the parity rule for entry points, each entry followed by its copy or its exit point, and each exit point right after an entry. The loop ends on every oracle. |
| PathFollow.PathShape | cocos/navmesh/CCNavMesh.cpp:275-408 | For any oracle and a non-empty corridor, the reference path is finished in the sense above. |
| PathFollow.WalkKeepsShape | cocos/navmesh/CCNavMesh.cpp:298-408 | Walking on from any well-formed prefix that is not waiting on an entry's partner leaves a finished path, whatever the oracles answer. |
| PathFollow.PassKeepsShape | cocos/navmesh/CCNavMesh.cpp:298-408 | One pass keeps the prefix well formed: a pass that stops leaves it finished, any other leaves it ready for the next pass. |
| PathFollow.CrossKeepsShape | cocos/navmesh/CCNavMesh.cpp:352-405 | An off-mesh crossing never stops the walk, and what it appends keeps the entry/exit discipline and the parity rule. |
| PathFollow.WalkStopsWithoutSteerTarget | cocos/navmesh/CCNavMesh.cpp:304-306 | Without a steer target, the walk appends nothing more and stops. |
| PathFollow.WalkStopsAtEnd | cocos/navmesh/CCNavMesh.cpp:339-351 | A pass that reaches the end of the path appends the snapped end itself, marked as the end, and the walk stops there. |
| PathFollow.WalkSteps | cocos/navmesh/CCNavMesh.cpp:309-405 | A pass that reaches neither the end nor an off-mesh connection appends the moved position on the floor of the first polygon, and walks on from it along the fixed-up corridor. |
| PathFollow.WalkCrosses | cocos/navmesh/CCNavMesh.cpp:352-405 | A pass that reaches an off-mesh connection whose end points resolve appends the entry (twice when the count so far is even), then the exit on the floor of the first polygon left after the cut, when the budget has room. The walk goes on from the exit along the rest of the corridor. |
| PathFollow.WalkSkipsUnresolvedLink | cocos/navmesh/CCNavMesh.cpp:352-405 | A pass that reaches an off-mesh connection whose end points do not resolve still cuts the corridor, appends the moved position, and walks on along the rest. |
| PathFollow.PathWithoutSteerTarget | cocos/navmesh/CCNavMesh.cpp:292-306 | With no steer target from the snapped start, findPath appends the snapped start alone. |
| PathFollow.PathEndsOnFirstPass | cocos/navmesh/CCNavMesh.cpp:292-351 | When the first pass already reaches the end, findPath appends the snapped start and the snapped end, and nothing else. |
| PathFollow.WalkPass | cocos/navmesh/CCNavMesh.cpp:298-408 | One iteration of the loop stores the first pass of the reference walk: when it stops, what is stored is the whole walk; otherwise it stores at least one point, stays within the budget, and the walk from where it leaves off completes the walk it started. |
| PathFollow.WalkLoop | cocos/navmesh/CCNavMesh.cpp:297-408 | The loop runs passes while the corridor is not empty, the budget has room and no pass broke out, and what it stores after the start point is exactly the reference walk, whatever the oracles answer. |
| PathFollow.SteerStep | cocos/navmesh/CCNavMesh.cpp:309-405 | Once a steer target is known, the move, the end check, the off-mesh handling and the final store append exactly the reference pass and leave the corridor and position it names. |
| PathFollow.CrossStep | cocos/navmesh/CCNavMesh.cpp:372-405 | After the corridor is cut, resolving the connection and storing append exactly the reference crossing: its entry run and exit point, or the moved position when the end points do not resolve. |
| PathFollow.EntryRunsEndEven | cocos/navmesh/CCNavMesh.cpp:375-389 | Right after the last copy of an off-mesh entry point, the number of appended points is even. |

## Left out

- File I/O: `fopen` is a boolean oracle. The header and records arrive already decoded, so packing, `sizeof`, endianness and short reads are not modelled. A record is whatever the read at that position yields.
- Detour and Recast are not part of this model. Every call into them is an oracle answer: allocation and `init` of mesh and cache, `addTile`, `buildNavMeshTile` (whose status the source ignores), `dtAllocCrowd` and crowd `init`/`update`, query `init`, `findNearestPoly`, `findPath`, `closestPointOnPoly`, `getSteerTarget`, `moveAlongSurface`, `fixupCorridor`, `fixupShortcuts`, `getPolyHeight` and `getOffMeshConnectionPolyEndPoints`. The search extent, the node-pool size, `STEP_SIZE`, `SLOP` and the step clamp live inside those oracles.
- The crowd and query allocations at the end of a load are unchecked in the source. The model assumes they succeed, so a loaded mesh always has a crowd.
- Floating-point vector geometry: the step length and clamp, `inRange` and re-heighting are oracle results over opaque positions.
- Reference counting is reduced to the mesh's net retains per entity. `autorelease`, object deletion on the last release, `create`/`initWithFilePath` (which only forward `read`'s verdict) and the destructor are not modelled.
- Debug draw (`isDebugDrawEnabled`, `setDebugDrawEnable`, `debugDraw`) is a rendering pass-through.
- PathFollow.FindPath: each appended point carries a kind tag (start, step, off-mesh entry, exit, end) that the source does not store. The source's output is the positions alone.
- PathFollow.AdvanceOverOffMesh: requires a non-empty corridor. It is only called after the surface walk and its fix-ups, which never return an empty corridor; that guarantee belongs to Detour and is encoded in the oracle's result type.
- TileSetLoad.ReadTileSet: `maxObstacles` is taken as a natural number. A negative value, which the vector's `assign` would reject, is not modelled.
- Null handles: `Mesh.AgentHandle` and `Mesh.ObstacleHandle` cannot be null. In the code, a null argument to a remove matches the first empty slot (`std::find` looks for `nullptr`) and then calls `removeFrom` through the null pointer, and a null argument to an add with a free slot calls `addTo` through it (cocos/navmesh/CCNavMesh.cpp:181-183, 191-193, 201-203, 212-214). Both are undefined behaviour, which has no value to model.
- Slots.Remove: the release is a multiset difference, which cannot go below zero. In a registry where retains follow the slots (`Slots.Consistent`) this is exact.
- The camera and scene code and the particle affectors are engine plumbing and floating-point collision code outside this core. The headers among them declare no logic.

## Findings

| source | as written | input that shows it | evidently intended | confidence | as-written member | corrected member |
|---|---|---|---|---|---|---|
| cocos/navmesh/CCNavMesh.cpp:238-257 | `update` calls `preUpdate`/`postUpdate` through every slot pointer without checking for null | any freshly loaded mesh: all 128 agent slots are empty, so the first call of the first frame goes through a null pointer (FrameUpdate.FreshMeshUpdateDereferencesNull) | skip empty slots | high; not executed | FrameUpdate.UpdateAsWritten | FrameUpdate.Update |
| cocos/navmesh/CCNavMesh.cpp:94-177 | `read` closes the file on every failure path but returns true without `fclose` | any tile set that loads: the success return leaves the file handle open (TileSetLoad.ReadTileSet) | close the file before returning true, as the failure paths do | high; not executed | TileSetLoad.ReadTileSet | TileSetLoad.Read |
