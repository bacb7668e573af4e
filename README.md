# Ghoul2 bookkeeping, configstrings and BSP helpers in Dafny

This project models three parts of a Quake III–derived engine and proves
properties of each.

- **Ghoul2 per-instance bookkeeping** (`src/rd-vulkan/G2_surfaces.cpp`,
  `src/rd-vulkan/G2_bolts.cpp`, `src/rd-vulkan/G2_misc.cpp`):
  - the surface override list of an instance: lookup, switching surfaces on
    and off, generated surfaces, removal with tail compaction, pruning and
    re-rooting;
  - the reference-counted bolt list, and the pruning of bolts that point at
    surfaces or bones that are no longer active;
  - the walks over the surface hierarchy that decide which surfaces are
    active, transformed or traced;
  - the arena that holds transformed vertices;
  - the half-space mask algebra of the radius trace;
  - insertion into the fixed array of collision records;
  - LOD selection and bone-angle interpolation.
- **Server configstring table** (`src/server/sv_init.cpp`):
  - setting, reading and adding configstrings;
  - the chunked sending of long values (`bcs0`/`bcs1`/`bcs2`);
  - clamping of `sv_maxclients` and reallocation of the client array.
- **BSP loading helpers** (`src/rd-vulkan/tr_bsp.cpp`):
  - the overbright colour shift;
  - lightmap counting, the lightmap atlas and its tile offsets;
  - novis rounding, child-index decoding and the triangle-surface checks.

Module layout, in import order:

| Module | File | Contents |
|---|---|---|
| `Text` | text.dfy | Case-insensitive comparison and bounded copy |
| `Ghoul2Types` | ghoul2_types.dfy | Flags, slots, the mesh hierarchy as an index tree, the walks, the instance class |
| `G2Lookup` | g2_lookup.dfy | The read-only surface queries |
| `G2Misc` | g2_misc.dfy | LOD choice and `G2_LerpAngles` |
| `G2Bolts` | g2_bolts.dfy | The bolt list |
| `G2Surfaces` | g2_surfaces.dfy | The mutating surface operations and `G2_SetRootSurface` |
| `G2Transform` | g2_transform.dfy | The arena and the transform pass |
| `G2Trace` | g2_trace.dfy | The radius and point tracers and the trace walk |
| `ServerInit` | sv_init.dfy | `sv_init.cpp` |
| `BspLoad` | tr_bsp.dfy | `tr_bsp.cpp` |

How the source's entities are represented:

- An instance (`CGhoul2Info`) is a class whose list fields the operations
  reassign.
- The server state is a class holding the configstring table, the client
  array and the log of commands handed to `SV_SendServerCommand`.
- The mesh hierarchy is a value with parent, children, names and default
  flags per surface. It also carries a rank that strictly decreases from
  parent to child; the rank is a witness that the hierarchy has no cycles.
- Surface flags, vertex masks and the novis length are 32-bit bit-vectors.
  Counts and indices are unbounded integers.

## Model

| member | source | states |
|---|---|---|
| Text.CopyBounded | src/server/sv_init.cpp:116-117 | Q_strncpyz keeps a prefix of at most destSize-1 characters; the whole string when it fits, exactly destSize-1 characters otherwise |
| Text.SameIgnoringCaseSym | src/rd-vulkan/G2_surfaces.cpp:135 | The case-insensitive name comparison does not depend on argument order |
| Ghoul2Types.FirstOverrideFrom | src/rd-vulkan/G2_surfaces.cpp:56-68 | The first slot at or after i whose surface is s, with no earlier match; None exactly when no slot from i on names s |
| Ghoul2Types.VisitAllMember | src/rd-vulkan/G2_surfaces.cpp:271-276 | A surface is marked by the walks from a list of children exactly when the walk from one of them marks it |
| Ghoul2Types.ReachesExtend | src/rd-vulkan/G2_surfaces.cpp:260-276 | A walk that does not stop at s carries on into the subtree of every child of s |
| Ghoul2Types.ReachesChild | src/rd-vulkan/G2_surfaces.cpp:260-276 | A surface strictly below s is reached only when s does not stop the walk, and then through one child of s |
| Ghoul2Types.VisitSound | src/rd-vulkan/G2_surfaces.cpp:248-277 | Every surface the walk marks is reachable from the start without passing a stopping surface, and passes the marking test |
| Ghoul2Types.VisitComplete | src/rd-vulkan/G2_surfaces.cpp:248-277 | Every reachable surface that passes the marking test is marked |
| Ghoul2Types.VisitIff | src/rd-vulkan/G2_surfaces.cpp:248-277 | The walk marks exactly the surfaces it reaches whose effective flags (override, else default) pass the rule's marking test |
| Ghoul2Types.ReachesIsAncestor | src/rd-vulkan/G2_surfaces.cpp:271-276 | A surface the walk reaches lies in the subtree of the start |
| Ghoul2Types.AncestorChain | src/rd-vulkan/G2_surfaces.cpp:619-641 | The ancestors of a surface form a chain: of any two, one is an ancestor of the other |
| Ghoul2Types.SiblingSubtreesDisjoint | src/rd-vulkan/G2_surfaces.cpp:272-276 | The subtrees of two different children of one surface share no surface, so one child's walk cannot touch another's |
| Ghoul2Types.VisitInSubtree | src/rd-vulkan/G2_surfaces.cpp:240-278 | A walk marks only surfaces in the subtree it starts from |
| G2Lookup.FindOverrideSurface | src/rd-vulkan/G2_surfaces.cpp:56-68 | Returns the first slot whose surface is the query; none exactly when no slot names it; the list is read only |
| G2Lookup.FirstNamedFrom | src/rd-vulkan/G2_surfaces.cpp:71-90 | The first mesh surface at or after i with the given name ignoring case, no earlier one; -1 exactly when none has it |
| G2Lookup.IsSurfaceLegal | src/rd-vulkan/G2_surfaces.cpp:71-90 | The index of the first surface with the name and its default flags; -1 exactly when no surface has the name |
| G2Lookup.LastNamedBelow | src/rd-vulkan/G2_surfaces.cpp:105-152 | The last real slot below i whose surface carries the name, no later one does; -1 when none |
| G2Lookup.FindSurface | src/rd-vulkan/G2_surfaces.cpp:105-152 | The back-to-front scan returns the last real slot naming the surface, or -1 |
| G2Lookup.IsSurfaceOff | src/rd-vulkan/G2_surfaces.cpp:202-238 | The override's flags when the list names the surface, else the default flags of the first mesh surface of that name, else 0 |
| G2Lookup.GetParentSurface | src/rd-vulkan/G2_surfaces.cpp:561-574 | -1 at a root, otherwise a surface that lists the query among its children and ranks above it |
| G2Lookup.IsSurfaceRendered | src/rd-vulkan/G2_surfaces.cpp:584-645 | As written: OFF when some ancestor, read with its override else the queried surface's own default flags, has NODESCENDANTS; otherwise the surface's own flags |
| G2Lookup.RenderedFlagsIntended | src/rd-vulkan/G2_surfaces.cpp:621-642 | Corrected query: OFF whenever an ancestor, read under its own name, has NODESCENDANTS; otherwise OFF or the surface's own flags |
| G2Lookup.IntendedHonoursAncestorDefaults | src/rd-vulkan/G2_surfaces.cpp:621-642 | With no overrides, an ancestor whose default flags carry NODESCENDANTS switches every surface below it off in the corrected query |
| G2Lookup.TorsoHeadRendered | src/rd-vulkan/G2_surfaces.cpp:626 | On a two-surface model whose root has NODESCENDANTS by default, the query as written reports the child with flags 0 and the corrected one reports it OFF |
| G2Misc.DecideTraceLod | src/rd-vulkan/G2_misc.cpp:197-216 | The result is min(max(useLod, lodBias), numLods-1): never above the coarsest LOD, at least both inputs unless capped, a valid LOD when some input is non-negative |
| G2Misc.DecideTraceLodIdempotent | src/rd-vulkan/G2_misc.cpp:197-216 | Choosing the LOD again from the chosen one changes nothing |
| G2Misc.LerpMatrix | src/rd-vulkan/G2_misc.cpp:1453-1460 | All 12 coefficients are interpolated: now + t*(next-now) |
| G2Misc.LerpMatrixEnds | src/rd-vulkan/G2_misc.cpp:1453-1460 | The interpolation gives the current matrix at 0 and the next one at 1 |
| G2Misc.LerpBone | src/rd-vulkan/G2_misc.cpp:1437-1466 | newMatrix is interpolated when the next bone exists and the current one is live with BONE_ANGLES_TOTAL, is a copy of matrix when the next bone is missing, and is left alone otherwise; nothing else changes |
| G2Misc.LerpBones | src/rd-vulkan/G2_misc.cpp:1437-1466 | Every bone of the list gets the LerpBone rule, the length is unchanged |
| G2Misc.LerpPoseIndependent | src/rd-vulkan/G2_misc.cpp:1437-1466 | The interpolation reads nothing it writes: the next frame's newMatrix does not matter, and only newMatrix changes |
| G2Misc.LerpAngles | src/rd-vulkan/G2_misc.cpp:1432-1470 | Each instance in use gets LerpBones of its bones against the next frame's instance when that one is in use, else against none; instances with index -1 keep their bones, even when the two vectors share instances; only bone lists are in the frame |
| G2Misc.LerpInstance | src/rd-vulkan/G2_misc.cpp:1440-1466 | The bone loop of one instance performs LerpBones and leaves every pose the interpolation reads unchanged |
| G2Misc.LerpBoneAt | src/rd-vulkan/G2_misc.cpp:1441-1465 | One bone becomes LerpBone of its old state against the next frame's bones as they were before the loop, and its pose is unchanged |
| G2Bolts.FirstMatchFrom | src/rd-vulkan/G2_bolts.cpp:32-73 | The first slot at or after i matching the key, with no earlier match; -1 exactly when none matches |
| G2Bolts.FirstMatchUnique | src/rd-vulkan/G2_bolts.cpp:32-73 | A slot is the first match exactly when it matches and no earlier slot does |
| G2Bolts.FindBoltBoneNum | src/rd-vulkan/G2_bolts.cpp:32-51 | The first slot bolted to the bone, skipping slots whose bone is -1; -1 exactly when there is none |
| G2Bolts.FindBoltSurfaceNum | src/rd-vulkan/G2_bolts.cpp:54-73 | The first slot bolted to the surface whose type has every bit of the flags; -1 exactly when there is none |
| G2Bolts.AddRef | src/rd-vulkan/G2_bolts.cpp:88-120 | An existing match gets its count raised and is returned; otherwise the entry goes into the first free slot and the list keeps its length, or is appended only when no slot is free; no other slot changes |
| G2Bolts.AddRefFound | src/rd-vulkan/G2_bolts.cpp:88-120 | After an add, a scan for the same key returns the slot the add returned |
| G2Bolts.AddRefKeepsWF | src/rd-vulkan/G2_bolts.cpp:88-120 | Adds keep every in-use slot counted and the list free of trailing free slots |
| G2Bolts.AddBoltSurfNumSpec | src/rd-vulkan/G2_bolts.cpp:77-122 | -1 with the list unchanged exactly when surfNum is negative or not below the override-list size; else a slot for that surface that a scan finds |
| G2Bolts.BumpExisting | src/rd-vulkan/G2_bolts.cpp:88-97 | Returns the first matching slot and raises its count by one, or -1 with the list unchanged |
| G2Bolts.PlaceEntry | src/rd-vulkan/G2_bolts.cpp:101-120 | The entry replaces the first free slot, or is appended when none is free; the index of its slot is returned |
| G2Bolts.AddRefTo | src/rd-vulkan/G2_bolts.cpp:88-120 | The list and index are those AddRef computes |
| G2Bolts.AddBoltSurfNum | src/rd-vulkan/G2_bolts.cpp:77-122 | The list and result are those AddBoltSurfNumSpec computes |
| G2Bolts.FirstBoneNamedFrom | src/rd-vulkan/G2_bolts.cpp:183-192 | The first skeleton bone at or after i with the name ignoring case; -1 exactly when none |
| G2Bolts.AddBoltSpec | src/rd-vulkan/G2_bolts.cpp:124-236 | A surface with the name wins and gets a slot a surface scan finds; else a bone with the name gets one a bone scan finds; -1 with no change exactly when neither exists |
| G2Bolts.AddBolt | src/rd-vulkan/G2_bolts.cpp:124-236 | The list and result are those AddBoltSpec computes |
| G2Bolts.TrimFree | src/rd-vulkan/G2_bolts.cpp:251-270 | A prefix of the list with no trailing free slot; everything cut off was free |
| G2Bolts.TrimFreeAppendFree | src/rd-vulkan/G2_bolts.cpp:251-270 | Free slots appended to a list are cut off again |
| G2Bolts.TrimFreeTrimmed | src/rd-vulkan/G2_bolts.cpp:251-270 | Trimming a list without trailing free slots changes nothing |
| G2Bolts.RemoveSpec | src/rd-vulkan/G2_bolts.cpp:239-280 | The count drops by one; when it reaches zero the slot is freed and trailing free slots are cut; other slots keep index and contents |
| G2Bolts.RemoveBolt | src/rd-vulkan/G2_bolts.cpp:239-280 | True exactly for an index other than -1; -1 leaves the list alone; otherwise the list is RemoveSpec's |
| G2Bolts.TrimTrailingFree | src/rd-vulkan/G2_bolts.cpp:251-270 | The back-to-front scan leaves TrimFree of the list |
| G2Bolts.AddThenRemove | src/rd-vulkan/G2_bolts.cpp:88-280 | Removing the reference an add made restores the list, up to the contents of a reused free slot; exactly when the key was already there |
| G2Bolts.RemoveKeepsWF | src/rd-vulkan/G2_bolts.cpp:239-280 | Removals keep every in-use slot counted and the list trimmed |
| G2Bolts.InitBoltList | src/rd-vulkan/G2_bolts.cpp:283-286 | The bolt list is emptied |
| G2Bolts.MarkStale | src/rd-vulkan/G2_bolts.cpp:289-334 | The list with each stale slot among the first n freed and every other slot unchanged |
| G2Bolts.ForceRemoveTwice | src/rd-vulkan/G2_bolts.cpp:312-319 | Forcing out again a slot already forced out changes nothing while the slot is still in the list. The engine's second check after the bare block reads the table out of range, at index -1, and the model skips it |
| G2Bolts.ForceRemoveStep | src/rd-vulkan/G2_bolts.cpp:298-331 | Forcing out stale slot i of the partly pruned list equals freeing one more stale slot and trimming |
| G2Bolts.PruneStaleStep | src/rd-vulkan/G2_bolts.cpp:293-333 | One turn of the loop forces out the slot when it is stale and leaves the list alone otherwise |
| G2Bolts.PruneSlot | src/rd-vulkan/G2_bolts.cpp:298-331 | The body of the loop for slot i: a stale slot is forced out (count set to 1, then removed), any other left alone |
| G2Bolts.RemoveRedundantBolts | src/rd-vulkan/G2_bolts.cpp:289-334 | The list becomes PruneStale of the old one, over every slot, with each surface number looked up in the memory the table pointer reaches |
| G2Bolts.RemoveRedundantBoltsResult | src/rd-vulkan/G2_bolts.cpp:289-334 | Exactly the in-use, non-stale slots survive, each unchanged at its old index; stale ones are gone or free; with nothing stale the list is unchanged |
| G2Surfaces.AppendedFlagsAsWritten | src/rd-vulkan/G2_surfaces.cpp:186-187 | As written, the flags stored for a newly appended override are the requested flags masked to OFF and NODESCENDANTS, whatever the default flags were |
| G2Surfaces.AppendedFlagsDropDefaults | src/rd-vulkan/G2_surfaces.cpp:186-187 | A default bit outside OFF and NODESCENDANTS is lost by the code as written and kept by the intended masking |
| G2Surfaces.AppendedFlagsIntended | src/rd-vulkan/G2_surfaces.cpp:184-188 | The intended flags take the on/off bits from the request and every other bit from the default flags |
| G2Surfaces.SetSurfaceOnOffSpec | src/rd-vulkan/G2_surfaces.cpp:155-199 | Succeeds exactly when the mesh has the name; the last slot naming it gets the flags unmasked, else one slot is appended with the masked flags; failure leaves the list |
| G2Surfaces.SetThenIsSurfaceOff | src/rd-vulkan/G2_surfaces.cpp:155-238 | Reading the flags back after setting them returns the flags set, masked on append |
| G2Surfaces.SetSurfaceOnOff | src/rd-vulkan/G2_surfaces.cpp:155-199 | The list and result are those SetSurfaceOnOffSpec computes |
| G2Surfaces.SetSurfaceOnOffSeenByWalks | src/rd-vulkan/G2_surfaces.cpp:155-277 | After switching a surface, the hierarchy walks see for it the same flags a query by name returns, and no two slots name one surface |
| G2Surfaces.TrimSlots | src/rd-vulkan/G2_surfaces.cpp:530-549 | A prefix of the list without trailing free slots; everything cut off was free |
| G2Surfaces.TrimSlotsAppendFree | src/rd-vulkan/G2_surfaces.cpp:530-549 | Free slots appended to a list are cut off again |
| G2Surfaces.TrimSlotsTrimmed | src/rd-vulkan/G2_surfaces.cpp:530-549 | Trimming an already trimmed list changes nothing |
| G2Surfaces.RemoveSurfaceSpec | src/rd-vulkan/G2_surfaces.cpp:522-558 | The slot's surface becomes -1 and trailing free slots are cut; every other remaining slot keeps index and contents |
| G2Surfaces.RemoveSurfaceKeepsInvariants | src/rd-vulkan/G2_surfaces.cpp:522-558 | Removal keeps the slots free of duplicates and valid, and no slot names the removed surface afterwards |
| G2Surfaces.RemoveSurface | src/rd-vulkan/G2_surfaces.cpp:522-558 | True exactly for an index other than -1; -1 changes nothing; otherwise the list is RemoveSurfaceSpec's |
| G2Surfaces.TrimTrailingSlots | src/rd-vulkan/G2_surfaces.cpp:530-549 | The back-to-front scan leaves TrimSlots of the list |
| G2Surfaces.AsInt32 | src/rd-vulkan/G2_surfaces.cpp:502 | A 32-bit pattern read as a two's-complement int is in range and has the same residue |
| G2Surfaces.PackPolySurfaceDecodes | src/rd-vulkan/G2_surfaces.cpp:502 | The packed index gives back the surface number with `& 0xffff` and the polygon number with `>> 16 & 0xffff`, each modulo 2^16 |
| G2Surfaces.FirstFreeSlotFrom | src/rd-vulkan/G2_surfaces.cpp:493-496 | The first slot at or after i whose surface is -1; -1 exactly when none is free |
| G2Surfaces.AddSurfaceSpec | src/rd-vulkan/G2_surfaces.cpp:482-520 | The generated slot, built at the LOD DecideTraceLod picks, goes into the lowest free slot and the list keeps its length, or is appended when none is free; no other slot changes |
| G2Surfaces.AddSurfaceKeepsInvariants | src/rd-vulkan/G2_surfaces.cpp:482-520 | Adding keeps the slots unique, valid and trimmed, and the new slot refers to surfaceNumber modulo 2^16 |
| G2Surfaces.AddSurface | src/rd-vulkan/G2_surfaces.cpp:482-520 | The list and result are those AddSurfaceSpec computes |
| G2Surfaces.FindRecursiveSurface | src/rd-vulkan/G2_surfaces.cpp:240-278 | Sets the entry of exactly the surfaces the active walk marks (flags without OFF, stopping below OFF and NODESCENDANTS), keeping entries already set |
| G2Surfaces.MarkStaleSlots | src/rd-vulkan/G2_surfaces.cpp:283-306 | Each live slot among the first n whose referenced surface is inactive is freed; every other slot is unchanged |
| G2Surfaces.PruneSlotsLoopStep | src/rd-vulkan/G2_surfaces.cpp:283-306 | One turn of the loop removes slot i when it is stale and leaves the list alone otherwise |
| G2Surfaces.RemoveRedundantGeneratedSurfaces | src/rd-vulkan/G2_surfaces.cpp:280-307 | The list becomes PruneSlots of the old one over every slot, the generated slots being looked up by their packed surface number |
| G2Surfaces.RemoveIfStale | src/rd-vulkan/G2_surfaces.cpp:285-304 | Slot `i` is removed exactly when it is stale, which takes the list from PruneSlots over `i` slots to PruneSlots over `i + 1` |
| G2Surfaces.RemoveRedundantGeneratedSurfacesResult | src/rd-vulkan/G2_surfaces.cpp:280-307 | Exactly the live slots whose surface is active survive, unchanged at their index; stale ones are gone or free; with nothing stale the list is unchanged |
| G2Surfaces.BoltLinkModel | src/rd-vulkan/G2_surfaces.cpp:374 | The model part of a bolt link is below 1024 |
| G2Surfaces.BoltLinkBolt | src/rd-vulkan/G2_surfaces.cpp:375 | The bolt part of a bolt link is below 1024 |
| G2Surfaces.BoltLinkRoundTrip | src/rd-vulkan/G2_surfaces.cpp:374-375 | Decoding a packed (model, bolt) pair gives back both |
| G2Surfaces.CascadeRemovedIff | src/rd-vulkan/G2_surfaces.cpp:369-384 | An instance is removed exactly when, at its turn, its link points past the bolt list or at a free bolt, with earlier removals already made |
| G2Surfaces.CascadeNothingDangling | src/rd-vulkan/G2_surfaces.cpp:369-384 | When no link points at a missing or free bolt, nothing is removed |
| G2Surfaces.CascadeStep | src/rd-vulkan/G2_surfaces.cpp:372-382 | One turn of the cascade adds instance i exactly when it dangles |
| G2Surfaces.RemoveGhoul2Model | src/rd-vulkan/G2_surfaces.cpp:381 | The removed instance is marked unused with empty lists |
| G2Surfaces.Links | src/rd-vulkan/G2_surfaces.cpp:372 | The bolt link of every instance, in order |
| G2Surfaces.Bolts | src/rd-vulkan/G2_surfaces.cpp:377-379 | The bolt list of every instance, in order |
| G2Surfaces.RemoveDanglingModels | src/rd-vulkan/G2_surfaces.cpp:369-384 | Exactly the instances CascadeRemoved names are removed; all others keep their lists and model index, and no other field is in the frame |
| G2Surfaces.DropIfDangling | src/rd-vulkan/G2_surfaces.cpp:372-383 | Instance i is removed exactly when it dangles, and is untouched otherwise |
| G2Surfaces.ActiveTable | src/rd-vulkan/G2_surfaces.cpp:343-348 | Entry t of the table is set exactly when the active walk from the root marks t |
| G2Surfaces.PruneBelowRoot | src/rd-vulkan/G2_surfaces.cpp:343-366 | The override list is pruned to the active table of the new root, then the bolt list against the pruned list, that table and the active bones. A surface number past the table's end reads the memory that follows it (`beyond`) |
| G2Surfaces.Reroot | src/rd-vulkan/G2_surfaces.cpp:336-384 | The root is set, the instance is pruned, and exactly the instances the cascade names are removed; the others keep their lists, no root or link other than the target's root changes, and flags, LOD bias, frame number and slot arrays are outside the frame |
| G2Surfaces.SetRootSurface | src/rd-vulkan/G2_surfaces.cpp:309-392 | Succeeds exactly when the name is a surface of the mesh; the current root or an unknown name leaves every instance unchanged; otherwise the root is set, pruning follows and every dangling instance is removed; only roots, model indices and the three lists are in the frame |
| G2Transform.Arena.Alloc | src/rd-vulkan/G2_misc.cpp:234-239 | A request that fits gets the address at the current offset and advances it; one that does not gets 0 and changes nothing |
| G2Transform.RecordsLayout | src/rd-vulkan/G2_misc.cpp:267-273 | Float c of vertex j sits at byte addr + 4*(5j+c): x, y, z scaled, then S and T unscaled |
| G2Transform.RecordsInBlock | src/rd-vulkan/G2_misc.cpp:247-275 | The records of n vertices lie in the 20n bytes from their address |
| G2Transform.UnitScaleKeepsPositions | src/rd-vulkan/G2_misc.cpp:277-308 | With a unit scale the records hold the positions as they are, as the unscaled branch writes them |
| G2Transform.TransformEachSurface | src/rd-vulkan/G2_misc.cpp:219-309 | Allocates 20 bytes per vertex, stores the address (0 on exhaustion) in the surface's slot, writes the records, and reports exhaustion with nothing else changed |
| G2Transform.WriteRecords | src/rd-vulkan/G2_misc.cpp:279-307 | The vertex loop adds exactly the records of every vertex to memory, on top of what was there |
| G2Transform.TransformSurfaces | src/rd-vulkan/G2_misc.cpp:421-463 | Writes only slots of surfaces the transform walk marks; when nothing fails and the second-pass skip cannot fire, a slot is set exactly when it was or the walk marks it |
| G2Transform.TransformChildren | src/rd-vulkan/G2_misc.cpp:455-461 | The same for the walks from the children of one surface, in order |
| G2Transform.TransformChild | src/rd-vulkan/G2_misc.cpp:455-461 | The walk from child `i` extends what the earlier children changed and marked by what its own walk changes and marks |
| G2Transform.SecondPassOnEmptySlots | src/rd-vulkan/G2_misc.cpp:519-526 | On the freshly zeroed slot array the second-pass skip never fires |
| G2Transform.CorrectScale | src/rd-vulkan/G2_misc.cpp:482-495 | Each zero scale component becomes 1, the others are kept |
| G2Transform.CorrectScaleIdempotent | src/rd-vulkan/G2_misc.cpp:482-495 | Correcting twice is correcting once, and no corrected component is zero |
| G2Transform.TransformModel | src/rd-vulkan/G2_misc.cpp:466-528 | Only frame numbers and slot arrays are in the frame. Instances with index -1 are left alone; every other one gets the frame number and a fresh slot array set exactly at the surfaces the transform walk from its root marks |
| G2Transform.TransformInstance | src/rd-vulkan/G2_misc.cpp:500-526 | One instance gets the frame number and, unless the arena runs out, a fresh slot array as the walk prescribes |
| G2Trace.FirstFreeRecordFrom | src/rd-vulkan/G2_misc.cpp:792-796 | The first record at or after i with entity number -1, no earlier one; none exactly when all are taken |
| G2Trace.GoreFlagsBit | src/rd-vulkan/G2_misc.cpp:735-764 | Bit k of a vertex's flags is set exactly when test k fails at that vertex |
| G2Trace.SurfaceMask | src/rd-vulkan/G2_misc.cpp:718-765 | The running surface mask stays within the low six bits |
| G2Trace.SurfaceMaskBit | src/rd-vulkan/G2_misc.cpp:718-765 | Bit k of the surface mask after n vertices is set exactly when test k fails at all of them |
| G2Trace.SurfaceRejectedIff | src/rd-vulkan/G2_misc.cpp:767-770 | The surface is rejected exactly when some test fails at every vertex |
| G2Trace.TriangleSkippedIff | src/rd-vulkan/G2_misc.cpp:779-786 | A triangle is skipped exactly when some test fails at all three of its corners |
| G2Trace.TriangleMaskBit | src/rd-vulkan/G2_misc.cpp:779-782 | Bit `k` of a triangle's mask is set exactly when test `k` fails at all three corners |
| G2Trace.TriangleAsSurface | src/rd-vulkan/G2_misc.cpp:779-782 | A triangle's mask is the surface mask of its three corners alone |
| G2Trace.RadiusTracePolys | src/rd-vulkan/G2_misc.cpp:673-858 | The records and result are those RadiusTrace computes from the vertex tests and triangle geometry |
| G2Trace.RadiusTriangles | src/rd-vulkan/G2_misc.cpp:774-855 | The triangle loop leaves the records and result RadiusFrom computes: first free record, early return before distance and position under RETURNONHIT, true on a full table |
| G2Trace.RadiusTriangle | src/rd-vulkan/G2_misc.cpp:775-854 | One triangle either ends the loop with the records and result RadiusFrom gives from there, or leaves RadiusFrom of the rest unchanged |
| G2Trace.FillRadiusRecord | src/rd-vulkan/G2_misc.cpp:792-852 | The first free record, if any, gets the hit (only the basic fields under RETURNONHIT) and its index is returned; with no free record nothing changes and -1 is returned |
| G2Trace.CornerFlags | src/rd-vulkan/G2_misc.cpp:779-782 | The triangle flags read from the per-vertex buffer are the triangle's mask |
| G2Trace.MarkVertices | src/rd-vulkan/G2_misc.cpp:718-765 | The vertex loop stores each vertex's flags and returns the surface mask |
| G2Trace.VertexFlags | src/rd-vulkan/G2_misc.cpp:735-762 | A vertex's flags are the complement of the bits of the tests that pass |
| G2Trace.FindFreeRecord | src/rd-vulkan/G2_misc.cpp:792-796 | The index of the first free record, or -1 when none is free |
| G2Trace.TracePolys | src/rd-vulkan/G2_misc.cpp:861-985 | The records and result are those PointFrom computes: every hit fills the first free record, a full table drops the hit and scanning goes on |
| G2Trace.RadiusFromFills | src/rd-vulkan/G2_misc.cpp:774-855 | The radius trace writes only free records, each then owned by this entity and surface; a true result comes from RETURNONHIT or an exhausted table |
| G2Trace.PointFromFills | src/rd-vulkan/G2_misc.cpp:883-984 | The point trace writes only free records, each then owned by this entity and surface; it returns true only under RETURNONHIT |
| G2Trace.PointFromFullTable | src/rd-vulkan/G2_misc.cpp:883-984 | With no free record the point trace changes nothing and returns false |
| G2Trace.TraceWalkFills | src/rd-vulkan/G2_misc.cpp:989-1058 | The trace walk writes only free records, for surfaces the walk marks; hitOne is set only under RETURNONHIT, and once set nothing more is visited |
| G2Trace.TraceOneFills | src/rd-vulkan/G2_misc.cpp:1015-1043 | Tracing one surface writes only free records for that surface and sets hitOne only under RETURNONHIT |
| G2Trace.TraceKidsFills | src/rd-vulkan/G2_misc.cpp:1051-1056 | The walks from the children write only free records, for surfaces they mark |
| G2Trace.TraceSurface.constructor | src/rd-vulkan/G2_misc.cpp:57-89 | The trace state holds the given parameters, with hitOne false |
| G2Trace.TraceSurfaces | src/rd-vulkan/G2_misc.cpp:989-1058 | The records and hitOne are those TraceWalk computes from the start surface |
| G2Trace.TraceChildren | src/rd-vulkan/G2_misc.cpp:1051-1056 | The records and hitOne are those TraceKids computes for the children in order |
| G2Trace.TraceModels | src/rd-vulkan/G2_misc.cpp:1060-1135 | The records are those TraceModelsFrom computes: instances -1 or NOCOLLIDE skipped, radius tracer iff the radius is at least 0.1 in magnitude, a break after a RETURNONHIT hit |
| G2Trace.TraceInstance | src/rd-vulkan/G2_misc.cpp:1073-1133 | One instance's records and stop flag are those InstanceTrace computes |
| G2Trace.InstanceTraceFills | src/rd-vulkan/G2_misc.cpp:1073-1133 | Tracing one instance writes only free records, each owned by the traced entity and one of this instance's surfaces |
| G2Trace.TraceModelsFills | src/rd-vulkan/G2_misc.cpp:1060-1135 | The whole trace writes only free records, each owned by the traced entity and a surface of a collidable instance |
| ServerInit.ChunksReassemble | src/server/sv_init.cpp:65-88 | The pieces sent from offset sent on concatenate to the value from sent on |
| ServerInit.ChunksShapeFrom | src/server/sv_init.cpp:65-88 | Pieces after the first are bcs1 except the last, bcs2; each is 1 to maxChunkSize-1 characters for this client and index |
| ServerInit.ChunksShape | src/server/sv_init.cpp:31-88 | A value of maxChunkSize characters or more goes out as two or more pieces: bcs0 first, bcs2 last, bcs1 between, none longer than maxChunkSize-1 |
| ServerInit.ChunksCount | src/server/sv_init.cpp:65-88 | The number of pieces is the remaining length over maxChunkSize-1, rounded up |
| ServerInit.ClientReceivesValue | src/server/sv_init.cpp:65-92 | Whether chunked or sent as one `cs`, a client receives exactly the value, addressed to it and the index |
| ServerInit.BroadcastFor | src/server/sv_init.cpp:53-63 | Each client is sent the whole value when it is at least primed and not a no-server-info client for CS_SERVERINFO, and nothing otherwise |
| ServerInit.GatherPresent | src/server/sv_init.cpp:53-63 | When every per-slot share is addressed to its own slot, slot `j` among the first `n` sees exactly its share of the concatenation |
| ServerInit.GatherAbsent | src/server/sv_init.cpp:53-63 | When every per-slot share is addressed to its own slot, a slot outside the first `n` sees nothing of the concatenation |
| ServerInit.AddName | src/server/sv_init.cpp:131-147 | No name for a null or empty name or a bare slash; one leading slash or backslash is stripped; any other name is kept |
| ServerInit.ScanFrom | src/server/sv_init.cpp:149-160 | The scan stops at the first empty slot (insert) or the first match ignoring case (found); every slot before is non-empty and different; full when neither occurs |
| ServerInit.InsertThenFound | src/server/sv_init.cpp:149-162 | After the name is stored in the empty slot, a second scan finds it at that offset |
| ServerInit.AddAsWrittenForgetsNewSlot | src/server/sv_init.cpp:153-162 | On an empty table the first add of "x" stores it at offset 1 yet returns 0, and a second add returns 1 |
| ServerInit.AddIntendedIsStable | src/server/sv_init.cpp:149-164 | The corrected result equals what a repeated call returns, and is 0 exactly when the range is full |
| ServerInit.Bound | src/server/sv_init.cpp:238-249 | Below the minimum gives the minimum; above MAX_CLIENTS (once at least the minimum) gives MAX_CLIENTS; otherwise the value |
| ServerInit.BoundRange | src/server/sv_init.cpp:244-248 | With a minimum no higher than MAX_CLIENTS the result lies between them, and bounding again changes nothing |
| ServerInit.BoundMinimumFirst | src/server/sv_init.cpp:244-248 | With a minimum above MAX_CLIENTS the second test still lowers the value to MAX_CLIENTS |
| ServerInit.ClientCount | src/server/sv_init.cpp:296-303 | 1 + the highest connected index, at least 1: every connected client lies below it, and the slot below it is connected unless it is 1 |
| ServerInit.Reallocated | src/server/sv_init.cpp:324-336 | The reallocated array has the new number of slots |
| ServerInit.ReallocKeepsConnected | src/server/sv_init.cpp:313-336 | Every connected client keeps its index and every other slot is cleared |
| ServerInit.Server.constructor | src/server/sv_init.cpp:563-566 | SV_SpawnServer's reset: SV_ClearServer's wipe (sv_init.cpp:366) leaves a dead server not restarting, every configstring becomes "", and no commands are queued. The client slots are all zero, as SV_Startup's cleared allocation (sv_init.cpp:266-268) leaves them |
| ServerInit.Server.SetConfigstring | src/server/sv_init.cpp:29-96 | A bad index drops the server; an equal value changes nothing; otherwise the slot takes the value (null as "") and, in game or restarting, the broadcast is sent |
| ServerInit.Server.SendToClients | src/server/sv_init.cpp:53-92 | Appends exactly the broadcast commands for every client slot |
| ServerInit.Server.SendChunks | src/server/sv_init.cpp:65-88 | Appends exactly the chunk plan of the value for one client |
| ServerInit.Server.GetConfigstring | src/server/sv_init.cpp:106-118 | Drops exactly for a buffer size below 1 or a bad index; otherwise the slot's value cut to the buffer, "" for a null slot |
| ServerInit.Server.AddConfigstring | src/server/sv_init.cpp:127-164 | 0 with no change for no name or a full range; a match returns its offset with no change; a new name is stored and broadcast, and 0 is returned |
| ServerInit.Server.ScanConfigstrings | src/server/sv_init.cpp:149-162 | For a non-empty name: stops at the first matching slot and returns its offset with no change, or stores the name in the first empty slot first met and returns 0, or returns 0 with no change when the range holds neither |
| ServerInit.Server.BoundMaxClients | src/server/sv_init.cpp:238-249 | sv_maxclients becomes the bounded value |
| ServerInit.Server.ChangeMaxClients | src/server/sv_init.cpp:289-348 | sv_maxclients is bounded below by the client count; unchanged means nothing else changes; otherwise a fresh client array as Reallocated describes and a new snapshot pool |
| ServerInit.CountClients | src/server/sv_init.cpp:296-303 | The loop computes ClientCount |
| ServerInit.SaveClients | src/server/sv_init.cpp:313-322 | A fresh copy of the first count slots, unconnected ones cleared |
| ServerInit.RestoreClients | src/server/sv_init.cpp:324-336 | A fresh cleared array of the new size with the saved clients copied back |
| ServerInit.ReadSlot | src/server/sv_init.cpp:112-117 | "" for a null slot; otherwise a prefix of the value that fits the buffer, the whole value when it fits |
| ServerInit.SetThenRead | src/server/sv_init.cpp:48-117 | Reading a slot just set gives the value cut to the buffer; other slots read as before |
| BspLoad.ShiftedColor | src/rd-vulkan/tr_bsp.cpp:117-156 | Each of the three output channels lies in 0..255 |
| BspLoad.OrExceedsByte | src/rd-vulkan/tr_bsp.cpp:129 | The `(r|g|b) > 255` test is the test that some channel exceeds 255 |
| BspLoad.ColorShiftPlain | src/rd-vulkan/tr_bsp.cpp:121-156 | Without overflow every channel is its input shifted left by the shift |
| BspLoad.ColorShiftNormalised | src/rd-vulkan/tr_bsp.cpp:129-137 | On overflow the largest channel becomes exactly 255 and the order of the channels is kept |
| BspLoad.ScaledProps | src/rd-vulkan/tr_bsp.cpp:129-137 | Scaling by 255 over the largest makes some channel 255 and keeps the order |
| BspLoad.ColorShiftLightingBytes | src/rd-vulkan/tr_bsp.cpp:117-161 | The first three bytes take the shifted colour of the old input; the fourth takes the input's alpha when hasAlpha and is untouched otherwise; input and output may alias |
| BspLoad.FatLightmap | src/rd-vulkan/tr_bsp.cpp:434-443 | Negatives pass through; with the atlas active every lightmap is 0; otherwise the identity |
| BspLoad.FatLightmapIdempotent | src/rd-vulkan/tr_bsp.cpp:434-443 | Remapping twice is remapping once |
| BspLoad.InternalLightmapCount | src/rd-vulkan/tr_bsp.cpp:197-199 | The number of whole 128x128x3 lightmaps in the lump |
| BspLoad.ExternalLightmapCount | src/rd-vulkan/tr_bsp.cpp:185-194 | One more than every lightmap number a surface names, at least 0, and attained by one of them |
| BspLoad.CeilSqrt | src/rd-vulkan/tr_bsp.cpp:216 | The least t with t*t at least n |
| BspLoad.LightmapsPerX | src/rd-vulkan/tr_bsp.cpp:218-220 | The doubling loop yields the least power of two at or above the target |
| BspLoad.AtlasLayout | src/rd-vulkan/tr_bsp.cpp:214-226 | Tiles per row are the least power of two at or above ceil(sqrt(n)), rows are n over that rounded up, and every lightmap's tile lies inside the atlas |
| BspLoad.TileInside | src/rd-vulkan/tr_bsp.cpp:268-273 | Each tile offset lies within the atlas width and height |
| BspLoad.TileOffsetsDistinct | src/rd-vulkan/tr_bsp.cpp:268-273 | Distinct lightmaps get distinct tile offsets |
| BspLoad.NovisRoundsUp | src/rd-vulkan/tr_bsp.cpp:466 | (n+63) & ~63 is a multiple of 64, at least n and below n+64: the least multiple of 64 at or above n |
| BspLoad.DecodeChild | src/rd-vulkan/tr_bsp.cpp:1796-1803 | A non-negative reference is node p; a negative one is leaf slot numNodes + (-1-p) |
| BspLoad.DecodeChildInjective | src/rd-vulkan/tr_bsp.cpp:1796-1803 | Decoding is undone by encoding, no two references share a slot, and a slot is a node exactly when the reference is non-negative |
| BspLoad.CountClusters | src/rd-vulkan/tr_bsp.cpp:1819-1821 | The count is at least the old one, exceeds every leaf's cluster, and is the old count or one past some cluster |
| BspLoad.CheckTriSurf | src/rd-vulkan/tr_bsp.cpp:802-851 | The surface passes exactly when the vertex and index counts are below their limits and every index lies in [0, numVerts); a bad index is the first one |
| BspLoad.FirstBadIndex | src/rd-vulkan/tr_bsp.cpp:846-851 | The first index from `from` on outside [0, numVerts), none exactly when all are inside |
| BspLoad.ParseTriIndexes | src/rd-vulkan/tr_bsp.cpp:799-851 | The outcome is CheckTriSurf's; a good surface has all indexes copied, a bad index stops the copy right after it |

## Left out

- Float numerics are inputs, not computations:
  - bone-weighted skinning, so a surface's vertices arrive already skinned;
  - the segment/triangle test, the hit-point and barycentric computation, and the basis construction of the radius trace: per-vertex test outcomes and per-triangle hit results are parameters;
  - matrix construction and inversion, point transforms and normal normalisation.
- Model-blob pointer arithmetic (`G2_FindSurface(void*, index, lod)` and the hierarchy stride walks) is replaced by the index tree.
- A model handle that fails to resolve (the `!mdxm` and `!mod->data.glm` checks) is not modelled; every instance carries its loaded model.
- `G2_ConstructUsedBoneList` and `G2_RemoveRedundantBoneOverrides` are not part of this model. The active-bone table is a parameter of SetRootSurface.
- G2Bolts.RemoveRedundantBolts: does not model the engine's second table read for a generated bolt that has just been forced out (src/rd-vulkan/G2_bolts.cpp:307-313). G2_Remove_Bolt has set its surface number to -1, so the engine reads the table at index -1, before its start. When that memory is zero it forces slot i out once more. That changes nothing while the slot is still in the list (ForceRemoveTwice), and writes past the list's end once the trim has removed it.
- G2Bolts.RemoveRedundantBolts: an original or generated surface number at or past the mesh's surface count reads past the end of the active table in the engine (src/rd-vulkan/G2_bolts.cpp:313). The model reads that memory from SetRootSurface's `beyond` parameter, which stands for whatever follows the table. The same holds for a generated slot's packed surface number in RemoveRedundantGeneratedSurfaces (src/rd-vulkan/G2_surfaces.cpp:291).
- G2Surfaces.SetRootSurface: leaves the bone-override list of the re-rooted instance unconstrained, because the pruning of bone overrides is not modelled.
- `G2API_RemoveGhoul2Model` is not part of this model. It is stood in for by RemoveGhoul2Model, which marks the instance unused and clears its lists.
- `CMiniHeap` is not part of this model. The arena follows its usual rule: a request fits when it is strictly smaller than what is left.
- The hit-material lookup through skins and shaders (`hitMatReg`), debug output and the global world matrix are left out. Records store the material and location fields as 0.
- G2Trace.RadiusTracePolys: requires at most 3000 vertices, because the per-vertex flag buffer is a fixed static array whose overflow is not modelled.
- G2Transform.TransformSurfaces: states the exact set of written slots only when the second-pass skip cannot fire. G2_TransformModel zeroes the slot array before every walk, so in that caller it never fires (SecondPassOnEmptySlots).
- G2Transform.TransformInstance: models a failed slot-array allocation as a failed result that abandons the pass. The source zeroes whatever pointer the heap returns and only debug-asserts it (src/rd-vulkan/G2_misc.cpp:519-523).
- G2Transform.TransformModel: requires useLod >= 0 or mLodBias >= 0 for every instance in use. Otherwise DecideTraceLod picks a negative LOD, which the source uses as an index into the model's LOD table.
- G2Transform.TransformInstance: requires useLod >= 0 or mLodBias >= 0, for the same reason.
- G2Trace.InstanceTrace: requires the LOD picked for a collidable instance to be non-negative (TraceLodDefined). Without a record array that LOD is useLod itself, and a negative one indexes the LOD table out of range in the source.
- G2Trace.TraceModels: requires TraceLodDefined of every instance (ModelsLodDefined), for the same reason.
- G2Trace.InstanceTrace: without a record array (`hasMap` false) still writes records into the array it is given. The source would write through a NULL map there, which it only debug-asserts (src/rd-vulkan/G2_misc.cpp:881).
- G2Trace.TraceModels: without a record array, likewise writes the records the source would write through a NULL map.
- G2Transform.TransformEachSurface: models exhaustion as a failed result followed by abandoning the pass, where the engine raises a fatal error.
- G2Lookup.IsSurfaceRendered: requires the name to be a surface of the mesh. For an unknown name the source indexes the hierarchy offsets at -1.
- The `#if 0` save/load block, the non-collision R_TransformEachSurface variant and the model listing printers are left out.
- Bolt links are decoded as 10 bits of bolt and 10 bits of model. The shift and mask constants are in a header outside this model.
- The header values are taken as the engine's usual ones: OFF = 2, NODESCENDANTS = 0x100, GENERATED = 0x200, MAX_G2_COLLISIONS = 16, MAX_CONFIGSTRINGS = 1024, MAX_STRING_CHARS = 1024, MAX_CLIENTS = 32, CS_SERVERINFO = 0, PACKET_BACKUP = 32, SHADER_MAX_VERTEXES = 1000, SHADER_MAX_INDEXES = 6000, BONE_ANGLES_TOTAL = 0x7. The client states are ordered FREE < ZOMBIE < CONNECTED < PRIMED < ACTIVE.
- Q_stricmp is ASCII case-insensitive equality, and Q_strncpyz is a bounded prefix copy. Strings contain no NUL.
- `SV_SendServerCommand` is a log of commands. The cvar system is a parameter: the value `Cvar_Get` yields for `sv_maxclients` is the `requested` argument. Com_Error drops are a result flag.
- ServerInit.Server.SetConfigstring: requires a valid index to hold a non-null slot, because the source compares the old value with strcmp.
- The rest of sv_init.cpp is server bootstrap, filesystem access, VM calls and networking, all outside this model: SV_SpawnServer, SV_Init, SV_InitRef, SV_Shutdown, SV_FinalMessage, SV_CreateBaseline.
- BspLoad.ColorShiftLightingBytes: does not model the 32-bit overflow of `r << shift` for shifts of 24 or more, because integers are unbounded. OrExceedsByte links the engine's `|` test to the per-channel test.
- The greyscale (LUMA and LERP) branches of the colour shift are left out.
- BspLoad.AtlasLayout: models `ceilf(sqrtf(n))` as the integer ceiling square root CeilSqrt, and `ceilf(n / perX)` as integer division rounded up.
- BspLoad.InternalLightmapCount: requires a non-negative lump length.
- BspLoad.NovisRoundsUp: states the rounding on the 32-bit pattern only while numClusters + 63 stays a positive 32-bit int.
- Image loading, upload, Hunk allocation, entity parsing, patch stitching, the light grid and fogs in tr_bsp.cpp are left out.

## Findings

| source | as written | input that shows it | evidently intended | confidence | as-written member | corrected member |
|---|---|---|---|---|---|---|
| src/rd-vulkan/G2_surfaces.cpp:626 | The ancestor loop calls G2_IsSurfaceLegal with the queried name, so an ancestor without an override is read with the queried surface's default flags | A root "torso" with NODESCENDANTS by default above "head" with flags 0, no overrides: "head" is reported with flags 0 | Read each ancestor's own default flags, so "head" is reported OFF | not executed | G2Lookup.IsSurfaceRendered, G2Lookup.TorsoHeadRendered | G2Lookup.RenderedFlagsIntended, G2Lookup.IntendedHonoursAncestorDefaults |
| src/rd-vulkan/G2_surfaces.cpp:186-187 | `flags &= !(OFF \| NODESCENDANTS)` uses logical negation, which is 0, so an appended override keeps only the requested on/off bits | Default flags 0x1, requested flags 0: the appended slot has flags 0 | Keep the default bits other than OFF and NODESCENDANTS (0x1 here) | not executed | G2Surfaces.AppendedFlagsAsWritten, G2Surfaces.AppendedFlagsDropDefaults | G2Surfaces.AppendedFlagsIntended |
| src/server/sv_init.cpp:153-162 | A new name is stored in the first empty slot, but the function returns 0, the value also used for "no name" and "no room" | An empty table, name "x", start 0, max 2: "x" is stored at offset 1 and 0 is returned; a second call returns 1 | Return the offset the name was stored at | not executed | ServerInit.Server.AddConfigstring, ServerInit.AddAsWrittenForgetsNewSlot | ServerInit.AddIntendedIsStable |
