# EasyShells surface extraction, modelled in Dafny

This project models the face-classification and region-growing part of the
EasyShells module `SurfaceExtraction.py`. EasyShells is a helper for building
shell models in Salome. The model covers five functions:

- `check_turned_away_face_from_plane` decides whether a face is turned away from
  a plane, strictly or not, with an optional sign flip.
- `get_turned_away_shell_faces_from_plane` keeps those faces of a shell.
- `check_neighbour` decides whether two faces touch.
- `get_inner_side_of_shell` is a worklist flood fill. It starts at a seed face
  and collects the faces reachable through neighbours without entering a border
  face.
- `filter_list_by_radius` splits a face list by distance from a centre face.

Faces are a type parameter `F` with equality, which stands for `MyFace` equality.
The CAD kernel's queries are function parameters:

- `normal: F -> Vec3` stands for `getNormal`.
- `dist: (F, F) -> real` stands for `get_min_distance`.

A shell is the sequence of faces it explodes into. Python's `None` is an
`Option`, and a raised `NotImplementedError` is a `Result.Failure` carrying an
`Error`.

Modules:

- `Wrappers` holds `Option` and `Result`.
- `Geometry` holds vectors and the inner product.
- `Sequences` holds the list comprehensions as `Filter`, `IndicesWhere` and
  `Compact`, with their laws.
- `SurfaceExtraction` holds the five operations and their properties.

The imperative parts of the source are Dafny methods with loops:

- `get_inner_side_of_shell` is a loop over a LIFO stack. Each pass takes the
  neighbours out of the candidate list via an index list, sets those positions to
  `None` and compacts the list.
- `filter_list_by_radius` is an append loop.

Each method is proved against its own specification:

- `FilterListByRadius` is proved equal to `Filter` of the radius test and of
  its complement.
- `RemoveNeighbours` is proved equal to `Filter` of the neighbour test and of
  its complement.
- `ClearPositions` is proved against a position-by-position description of the
  list after the loop.
- `GetInnerSideOfShell` is proved against its loop invariant `FillState`:
  - `FillStep` proves that the invariant survives one pass.
  - `FillOutcome` reads the final state as the properties of the result.
  - The termination measure is `2*|face_list| + |marked|`.

Python's `while True: ... if marked == []: return` loop starts with a non-empty
`marked`. It is therefore written as `while marked != []` followed by the return.

The seed face is never taken out of the candidate list unless it is a border
face, and `check_neighbour` excludes only a face paired with itself. A seed that
is a candidate is therefore collected a second time as soon as a collected face
sees it back as a neighbour, for example a candidate neighbour of the seed under
a symmetric distance. A seed with no neighbour among the candidates is collected
only once. So `done` need not be free of duplicates: a candidate seed can occur
twice. In the model:

- `GetInnerSideOfShell` promises no duplicates in `done[1..]` whenever the
  candidates have none.
- It promises no duplicates in the whole of `done` only when the seed is not a
  candidate.
- `SeedRediscovered` proves the second collection for a candidate seed that has
  a candidate neighbour which sees it back.

## Model

| member | source | states |
|---|---|---|
| SurfaceExtraction.CheckTurnedAwayFaceFromPlane | SurfaceExtraction.py:23-46 | raises PreciseCheckNotImplemented exactly when a local system is given; otherwise answers whether `sign*<n_f, n_p>` is positive (strict) or non-negative (non-strict) |
| SurfaceExtraction.StrictImpliesNonStrict | SurfaceExtraction.py:34-44 | a face the strict test accepts is accepted by the non-strict test |
| SurfaceExtraction.ModesDisagreeExactlyWhenTangential | SurfaceExtraction.py:34-44 | the strict and non-strict answers differ if and only if `sign*<n_f, n_p> == 0` |
| SurfaceExtraction.LocalSystemAlwaysRaises | SurfaceExtraction.py:45-46 | any local system gives PreciseCheckNotImplemented, whatever face, normal, sign and mode are passed |
| SurfaceExtraction.SignFlipIsNegatedPlane | SurfaceExtraction.py:34-44 | testing with sign -1 gives the same answer as testing with sign +1 against the negated plane normal |
| SurfaceExtraction.GetTurnedAwayShellFaces | SurfaceExtraction.py:48-62 | the result is an order-preserving sublist of the shell's faces; a shell face is in it if and only if it is turned away with sign -1 for `to_face` and +1 otherwise, and then with every one of its occurrences |
| SurfaceExtraction.ToFaceIsNegatedPlane | SurfaceExtraction.py:50-60 | asking for the faces that look towards the plane gives the faces turned away from the flipped plane |
| SurfaceExtraction.StrictShellFacesAreSublist | SurfaceExtraction.py:59-60 | the strict selection is an order-preserving sublist of the non-strict selection |
| SurfaceExtraction.ShellFaceSelected | SurfaceExtraction.py:59-60 | a shell face is selected if and only if it is turned away |
| SurfaceExtraction.TangentialFacesSeparateModes | SurfaceExtraction.py:59-60 | a shell face is selected non-strictly but not strictly if and only if it is tangential to the plane |
| SurfaceExtraction.CheckNeighbour | SurfaceExtraction.py:64-75 | false when either face is None or both are the same face; true only for two present faces at distance exactly 0 |
| SurfaceExtraction.NeighbourIffTouchingAndDistinct | SurfaceExtraction.py:68-75 | for two present faces, neighbours if and only if their distance is 0 and they differ |
| SurfaceExtraction.NeighbourSymmetric | SurfaceExtraction.py:64-75 | with a symmetric distance, the neighbour test is symmetric |
| SurfaceExtraction.Candidates | SurfaceExtraction.py:95-104 | the candidates are an order-preserving sublist of the shell; a shell face is a candidate if and only if it is not a border face, and then with every one of its occurrences |
| SurfaceExtraction.ClearPositions | SurfaceExtraction.py:119-120 | after the loop, exactly the positions in `indices` hold None and every other position keeps its face |
| SurfaceExtraction.RemoveNeighbours | SurfaceExtraction.py:111-122 | the new neighbours are the neighbours of the popped face in list order; the compacted list is the non-neighbours in list order |
| SurfaceExtraction.ConservationStep | SurfaceExtraction.py:111-125 | popping a face and moving the neighbours from the list to the stack keeps every face in exactly one of done, marked and the list |
| SurfaceExtraction.DoneOrderStep | SurfaceExtraction.py:111-125 | after a pass, every entry of `done` after the first still neighbours an entry before it |
| SurfaceExtraction.MarkedStep | SurfaceExtraction.py:111-125 | after a pass, every face on the stack neighbours a face of `done` |
| SurfaceExtraction.ClosedStep | SurfaceExtraction.py:111-125 | after a pass, no face left in the list neighbours a face of `done` |
| SurfaceExtraction.FillStep | SurfaceExtraction.py:109-125 | one pass keeps the loop invariant; the neighbours and the rest together are as long as the list was |
| SurfaceExtraction.SeedAndCandidates | SurfaceExtraction.py:104-134 | at the end, `done[1..]` and the left-over list make up the candidates as a multiset, so `len(done) <= 1 + len(candidates)` |
| SurfaceExtraction.DrawnFromCandidates | SurfaceExtraction.py:104-134 | faces drawn from the candidates are shell faces and not border faces |
| SurfaceExtraction.ClosedOverCandidates | SurfaceExtraction.py:106-134 | at the end, a candidate that neighbours a collected face has been collected |
| SurfaceExtraction.CollectedOnce | SurfaceExtraction.py:106-134 | with duplicate-free candidates, nothing after the seed is collected twice, and nothing at all if the seed is not a candidate |
| SurfaceExtraction.SeedRediscovered | SurfaceExtraction.py:104-124 | a seed that is a candidate, with a candidate neighbour that sees it back, is in `done` at least twice |
| SurfaceExtraction.FillOutcome | SurfaceExtraction.py:106-134 | the final loop state gives every property of the returned `done` listed for GetInnerSideOfShell |
| SurfaceExtraction.GetInnerSideOfShell | SurfaceExtraction.py:77-134 | raises BorderDetectionNotImplemented if and only if there are no border faces; otherwise `done[0]` is the seed, every later entry is a non-border shell face that neighbours an earlier entry, the collected faces and the left-over list make up the candidates, no left-over face neighbours a collected one, candidates have no duplicates after the seed, and a rediscoverable seed appears twice |
| SurfaceExtraction.FilterListByRadius | SurfaceExtraction.py:136-146 | `inner` is the order-preserving sublist within `radius` of the centre and `outer` the sublist farther away; together they partition `face_list` as a multiset and by length |
| Sequences.Filter | SurfaceExtraction.py:104 | a comprehension with a test keeps only list members that pass it, keeps every member that passes, and is no longer than its input |
| Sequences.FilterIsSubsequence | SurfaceExtraction.py:104 | a comprehension with a test keeps list order |
| Sequences.FilterMultiplicity | SurfaceExtraction.py:104 | a comprehension with a test keeps every occurrence of an element that passes and none of one that fails |
| Sequences.FilterAppend | SurfaceExtraction.py:140-144 | extending a list at the end extends its filtered list by that element exactly when it passes |
| Sequences.FilterPartition | SurfaceExtraction.py:140-144 | a test and its complement split a list as a multiset and by length |
| Sequences.IndicesWhere | SurfaceExtraction.py:113-114 | the index comprehension yields only in-range positions whose element passes, and every such position |
| Sequences.IndicesWhereSelectFilter | SurfaceExtraction.py:113-118 | picking the elements at those positions yields the filtered list |
| Sequences.Compact | SurfaceExtraction.py:122 | the compaction keeps only present values and keeps every present value |
| Sequences.CompactMasked | SurfaceExtraction.py:119-122 | emptying the positions that pass a test and compacting leaves the elements that fail it, in order |

## Left out

- get_inner_side_of_shell_with_radius (SurfaceExtraction.py:148-189) is not modelled. It passes its arguments to `get_inner_side_of_shell` in the wrong positions, so the border list is empty and that call always raises. It also reads `found` before assigning it when no neighbour is found. It has no behaviour to state.
- The progress output and the `counter` variable in `get_inner_side_of_shell` (lines 108 and 127-129) are left out. They are console I/O and do not affect the result.
- The `return_shell` option is left out: the model always returns the list `done`. Wrapping that list in a `MyShell` (line 132) is a CAD-kernel call.
- Exploding a shell into faces, converting to `MyFace` and the `shell`-is-a-list case (lines 57-58 and 95-102) are left out. Both ways give the shell's face sequence, which is the model's input.
- Plane normals (`plane.getNormal()`), face normals and minimum distances are computed by the CAD kernel and are parameters of the model.
- GetInnerSideOfShell: the seed is a face, never None. A None seed would make `check_neighbour` reject every face, and the call would return `[None]`.
- Floating point is modelled as exact real arithmetic. The comparisons with `0.0` and `radius` are the source's own; rounding is not modelled.
- How `MyFace` equality is decided (geometric coincidence or shape handle) is not modelled. Face equality is an abstract equality on `F`.
- The source's default arguments (`sign = 1.0`, `local_sys = None`, `strict = False`, `to_face = False`, `border_faces = []`) have no counterpart: every model operation takes all of them explicitly. No behaviour is lost, since a default is only a value the caller may leave out.
- MidSurface.py and MeshExtrusion.py are not part of this model.
