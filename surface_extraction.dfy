/** Extraction of groups of faces from a closed shell (SurfaceExtraction.py):
    the turned-away test of a face against a plane and its shell-level filter,
    the neighbour test of two faces, the flood fill that collects the faces on
    the inner side of a shell, and the split of a face list by distance.

    Faces are values of a type parameter F that supports equality. The CAD
    kernel's queries are parameters: `normal` is a face's normal (getNormal),
    `dist` the minimum distance of two faces (get_min_distance); a shell is the
    sequence of faces it explodes into. */
module SurfaceExtraction {
  import opened Wrappers
  import opened Sequences
  import opened Geometry

  /** The exceptions the operations raise. */
  datatype Error =
    | PreciseCheckNotImplemented     // a local coordinate system was passed to the turned-away check
    | BorderDetectionNotImplemented  // the inner side of a shell was asked for without border faces

  /** A local coordinate system. The turned-away check refuses every such
      system without looking inside it, so the model gives it no contents. */
  datatype LocalSystem = LocalSystem

  // ---------------------------------------------------------------------------
  // Turned-away faces

  /** A face is turned away from a plane when `sign * <n_f, n_p>` is
      non-negative, and strictly turned away when it is positive. */
  predicate TurnedAway<F>(normal: F -> Vec3, face: F, planeNormal: Vec3, sign: real, strict: bool) {
    var s := sign * InnerProduct(normal(face), planeNormal);
    if strict then s > 0.0 else s >= 0.0
  }

  /** The turned-away test of one face. A local coordinate system raises. */
  function CheckTurnedAwayFaceFromPlane<F>(normal: F -> Vec3, face: F, planeNormal: Vec3, sign: real,
                                           localSys: Option<LocalSystem>, strict: bool): (r: Result<bool, Error>)
    ensures r.Failure? <==> localSys.Some?
    ensures r.Failure? ==> r.error == PreciseCheckNotImplemented
    ensures localSys.None? ==> r == Success(TurnedAway(normal, face, planeNormal, sign, strict))
  {
    if localSys.None? then Success(TurnedAway(normal, face, planeNormal, sign, strict))
    else Failure(PreciseCheckNotImplemented)
  }

  /** A face the strict test accepts is accepted by the non-strict test. */
  lemma StrictImpliesNonStrict<F>(normal: F -> Vec3, face: F, planeNormal: Vec3, sign: real)
    ensures CheckTurnedAwayFaceFromPlane(normal, face, planeNormal, sign, None, true) == Success(true) ==>
            CheckTurnedAwayFaceFromPlane(normal, face, planeNormal, sign, None, false) == Success(true)
  {
  }

  /** The two modes give different answers exactly for a face tangential to the plane. */
  lemma ModesDisagreeExactlyWhenTangential<F>(normal: F -> Vec3, face: F, planeNormal: Vec3, sign: real)
    ensures CheckTurnedAwayFaceFromPlane(normal, face, planeNormal, sign, None, true) !=
            CheckTurnedAwayFaceFromPlane(normal, face, planeNormal, sign, None, false)
            <==> sign * InnerProduct(normal(face), planeNormal) == 0.0
  {
  }

  /** With any local coordinate system the check raises, whatever the other arguments. */
  lemma LocalSystemAlwaysRaises<F>(normal: F -> Vec3, face: F, planeNormal: Vec3, sign: real,
                                   localSys: LocalSystem, strict: bool)
    ensures CheckTurnedAwayFaceFromPlane(normal, face, planeNormal, sign, Some(localSys), strict)
            == Failure(PreciseCheckNotImplemented)
  {
  }

  /** Testing with sign -1 is testing with sign +1 against the flipped plane. */
  lemma SignFlipIsNegatedPlane<F>(normal: F -> Vec3, face: F, planeNormal: Vec3, strict: bool)
    ensures CheckTurnedAwayFaceFromPlane(normal, face, planeNormal, -1.0, None, strict) ==
            CheckTurnedAwayFaceFromPlane(normal, face, Negate(planeNormal), 1.0, None, strict)
  {
    assert InnerProduct(normal(face), Negate(planeNormal)) == -InnerProduct(normal(face), planeNormal);
  }

  /** The sign `get_turned_away_shell_faces_from_plane` tests with. */
  function SignFor(toFace: bool): real {
    if toFace then -1.0 else 1.0
  }

  /** The comprehension's test: the check, without a local system, accepts the face. */
  function TurnedAwayTest<F>(normal: F -> Vec3, planeNormal: Vec3, sign: real, strict: bool): F -> bool {
    face => CheckTurnedAwayFaceFromPlane(normal, face, planeNormal, sign, None, strict) == Success(true)
  }

  /** The faces of a shell that are turned away from the plane (`toFace`: that
      look towards it), in the order the shell explodes into. */
  function GetTurnedAwayShellFaces<F>(normal: F -> Vec3, shellFaces: seq<F>, planeNormal: Vec3,
                                      toFace: bool, strict: bool): (r: seq<F>)
    ensures IsSubsequence(r, shellFaces)
    ensures forall k :: 0 <= k < |r| ==>
              r[k] in shellFaces && TurnedAway(normal, r[k], planeNormal, SignFor(toFace), strict)
    ensures forall i :: 0 <= i < |shellFaces| && TurnedAway(normal, shellFaces[i], planeNormal, SignFor(toFace), strict)
              ==> shellFaces[i] in r
    // every occurrence of a kept face is kept (faces outside the shell do not occur, by the second clause)
    ensures forall i :: 0 <= i < |shellFaces| ==>
              multiset(r)[shellFaces[i]] ==
              if TurnedAway(normal, shellFaces[i], planeNormal, SignFor(toFace), strict)
              then multiset(shellFaces)[shellFaces[i]] else 0
  {
    forall i | 0 <= i < |shellFaces|
      ensures multiset(Filter(TurnedAwayTest(normal, planeNormal, SignFor(toFace), strict), shellFaces))[shellFaces[i]] ==
              if TurnedAway(normal, shellFaces[i], planeNormal, SignFor(toFace), strict)
              then multiset(shellFaces)[shellFaces[i]] else 0
    {
      FilterMultiplicity(TurnedAwayTest(normal, planeNormal, SignFor(toFace), strict), shellFaces, shellFaces[i]);
    }
    FilterIsSubsequence(TurnedAwayTest(normal, planeNormal, SignFor(toFace), strict), shellFaces);
    Filter(TurnedAwayTest(normal, planeNormal, SignFor(toFace), strict), shellFaces)
  }

  /** Looking for faces that face the plane is looking for faces turned away
      from the plane with flipped orientation. */
  lemma ToFaceIsNegatedPlane<F>(normal: F -> Vec3, shellFaces: seq<F>, planeNormal: Vec3, strict: bool)
    ensures GetTurnedAwayShellFaces(normal, shellFaces, planeNormal, true, strict) ==
            GetTurnedAwayShellFaces(normal, shellFaces, Negate(planeNormal), false, strict)
  {
    forall face | face in shellFaces
      ensures TurnedAwayTest(normal, planeNormal, -1.0, strict)(face) ==
              TurnedAwayTest(normal, Negate(planeNormal), 1.0, strict)(face)
    {
      SignFlipIsNegatedPlane(normal, face, planeNormal, strict);
    }
    FilterCongruent(TurnedAwayTest(normal, planeNormal, -1.0, strict),
                    TurnedAwayTest(normal, Negate(planeNormal), 1.0, strict), shellFaces);
  }

  /** The strictly turned-away faces are an order-preserving sublist of the
      non-strictly turned-away faces. */
  lemma StrictShellFacesAreSublist<F>(normal: F -> Vec3, shellFaces: seq<F>, planeNormal: Vec3, toFace: bool)
    ensures IsSubsequence(GetTurnedAwayShellFaces(normal, shellFaces, planeNormal, toFace, true),
                          GetTurnedAwayShellFaces(normal, shellFaces, planeNormal, toFace, false))
  {
    var sign := SignFor(toFace);
    forall face | face in shellFaces && TurnedAwayTest(normal, planeNormal, sign, true)(face)
      ensures TurnedAwayTest(normal, planeNormal, sign, false)(face)
    {
      StrictImpliesNonStrict(normal, face, planeNormal, sign);
    }
    FilterStronger(TurnedAwayTest(normal, planeNormal, sign, true),
                   TurnedAwayTest(normal, planeNormal, sign, false), shellFaces);
  }

  /** A shell face is selected exactly when it is turned away. */
  lemma ShellFaceSelected<F>(normal: F -> Vec3, shellFaces: seq<F>, planeNormal: Vec3,
                             toFace: bool, strict: bool, face: F)
    requires face in shellFaces
    ensures face in GetTurnedAwayShellFaces(normal, shellFaces, planeNormal, toFace, strict)
            <==> TurnedAway(normal, face, planeNormal, SignFor(toFace), strict)
  {
    var r := GetTurnedAwayShellFaces(normal, shellFaces, planeNormal, toFace, strict);
    var i :| 0 <= i < |shellFaces| && shellFaces[i] == face;
    if face in r {
      var k :| 0 <= k < |r| && r[k] == face;
    }
  }

  /** A face is kept in non-strict mode but not in strict mode exactly when it
      is tangential to the plane. */
  lemma TangentialFacesSeparateModes<F>(normal: F -> Vec3, shellFaces: seq<F>, planeNormal: Vec3,
                                        toFace: bool, face: F)
    requires face in shellFaces
    ensures face in GetTurnedAwayShellFaces(normal, shellFaces, planeNormal, toFace, false) &&
            face !in GetTurnedAwayShellFaces(normal, shellFaces, planeNormal, toFace, true)
            <==> SignFor(toFace) * InnerProduct(normal(face), planeNormal) == 0.0
  {
    var v := SignFor(toFace) * InnerProduct(normal(face), planeNormal);
    assert TurnedAway(normal, face, planeNormal, SignFor(toFace), true) <==> v > 0.0;
    assert TurnedAway(normal, face, planeNormal, SignFor(toFace), false) <==> v >= 0.0;
    ShellFaceSelected(normal, shellFaces, planeNormal, toFace, true, face);
    ShellFaceSelected(normal, shellFaces, planeNormal, toFace, false, face);
  }

  // ---------------------------------------------------------------------------
  // Neighbour test

  /** Two faces are neighbours when both are present, they are different, and
      their minimum distance is exactly zero. */
  function CheckNeighbour<F(==)>(dist: (F, F) -> real, face1: Option<F>, face2: Option<F>): (r: bool)
    ensures face1.None? || face2.None? ==> !r
    ensures face1 == face2 ==> !r
    ensures r ==> face1.Some? && face2.Some? && dist(face1.value, face2.value) == 0.0
  {
    if face1.None? || face2.None? then false
    else if dist(face1.value, face2.value) == 0.0 && face1 != face2 then true
    else false
  }

  /** For two present faces the test holds iff they touch and differ. */
  lemma NeighbourIffTouchingAndDistinct<F>(dist: (F, F) -> real, a: F, b: F)
    ensures CheckNeighbour(dist, Some(a), Some(b)) <==> dist(a, b) == 0.0 && a != b
  {
  }

  /** A symmetric distance makes the neighbour relation symmetric. */
  lemma NeighbourSymmetric<F>(dist: (F, F) -> real, face1: Option<F>, face2: Option<F>)
    requires face1.Some? && face2.Some? ==> dist(face1.value, face2.value) == dist(face2.value, face1.value)
    ensures CheckNeighbour(dist, face1, face2) == CheckNeighbour(dist, face2, face1)
  {
  }

  // ---------------------------------------------------------------------------
  // Inner side of a shell

  /** The comprehension's test: not one of the border faces. */
  function OutsideBorder<F(==)>(borderFaces: seq<F>): F -> bool {
    face => face !in borderFaces
  }

  /** The faces of the shell that are not border faces, in shell order. */
  function Candidates<F(==)>(shellFaces: seq<F>, borderFaces: seq<F>): (r: seq<F>)
    ensures IsSubsequence(r, shellFaces)
    ensures forall k :: 0 <= k < |r| ==> r[k] in shellFaces && r[k] !in borderFaces
    ensures forall i :: 0 <= i < |shellFaces| && shellFaces[i] !in borderFaces ==> shellFaces[i] in r
    // every occurrence of a kept face is kept (faces outside the shell do not occur, by the second clause)
    ensures forall i :: 0 <= i < |shellFaces| ==>
              multiset(r)[shellFaces[i]] == if shellFaces[i] !in borderFaces then multiset(shellFaces)[shellFaces[i]] else 0
  {
    forall i | 0 <= i < |shellFaces|
      ensures multiset(Filter(OutsideBorder(borderFaces), shellFaces))[shellFaces[i]] ==
              if shellFaces[i] !in borderFaces then multiset(shellFaces)[shellFaces[i]] else 0
    {
      FilterMultiplicity(OutsideBorder(borderFaces), shellFaces, shellFaces[i]);
    }
    FilterIsSubsequence(OutsideBorder(borderFaces), shellFaces);
    Filter(OutsideBorder(borderFaces), shellFaces)
  }

  /** The test "is a neighbour of `face`" applied to each remaining candidate. */
  function NeighbourOf<F(==)>(dist: (F, F) -> real, face: F): F -> bool {
    other => CheckNeighbour(dist, Some(face), Some(other))
  }

  /** `for i in indices: face_list[i] = None`: the list as a list of present
      faces, with the given positions emptied. */
  method ClearPositions<F>(faceList: seq<F>, indices: seq<nat>) returns (slots: seq<Option<F>>)
    requires forall k :: 0 <= k < |indices| ==> indices[k] < |faceList|
    ensures |slots| == |faceList|
    ensures forall i :: 0 <= i < |faceList| ==> slots[i] == if i in indices then None else Some(faceList[i])
  {
    slots := seq(|faceList|, i requires 0 <= i < |faceList| => Some(faceList[i]));
    ghost var cleared: set<nat> := {};
    for j := 0 to |indices|
      invariant |slots| == |faceList|
      invariant cleared == set k | 0 <= k < j :: indices[k]
      invariant forall i :: 0 <= i < |faceList| ==> slots[i] == if i in cleared then None else Some(faceList[i])
    {
      slots := slots[indices[j] := None];
      cleared := cleared + {indices[j]};
    }
    forall i | 0 <= i < |faceList| ensures i in cleared <==> i in indices {
      if i in indices {
        var k :| 0 <= k < |indices| && indices[k] == i;
      }
    }
  }

  /** One expansion of the flood fill: the positions of the neighbours of
      `markedFace` in `faceList`, the neighbours at those positions, the list
      with those positions emptied, and its compaction. The neighbours come
      out in list order and the rest keeps its order. */
  method RemoveNeighbours<F(==)>(dist: (F, F) -> real, markedFace: F, faceList: seq<F>)
    returns (newNeighbours: seq<F>, rest: seq<F>)
    ensures newNeighbours == Filter(NeighbourOf(dist, markedFace), faceList)
    ensures rest == Filter(Not(NeighbourOf(dist, markedFace)), faceList)
  {
    var isNeighbour := NeighbourOf(dist, markedFace);
    var indices := IndicesWhere(isNeighbour, faceList, 0);
    newNeighbours := seq(|indices|, k requires 0 <= k < |indices| => faceList[indices[k]]);
    IndicesWhereSelectFilter(isNeighbour, faceList, 0);
    assert faceList[0..] == faceList;

    var slots := ClearPositions(faceList, indices);
    forall i | 0 <= i < |faceList|
      ensures slots[i] == if isNeighbour(faceList[i]) then None else Some(faceList[i])
    {
      if i in indices {
        var k :| 0 <= k < |indices| && indices[k] == i;
      }
    }
    rest := Compact(slots);
    CompactMasked(isNeighbour, faceList, slots);
  }

  /** `x` neighbours one of the first `bound` faces of `done`. */
  ghost predicate HasEarlierNeighbour<F>(dist: (F, F) -> real, done: seq<F>, bound: int, x: F) {
    exists i :: 0 <= i < bound && i < |done| && CheckNeighbour(dist, Some(done[i]), Some(x))
  }

  /** No face of `faceList` neighbours a face of `done`. */
  ghost predicate Closed<F>(dist: (F, F) -> real, done: seq<F>, faceList: seq<F>) {
    forall i, x :: 0 <= i < |done| && x in faceList ==> !CheckNeighbour(dist, Some(done[i]), Some(x))
  }

  /** Appending to `done` keeps the neighbours found in its prefix. */
  lemma EarlierNeighbourKept<F>(dist: (F, F) -> real, done: seq<F>, bound: int, x: F, f: F)
    requires HasEarlierNeighbour(dist, done, bound, x)
    ensures HasEarlierNeighbour(dist, done + [f], bound, x)
  {
    var i :| 0 <= i < bound && i < |done| && CheckNeighbour(dist, Some(done[i]), Some(x));
    assert (done + [f])[i] == done[i];
  }

  /** Loop step: the popped face was found from an earlier face of `done`
      (or is the seed, when `done` is empty), so `done + [f]` keeps its order. */
  lemma DoneOrderStep<F>(dist: (F, F) -> real, innerFace: F, done: seq<F>, marked: seq<F>, done': seq<F>)
    requires marked != [] && done' == done + [marked[|marked| - 1]]
    requires done == [] ==> marked == [innerFace]
    requires forall j :: 1 <= j < |done| ==> HasEarlierNeighbour(dist, done, j, done[j])
    requires done != [] ==> forall k :: 0 <= k < |marked| ==> HasEarlierNeighbour(dist, done, |done|, marked[k])
    ensures forall j :: 1 <= j < |done'| ==> HasEarlierNeighbour(dist, done', j, done'[j])
  {
    var f := marked[|marked| - 1];
    forall j | 1 <= j < |done'|
      ensures HasEarlierNeighbour(dist, done', j, done'[j])
    {
      if j < |done| {
        EarlierNeighbourKept(dist, done, j, done[j], f);
      } else {
        EarlierNeighbourKept(dist, done, |done|, f, f);
      }
    }
  }

  /** Loop step: what stays on the stack was found from `done`, and the new
      neighbours were found from the popped face. */
  lemma MarkedStep<F>(dist: (F, F) -> real, done: seq<F>, marked: seq<F>, newNeighbours: seq<F>,
                      done': seq<F>, marked': seq<F>)
    requires marked != [] && (done == [] ==> |marked| == 1)
    requires done' == done + [marked[|marked| - 1]] && marked' == marked[..|marked| - 1] + newNeighbours
    requires done != [] ==> forall k :: 0 <= k < |marked| ==> HasEarlierNeighbour(dist, done, |done|, marked[k])
    requires forall k :: 0 <= k < |newNeighbours| ==>
               CheckNeighbour(dist, Some(marked[|marked| - 1]), Some(newNeighbours[k]))
    ensures forall k :: 0 <= k < |marked'| ==> HasEarlierNeighbour(dist, done', |done'|, marked'[k])
  {
    var f, n := marked[|marked| - 1], |marked| - 1;
    forall k | 0 <= k < |marked'|
      ensures HasEarlierNeighbour(dist, done', |done'|, marked'[k])
    {
      if k < n {
        assert marked'[k] == marked[k];
        EarlierNeighbourKept(dist, done, |done|, marked[k], f);
      } else {
        assert marked'[k] == newNeighbours[k - n];
        assert done'[|done|] == f;
      }
    }
  }

  /** Loop step: the compacted list holds no neighbour of the popped face, and
      no neighbour of an earlier face of `done`. */
  lemma ClosedStep<F>(dist: (F, F) -> real, done: seq<F>, faceList: seq<F>, f: F, rest: seq<F>)
    requires Closed(dist, done, faceList)
    requires rest == Filter(Not(NeighbourOf(dist, f)), faceList)
    ensures Closed(dist, done + [f], rest)
  {
    forall i, x | 0 <= i < |done| + 1 && x in rest
      ensures !CheckNeighbour(dist, Some((done + [f])[i]), Some(x))
    {
      var k :| 0 <= k < |rest| && rest[k] == x;
      assert x in faceList && !NeighbourOf(dist, f)(x);
      if i < |done| {
        assert (done + [f])[i] == done[i];
      }
    }
  }

  /** The invariant of the fill loop. `candidates` is the border-filtered
      list the fill starts from; every face is in exactly one of `done`,
      `marked` and `faceList` (the seed once more than the candidates). */
  ghost predicate FillState<F>(dist: (F, F) -> real, innerFace: F, candidates: seq<F>,
                               faceList: seq<F>, marked: seq<F>, done: seq<F>) {
    (done == [] ==> marked == [innerFace]) &&
    (done != [] ==> done[0] == innerFace) &&
    multiset(done) + multiset(marked) + multiset(faceList) == multiset{innerFace} + multiset(candidates) &&
    (forall j :: 1 <= j < |done| ==> HasEarlierNeighbour(dist, done, j, done[j])) &&
    (done != [] ==> forall k :: 0 <= k < |marked| ==> HasEarlierNeighbour(dist, done, |done|, marked[k])) &&
    Closed(dist, done, faceList)
  }

  /** Loop step: popping `f` off the stack, moving the neighbours from the
      list to the stack and `f` to `done` keeps every face accounted for. */
  lemma ConservationStep<F>(innerFace: F, candidates: seq<F>, faceList: seq<F>, marked: seq<F>,
                            done: seq<F>, newNeighbours: seq<F>, rest: seq<F>)
    requires marked != []
    requires multiset(done) + multiset(marked) + multiset(faceList) == multiset{innerFace} + multiset(candidates)
    requires multiset(newNeighbours) + multiset(rest) == multiset(faceList)
    ensures multiset(done + [marked[|marked| - 1]]) + multiset(marked[..|marked| - 1] + newNeighbours) +
            multiset(rest) == multiset{innerFace} + multiset(candidates)
  {
    assert marked == marked[..|marked| - 1] + [marked[|marked| - 1]];
  }

  /** One pass of the fill loop keeps its invariant and moves every
      candidate it looks at to exactly one side. */
  lemma FillStep<F>(dist: (F, F) -> real, innerFace: F, candidates: seq<F>,
                    faceList: seq<F>, marked: seq<F>, done: seq<F>, newNeighbours: seq<F>, rest: seq<F>)
    requires FillState(dist, innerFace, candidates, faceList, marked, done) && marked != []
    requires newNeighbours == Filter(NeighbourOf(dist, marked[|marked| - 1]), faceList)
    requires rest == Filter(Not(NeighbourOf(dist, marked[|marked| - 1])), faceList)
    ensures FillState(dist, innerFace, candidates, rest, marked[..|marked| - 1] + newNeighbours,
                      done + [marked[|marked| - 1]])
    ensures |newNeighbours| + |rest| == |faceList|
  {
    var markedFace := marked[|marked| - 1];
    FilterPartition(NeighbourOf(dist, markedFace), faceList);
    ConservationStep(innerFace, candidates, faceList, marked, done, newNeighbours, rest);
    DoneOrderStep(dist, innerFace, done, marked, done + [markedFace]);
    MarkedStep(dist, done, marked, newNeighbours, done + [markedFace], marked[..|marked| - 1] + newNeighbours);
    ClosedStep(dist, done, faceList, markedFace, rest);
  }

  /** At the end, the faces after the seed and the faces left over make up the candidates. */
  lemma SeedAndCandidates<F>(innerFace: F, candidates: seq<F>, done: seq<F>, remaining: seq<F>)
    requires done != [] && done[0] == innerFace
    requires multiset(done) + multiset(remaining) == multiset{innerFace} + multiset(candidates)
    ensures multiset(done[1..]) + multiset(remaining) == multiset(candidates)
    ensures |done| <= 1 + |candidates|
  {
    assert done == [innerFace] + done[1..];
    assert multiset(done) == multiset{innerFace} + multiset(done[1..]);
    forall y ensures (multiset(done[1..]) + multiset(remaining))[y] == multiset(candidates)[y] {
      assert (multiset(done) + multiset(remaining))[y] == (multiset{innerFace} + multiset(candidates))[y];
    }
    assert multiset(done[1..]) + multiset(remaining) == multiset(candidates);
    assert |multiset(done[1..])| + |multiset(remaining)| == |multiset(candidates)|;
  }

  /** Faces drawn from the candidates are shell faces and not border faces. */
  lemma DrawnFromCandidates<F>(shellFaces: seq<F>, borderFaces: seq<F>, drawn: seq<F>)
    requires multiset(drawn) <= multiset(Candidates(shellFaces, borderFaces))
    ensures forall j :: 0 <= j < |drawn| ==> drawn[j] in shellFaces && drawn[j] !in borderFaces
  {
    var candidates := Candidates(shellFaces, borderFaces);
    forall j | 0 <= j < |drawn| ensures drawn[j] in shellFaces && drawn[j] !in borderFaces {
      assert drawn[j] in multiset(candidates);
      var k :| 0 <= k < |candidates| && candidates[k] == drawn[j];
    }
  }

  /** A candidate that neighbours a collected face has been collected. */
  lemma ClosedOverCandidates<F>(dist: (F, F) -> real, candidates: seq<F>, done: seq<F>, remaining: seq<F>)
    requires done != []
    requires multiset(done[1..]) + multiset(remaining) == multiset(candidates)
    requires Closed(dist, done, remaining)
    ensures forall i, x :: 0 <= i < |done| && x in candidates && CheckNeighbour(dist, Some(done[i]), Some(x))
              ==> x in done[1..]
  {
    forall i, x | 0 <= i < |done| && x in candidates && CheckNeighbour(dist, Some(done[i]), Some(x))
      ensures x in done[1..]
    {
      assert x !in remaining;
      assert x in multiset(candidates);
    }
  }

  /** Without duplicate candidates nothing after the seed is collected twice,
      and nothing at all when the seed is not a candidate. */
  lemma CollectedOnce<F>(innerFace: F, candidates: seq<F>, done: seq<F>)
    requires done != [] && done[0] == innerFace
    requires multiset(done[1..]) <= multiset(candidates)
    ensures NoDuplicates(candidates) ==> NoDuplicates(done[1..])
    ensures NoDuplicates(candidates) && innerFace !in candidates ==> NoDuplicates(done)
  {
    if NoDuplicates(candidates) {
      SubmultisetNoDuplicates(candidates, done[1..]);
      if innerFace !in candidates {
        assert innerFace !in done[1..] by {
          assert innerFace !in multiset(candidates);
        }
        forall i, j | 0 <= i < j < |done| ensures done[i] != done[j] {
          assert done[j] == done[1..][j - 1];
          if i > 0 {
            assert done[i] == done[1..][i - 1];
          }
        }
      }
    }
  }

  /** The seed is not removed from the candidates, so a seed that is itself a
      candidate is found again from any neighbour that sees it back, and is
      collected a second time. */
  lemma SeedRediscovered<F>(dist: (F, F) -> real, candidates: seq<F>, done: seq<F>, y: F)
    requires done != []
    requires forall i, x :: 0 <= i < |done| && x in candidates && CheckNeighbour(dist, Some(done[i]), Some(x))
               ==> x in done[1..]
    requires done[0] in candidates && y in candidates
    requires CheckNeighbour(dist, Some(done[0]), Some(y)) && CheckNeighbour(dist, Some(y), Some(done[0]))
    ensures multiset(done)[done[0]] >= 2
  {
    assert y in done[1..];
    var j :| 0 <= j < |done[1..]| && done[1..][j] == y;
    assert done[j + 1] == y;
    assert done[0] in done[1..];
    var k :| 0 <= k < |done[1..]| && done[1..][k] == done[0];
    assert done[k + 1] == done[0];
    RepeatedCountsTwice(done, 0, k + 1);
  }

  /** The fill's last state, read as the properties of its result. */
  lemma FillOutcome<F>(dist: (F, F) -> real, shellFaces: seq<F>, borderFaces: seq<F>, innerFace: F,
                       done: seq<F>, remaining: seq<F>)
    requires FillState(dist, innerFace, Candidates(shellFaces, borderFaces), remaining, [], done)
    ensures |done| >= 1 && done[0] == innerFace
    ensures multiset(done[1..]) + multiset(remaining) == multiset(Candidates(shellFaces, borderFaces))
    ensures |done| <= 1 + |Candidates(shellFaces, borderFaces)|
    ensures forall j :: 1 <= j < |done| ==> done[j] in shellFaces && done[j] !in borderFaces
    ensures forall j :: 1 <= j < |done| ==>
              exists i :: 0 <= i < j && CheckNeighbour(dist, Some(done[i]), Some(done[j]))
    ensures forall i, x :: 0 <= i < |done| && x in remaining ==> !CheckNeighbour(dist, Some(done[i]), Some(x))
    ensures forall i, x ::
              0 <= i < |done| && x in Candidates(shellFaces, borderFaces) &&
              CheckNeighbour(dist, Some(done[i]), Some(x))
              ==> x in done[1..]
    ensures NoDuplicates(Candidates(shellFaces, borderFaces)) ==> NoDuplicates(done[1..])
    ensures NoDuplicates(Candidates(shellFaces, borderFaces)) && innerFace !in Candidates(shellFaces, borderFaces)
            ==> NoDuplicates(done)
    ensures forall y :: innerFace in Candidates(shellFaces, borderFaces) && y in Candidates(shellFaces, borderFaces) &&
              CheckNeighbour(dist, Some(innerFace), Some(y)) && CheckNeighbour(dist, Some(y), Some(innerFace))
              ==> multiset(done)[innerFace] >= 2
  {
    var candidates := Candidates(shellFaces, borderFaces);
    SeedAndCandidates(innerFace, candidates, done, remaining);
    DrawnFromCandidates(shellFaces, borderFaces, done[1..]);
    forall j | 1 <= j < |done| ensures done[j] in shellFaces && done[j] !in borderFaces {
      assert done[j] == done[1..][j - 1];
    }
    forall j | 1 <= j < |done|
      ensures exists i :: 0 <= i < j && CheckNeighbour(dist, Some(done[i]), Some(done[j]))
    {
      assert HasEarlierNeighbour(dist, done, j, done[j]);
    }
    ClosedOverCandidates(dist, candidates, done, remaining);
    CollectedOnce(innerFace, candidates, done);
    forall y | innerFace in candidates && y in candidates &&
               CheckNeighbour(dist, Some(innerFace), Some(y)) && CheckNeighbour(dist, Some(y), Some(innerFace))
      ensures multiset(done)[innerFace] >= 2
    {
      SeedRediscovered(dist, candidates, done, y);
    }
  }

  /** The faces on the inner side of a closed shell: a flood fill over the
      neighbour relation from `innerFace`, which never enters a border face.
      `marked` is a stack, `done` the faces expanded so far; `remaining` is the
      candidate list as the fill leaves it. */
  method GetInnerSideOfShell<F(==)>(dist: (F, F) -> real, shellFaces: seq<F>, innerFace: F, borderFaces: seq<F>)
    returns (r: Result<seq<F>, Error>, ghost remaining: seq<F>)
    ensures r.Failure? <==> borderFaces == []
    ensures r.Failure? ==> r.error == BorderDetectionNotImplemented
    // the seed comes first
    ensures r.Success? ==> |r.value| >= 1 && r.value[0] == innerFace
    // every candidate is either collected or left over
    ensures r.Success? ==>
              multiset(r.value[1..]) + multiset(remaining) == multiset(Candidates(shellFaces, borderFaces))
    ensures r.Success? ==> |r.value| <= 1 + |Candidates(shellFaces, borderFaces)|
    // no later entry is a border face
    ensures r.Success? ==> forall j :: 1 <= j < |r.value| ==> r.value[j] in shellFaces && r.value[j] !in borderFaces
    // every later entry neighbours an earlier one
    ensures r.Success? ==> forall j :: 1 <= j < |r.value| ==>
              exists i :: 0 <= i < j && CheckNeighbour(dist, Some(r.value[i]), Some(r.value[j]))
    // the collected faces are closed under the neighbour relation
    ensures r.Success? ==> forall i, x :: 0 <= i < |r.value| && x in remaining ==>
              !CheckNeighbour(dist, Some(r.value[i]), Some(x))
    ensures r.Success? ==> forall i, x ::
              0 <= i < |r.value| && x in Candidates(shellFaces, borderFaces) &&
              CheckNeighbour(dist, Some(r.value[i]), Some(x))
              ==> x in r.value[1..]
    // no duplicates, when the candidates have none (and, for the seed, when it is not a candidate)
    ensures r.Success? && NoDuplicates(Candidates(shellFaces, borderFaces)) ==> NoDuplicates(r.value[1..])
    ensures r.Success? && NoDuplicates(Candidates(shellFaces, borderFaces)) &&
            innerFace !in Candidates(shellFaces, borderFaces)
            ==> NoDuplicates(r.value)
    // ... but a seed that is a candidate with a neighbour that sees it back is collected twice
    ensures r.Success? ==> forall y ::
              innerFace in Candidates(shellFaces, borderFaces) && y in Candidates(shellFaces, borderFaces) &&
              CheckNeighbour(dist, Some(innerFace), Some(y)) && CheckNeighbour(dist, Some(y), Some(innerFace))
              ==> multiset(r.value)[innerFace] >= 2
  {
    if borderFaces == [] {
      return Failure(BorderDetectionNotImplemented), [];
    }
    var faceList := Candidates(shellFaces, borderFaces);
    ghost var candidates := faceList;

    var marked := [innerFace];
    var done: seq<F> := [];
    while marked != []
      invariant FillState(dist, innerFace, candidates, faceList, marked, done)
      decreases 2 * |faceList| + |marked|
    {
      var markedFace := marked[|marked| - 1];
      var newNeighbours, rest := RemoveNeighbours(dist, markedFace, faceList);
      FillStep(dist, innerFace, candidates, faceList, marked, done, newNeighbours, rest);

      marked := marked[..|marked| - 1];
      faceList := rest;
      marked := marked + newNeighbours;
      done := done + [markedFace];
    }
    FillOutcome(dist, shellFaces, borderFaces, innerFace, done, faceList);
    r, remaining := Success(done), faceList;
  }

  // ---------------------------------------------------------------------------
  // Split by radius

  /** The loop's test: within `radius` of `centerFace`. */
  function WithinRadius<F>(dist: (F, F) -> real, centerFace: F, radius: real): F -> bool {
    face => dist(centerFace, face) <= radius
  }

  /** Splits `faceList` into the faces within `radius` of `centerFace` and the
      faces farther away, each part in list order. */
  method FilterListByRadius<F>(dist: (F, F) -> real, centerFace: F, faceList: seq<F>, radius: real)
    returns (inner: seq<F>, outer: seq<F>)
    ensures inner == Filter(WithinRadius(dist, centerFace, radius), faceList)
    ensures outer == Filter(Not(WithinRadius(dist, centerFace, radius)), faceList)
    ensures forall k :: 0 <= k < |inner| ==> inner[k] in faceList && dist(centerFace, inner[k]) <= radius
    ensures forall k :: 0 <= k < |outer| ==> outer[k] in faceList && dist(centerFace, outer[k]) > radius
    ensures multiset(inner) + multiset(outer) == multiset(faceList)
    ensures |inner| + |outer| == |faceList|
  {
    var within := WithinRadius(dist, centerFace, radius);
    inner, outer := [], [];
    for i := 0 to |faceList|
      invariant inner == Filter(within, faceList[..i])
      invariant outer == Filter(Not(within), faceList[..i])
    {
      assert faceList[..i + 1] == faceList[..i] + [faceList[i]];
      FilterAppend(within, faceList[..i], faceList[i]);
      FilterAppend(Not(within), faceList[..i], faceList[i]);
      if dist(centerFace, faceList[i]) <= radius {
        inner := inner + [faceList[i]];
      } else {
        outer := outer + [faceList[i]];
      }
    }
    assert faceList[..|faceList|] == faceList;
    FilterPartition(within, faceList);
  }
}
