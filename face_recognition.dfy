/**
 * The face-to-student matcher of `FaceRecognitionService`: every detected
 * face, in detector order, is compared with every enrolled student; the
 * nearest one is accepted when its cosine distance is below the threshold
 * and it has not been labelled yet in this image. Enrolled students that no
 * face claimed are absent.
 *
 * The embedding extractor and the cosine distance are oracles: a face
 * carries what the extractor returns for its crop, and `cosine` gives the
 * distance of two equal-length vectors (`None` when it raises or yields
 * NaN; `NaN < d` is false, so both leave the running minimum alone).
 */
module FaceRecognition {
  import opened Roster
  import opened Vectors

  /** `Config.SFACE_THRESHOLD` when no environment override is set. */
  const DefaultThreshold: real := 0.8
  /** `Config.FACE_MODEL_NAME`. */
  const FaceModelName: string := "SFace"

  /** A detector box `[x1, y1, x2, y2]` in integer pixels. */
  datatype Box = Box(x1: int, y1: int, x2: int, y2: int)

  /** The height and width of the decoded image (it has three channels). */
  datatype ImageSize = ImageSize(height: nat, width: nat)

  /**
   * A detected face: its box, and what `DeepFace.represent` yields for the
   * crop (`None` when the call raises or returns no embedding).
   */
  datatype Face = Face(box: Box, embedding: Option<RawVector>)

  /** The best enrolled student found so far for one face. */
  datatype Candidate = Candidate(studentId: StudentId, distance: real)

  /**
   * One entry of `present_students`. `confidence` and `distance` are kept
   * exact here; the source rounds them to 2 and 3 decimals for display.
   */
  datatype Match = Match(studentId: StudentId, name: string, confidence: real, distance: real, box: Box)

  /** The dict `process_attendance_image` returns. */
  datatype Report = Report(
    present: seq<Match>,
    absent: set<StudentId>,
    totalFaces: nat,
    recognizedCount: nat,
    unknownFaces: int,
    model: string,
    threshold: real,
    totalEnrolled: nat)

  /** The `{student_id: embedding}` table the matcher receives, in key order. */
  type Table = seq<Entry<RawVector>>

  /** `scipy.spatial.distance.cosine` as an oracle. */
  type Cosine = (seq<real>, seq<real>) -> Option<real>

  /** Everything one call of the matcher depends on besides the faces. */
  datatype Setup = Setup(image: ImageSize, enrolled: Table, threshold: real, cosine: Cosine)

  // ---------------------------------------------------------------------
  // Cropping: `image[y1:y2, x1:x2]` with Python slice semantics.
  // ---------------------------------------------------------------------

  /** A slice bound after Python's adjustment: negative counts from the end, then clamp. */
  function SliceBound(n: nat, i: int): (r: nat)
    ensures r <= n
    ensures 0 <= i <= n ==> r == i
  {
    if i < 0 then (if i + n < 0 then 0 else i + n)
    else if i > n then n
    else i
  }

  /** `len(range(n)[lo:hi])`. */
  function SliceLength(n: nat, lo: int, hi: int): (r: nat)
    ensures r <= n
    ensures 0 <= lo <= hi <= n ==> r == hi - lo
    ensures n <= lo ==> r == 0
  {
    var a, b := SliceBound(n, lo), SliceBound(n, hi);
    if a < b then b - a else 0
  }

  /** `face_crop.size == 0`. */
  predicate CropIsEmpty(image: ImageSize, box: Box) {
    SliceLength(image.height, box.y1, box.y2) == 0 || SliceLength(image.width, box.x1, box.x2) == 0
  }

  /** A box that lies inside the image and has positive extent gives a non-empty crop. */
  lemma CropInsideImage(image: ImageSize, box: Box)
    requires 0 <= box.x1 < box.x2 <= image.width
    requires 0 <= box.y1 < box.y2 <= image.height
    ensures !CropIsEmpty(image, box)
  {
  }

  // ---------------------------------------------------------------------
  // Specification of one face's nearest student.
  // ---------------------------------------------------------------------

  /**
   * The flattened embedding of a face, or `None` when the face is skipped:
   * empty crop, extractor failure, or an embedding numpy cannot flatten.
   */
  function FaceEmbedding(image: ImageSize, face: Face): Option<seq<real>> {
    if CropIsEmpty(image, face.box) then None
    else match face.embedding
      case None => None
      case Some(raw) => Flatten(raw)
  }

  /**
   * The distance of a face embedding to one stored vector, or `None` when the
   * candidate is skipped: the stored vector cannot be flattened, its length
   * differs from the face's, or the cosine oracle fails.
   */
  function Compare(emb: seq<real>, stored: RawVector, cosine: Cosine): Option<real> {
    match Flatten(stored)
    case None => None
    case Some(v) => if |emb| != |v| then None else cosine(emb, v)
  }

  /** One step of the inner loop: `if dist < min_distance` with `None` for infinity. */
  function Improve(best: Option<Candidate>, id: StudentId, dist: Option<real>): Option<Candidate> {
    match dist
    case None => best
    case Some(d) => if best.None? || d < best.value.distance then Some(Candidate(id, d)) else best
  }

  /** The candidate left after the inner loop has seen all of `table`, in order. */
  function Nearest(emb: seq<real>, table: Table, cosine: Cosine): Option<Candidate>
    decreases |table|
  {
    if table == [] then None
    else
      var last := table[|table| - 1];
      Improve(Nearest(emb, table[..|table| - 1], cosine), last.id, Compare(emb, last.value, cosine))
  }

  /**
   * The inner loop finds the FIRST enrolled student, in key order, at the
   * minimum distance among the comparable ones, and finds nothing exactly
   * when no stored vector is comparable.
   */
  lemma {:induction false} NearestIsFirstMinimum(emb: seq<real>, table: Table, cosine: Cosine)
    ensures Nearest(emb, table, cosine).None? <==>
      forall j :: 0 <= j < |table| ==> Compare(emb, table[j].value, cosine).None?
    ensures Nearest(emb, table, cosine).Some? ==>
      var c := Nearest(emb, table, cosine).value;
      exists k :: 0 <= k < |table| && table[k].id == c.studentId &&
        Compare(emb, table[k].value, cosine) == Some(c.distance) &&
        (forall j :: 0 <= j < |table| && Compare(emb, table[j].value, cosine).Some? ==>
           c.distance <= Compare(emb, table[j].value, cosine).value) &&
        (forall j :: 0 <= j < k && Compare(emb, table[j].value, cosine).Some? ==>
           c.distance < Compare(emb, table[j].value, cosine).value)
    decreases |table|
  {
    if table != [] {
      var n := |table| - 1;
      var init := table[..n];
      NearestIsFirstMinimum(emb, init, cosine);
      assert forall j :: 0 <= j < n ==> init[j] == table[j];
      var prev := Nearest(emb, init, cosine);
      var d := Compare(emb, table[n].value, cosine);
      if d.Some? && (prev.None? || d.value < prev.value.distance) {
        var c := Candidate(table[n].id, d.value);
        assert Nearest(emb, table, cosine) == Some(c);
        if prev.Some? {
          var k :| 0 <= k < n && init[k].id == prev.value.studentId &&
            Compare(emb, init[k].value, cosine) == Some(prev.value.distance) &&
            (forall j :: 0 <= j < n && Compare(emb, init[j].value, cosine).Some? ==>
               prev.value.distance <= Compare(emb, init[j].value, cosine).value);
        }
        assert table[n].id == c.studentId && Compare(emb, table[n].value, cosine) == Some(c.distance);
      } else if prev.Some? {
        var c := prev.value;
        assert Nearest(emb, table, cosine) == Some(c);
        var k :| 0 <= k < n && init[k].id == c.studentId &&
          Compare(emb, init[k].value, cosine) == Some(c.distance) &&
          (forall j :: 0 <= j < n && Compare(emb, init[j].value, cosine).Some? ==>
             c.distance <= Compare(emb, init[j].value, cosine).value) &&
          (forall j :: 0 <= j < k && Compare(emb, init[j].value, cosine).Some? ==>
             c.distance < Compare(emb, init[j].value, cosine).value);
        assert table[k].id == c.studentId && Compare(emb, table[k].value, cosine) == Some(c.distance);
      } else {
        assert Nearest(emb, table, cosine).None?;
      }
    }
  }

  /** The nearest student of a face, or `None` when the face is skipped or nothing is comparable. */
  function FaceNearest(s: Setup, face: Face): Option<Candidate> {
    match FaceEmbedding(s.image, face)
    case None => None
    case Some(emb) => Nearest(emb, s.enrolled, s.cosine)
  }

  /** Face `face` would claim student `x` if `x` were not labelled yet. */
  predicate Accepts(s: Setup, face: Face, x: StudentId) {
    var n := FaceNearest(s, face);
    n.Some? && n.value.studentId == x && n.value.distance < s.threshold
  }

  // ---------------------------------------------------------------------
  // Specification of the outer loop and of the report.
  // ---------------------------------------------------------------------

  /** The ids in `present_students` (also `recognized_student_ids`). */
  function PresentIds(ms: seq<Match>): (r: set<StudentId>)
  {
    set i | 0 <= i < |ms| :: ms[i].studentId
  }

  /** No student appears twice among the matches. */
  ghost predicate DistinctMatches(ms: seq<Match>) {
    forall i, j :: 0 <= i < j < |ms| ==> ms[i].studentId != ms[j].studentId
  }

  /** `confidence` before rounding: `(1 - distance) * 100`. */
  function Confidence(distance: real): real {
    (1.0 - distance) * 100.0
  }

  /** The body of the outer loop for one face, given the matches so far. */
  function FaceStep(s: Setup, ms: seq<Match>, face: Face): seq<Match> {
    match FaceNearest(s, face)
    case None => ms
    case Some(c) =>
      if c.distance < s.threshold && c.studentId !in PresentIds(ms)
      then ms + [Match(c.studentId, c.studentId, Confidence(c.distance), c.distance, face.box)]
      else ms
  }

  /** `face_results` after the outer loop has seen all of `faces`, in order: never more matches than faces. */
  function MatchFaces(s: Setup, faces: seq<Face>): (r: seq<Match>)
    ensures |r| <= |faces|
    decreases |faces|
  {
    if faces == [] then []
    else FaceStep(s, MatchFaces(s, faces[..|faces| - 1]), faces[|faces| - 1])
  }

  /** Extending the prefix of faces by one runs one more step. */
  lemma MatchFacesStep(s: Setup, faces: seq<Face>, i: nat)
    requires i < |faces|
    ensures MatchFaces(s, faces[..i + 1]) == FaceStep(s, MatchFaces(s, faces[..i]), faces[i])
  {
    assert faces[..i + 1][..i] == faces[..i];
  }

  /** The report built from `face_results`; counters are derived from the recognized set. */
  function Recognize(s: Setup, faces: seq<Face>): Report {
    var present := MatchFaces(s, faces);
    var ids := PresentIds(present);
    Report(present, KeySet(s.enrolled) - ids, |faces|, |ids|, |faces| - |ids|,
           FaceModelName, s.threshold, |KeySet(s.enrolled)|)
  }

  // ---------------------------------------------------------------------
  // Properties of the specification.
  // ---------------------------------------------------------------------

  /**
   * Every match is well formed: no student twice, every student enrolled,
   * at most one match per face, each match strictly below the threshold,
   * named by its id and with the confidence of its distance.
   */
  lemma {:induction false} MatchFacesWellFormed(s: Setup, faces: seq<Face>)
    ensures var ms := MatchFaces(s, faces);
      && DistinctMatches(ms)
      && PresentIds(ms) <= KeySet(s.enrolled)
      && |ms| <= |faces|
      && forall i :: 0 <= i < |ms| ==>
           && ms[i].distance < s.threshold
           && ms[i].name == ms[i].studentId
           && ms[i].confidence == Confidence(ms[i].distance)
    decreases |faces|
  {
    if faces != [] {
      var n := |faces| - 1;
      var init := faces[..n];
      MatchFacesWellFormed(s, init);
      var prev := MatchFaces(s, init);
      var near := FaceNearest(s, faces[n]);
      if near.Some? && near.value.distance < s.threshold && near.value.studentId !in PresentIds(prev) {
        var emb := FaceEmbedding(s.image, faces[n]).value;
        NearestIsFirstMinimum(emb, s.enrolled, s.cosine);
        var k :| 0 <= k < |s.enrolled| && s.enrolled[k].id == near.value.studentId;
        assert near.value.studentId in KeySet(s.enrolled);
      }
    }
  }

  /** Every match is the nearest candidate of some detected face, and carries that face's box. */
  lemma {:induction false} MatchFacesTraceable(s: Setup, faces: seq<Face>)
    ensures var ms := MatchFaces(s, faces);
      forall i :: 0 <= i < |ms| ==>
        exists f :: 0 <= f < |faces| && faces[f].box == ms[i].box &&
          FaceNearest(s, faces[f]) == Some(Candidate(ms[i].studentId, ms[i].distance))
    decreases |faces|
  {
    if faces != [] {
      var n := |faces| - 1;
      var init := faces[..n];
      MatchFacesTraceable(s, init);
      var prev := MatchFaces(s, init);
      var ms := MatchFaces(s, faces);
      assert |ms| == |prev| || |ms| == |prev| + 1;
      assert forall i :: 0 <= i < |prev| ==> ms[i] == prev[i];
      forall i | 0 <= i < |ms|
        ensures exists f :: (0 <= f < |faces| && faces[f].box == ms[i].box &&
          FaceNearest(s, faces[f]) == Some(Candidate(ms[i].studentId, ms[i].distance)))
      {
        if i < |prev| {
          assert prev[i] == MatchFaces(s, init)[i];
          var f :| 0 <= f < |init| && init[f].box == prev[i].box &&
            FaceNearest(s, init[f]) == Some(Candidate(prev[i].studentId, prev[i].distance));
          assert faces[f] == init[f];
        } else {
          assert faces[n].box == ms[i].box;
        }
      }
    }
  }

  /**
   * Which students end up present does not depend on the order of claims:
   * `x` is present exactly when some face has `x` as its nearest student at
   * a distance below the threshold.
   */
  lemma {:induction false} PresentExactlyWhenSomeFaceAccepts(s: Setup, faces: seq<Face>, x: StudentId)
    ensures x in PresentIds(MatchFaces(s, faces)) <==> exists f :: 0 <= f < |faces| && Accepts(s, faces[f], x)
    decreases |faces|
  {
    if faces != [] {
      var n := |faces| - 1;
      var init := faces[..n];
      PresentExactlyWhenSomeFaceAccepts(s, init, x);
      assert forall f :: 0 <= f < n ==> init[f] == faces[f];
      var prev := MatchFaces(s, init);
      var near := FaceNearest(s, faces[n]);
      if near.Some? && near.value.distance < s.threshold && near.value.studentId !in PresentIds(prev) {
        var ms := prev + [Match(near.value.studentId, near.value.studentId, Confidence(near.value.distance), near.value.distance, faces[n].box)];
        assert MatchFaces(s, faces) == ms;
        assert PresentIds(ms) == PresentIds(prev) + {near.value.studentId} by {
          assert ms[|prev|].studentId == near.value.studentId;
          forall y | y in PresentIds(prev) ensures y in PresentIds(ms) {
            var i :| 0 <= i < |prev| && prev[i].studentId == y;
            assert ms[i].studentId == y;
          }
        }
      } else {
        assert MatchFaces(s, faces) == prev;
        if Accepts(s, faces[n], x) {
          assert x in PresentIds(prev);
        }
      }
      if x in PresentIds(MatchFaces(s, faces)) && !Accepts(s, faces[n], x) {
        assert exists f :: 0 <= f < n && Accepts(s, init[f], x);
      }
    }
  }

  /**
   * Raising the threshold never removes a student from the present set,
   * so it never adds one to the absent set.
   */
  lemma ThresholdMonotone(s: Setup, faces: seq<Face>, higher: real)
    requires s.threshold <= higher
    ensures PresentIds(MatchFaces(s, faces)) <= PresentIds(MatchFaces(s.(threshold := higher), faces))
    ensures Recognize(s.(threshold := higher), faces).absent <= Recognize(s, faces).absent
  {
    var t := s.(threshold := higher);
    forall x | x in PresentIds(MatchFaces(s, faces))
      ensures x in PresentIds(MatchFaces(t, faces))
    {
      PresentExactlyWhenSomeFaceAccepts(s, faces, x);
      var f :| 0 <= f < |faces| && Accepts(s, faces[f], x);
      assert Accepts(t, faces[f], x);
      PresentExactlyWhenSomeFaceAccepts(t, faces, x);
    }
  }

  /**
   * No fallback: when a face's nearest student is already labelled, the face
   * adds nothing, even if another unlabelled student is below the threshold.
   * Likewise a skipped face, or one whose nearest distance is not strictly
   * below the threshold, adds nothing.
   */
  lemma NoMatchWithoutAcceptance(s: Setup, faces: seq<Face>, face: Face)
    requires || FaceEmbedding(s.image, face).None?
             || FaceNearest(s, face).None?
             || FaceNearest(s, face).value.distance >= s.threshold
             || FaceNearest(s, face).value.studentId in PresentIds(MatchFaces(s, faces))
    ensures MatchFaces(s, faces + [face]) == MatchFaces(s, faces)
  {
    assert (faces + [face])[..|faces|] == faces;
  }

  /**
   * A concrete instance of the missing fallback: two faces are both nearest
   * to student "A"; the second face is also within the threshold of "B",
   * yet "B" stays absent.
   */
  lemma SecondFaceDoesNotFallBack()
    ensures var s := Setup(ImageSize(10, 10),
                           [Entry("A", Vector([1.0])), Entry("B", Vector([3.0]))],
                           DefaultThreshold, FallbackOracle);
            var box := Box(0, 0, 5, 5);
            var faces := [Face(box, Some(Vector([1.0]))), Face(box, Some(Vector([2.0])))];
            && Recognize(s, faces).present == [Match("A", "A", Confidence(0.1), 0.1, box)]
            && Recognize(s, faces).absent == {"B"}
            && Recognize(s, faces).unknownFaces == 1
  {
    var s := Setup(ImageSize(10, 10),
                   [Entry("A", Vector([1.0])), Entry("B", Vector([3.0]))],
                   DefaultThreshold, FallbackOracle);
    var box := Box(0, 0, 5, 5);
    var f1, f2 := Face(box, Some(Vector([1.0]))), Face(box, Some(Vector([2.0])));
    var faces := [f1, f2];
    var table := s.enrolled;
    assert table[..1] == [Entry("A", Vector([1.0]))];
    assert table[..1][..0] == [];
    assert Nearest([1.0], table, FallbackOracle) == Some(Candidate("A", 0.1));
    assert Nearest([2.0], table, FallbackOracle) == Some(Candidate("A", 0.2));
    assert faces[..1] == [f1];
    assert [f1][..0] == [];
    var m := Match("A", "A", Confidence(0.1), 0.1, box);
    assert MatchFaces(s, [f1]) == [m];
    assert PresentIds([m]) == {"A"} by { assert [m][0].studentId == "A"; }
    assert MatchFaces(s, faces) == [m];
    assert KeySet(table) == {"A", "B"} by {
      assert table[0].id == "A" && table[1].id == "B";
    }
  }

  /** The distances of the example above: face [1] is at 0.1 from A and 0.5 from B; face [2] at 0.2 and 0.3. */
  function FallbackOracle(u: seq<real>, v: seq<real>): Option<real> {
    if u == [1.0] then (if v == [1.0] then Some(0.1) else Some(0.5))
    else (if v == [1.0] then Some(0.2) else Some(0.3))
  }

  /** A face whose embedding length matches no stored vector is never matched. */
  lemma DimensionMismatchNeverMatches(s: Setup, faces: seq<Face>, face: Face, emb: seq<real>)
    requires FaceEmbedding(s.image, face) == Some(emb)
    requires forall j :: 0 <= j < |s.enrolled| ==>
      Flatten(s.enrolled[j].value).None? || |Flatten(s.enrolled[j].value).value| != |emb|
    ensures FaceNearest(s, face).None?
    ensures MatchFaces(s, faces + [face]) == MatchFaces(s, faces)
  {
    NearestIsFirstMinimum(emb, s.enrolled, s.cosine);
    NoMatchWithoutAcceptance(s, faces, face);
  }

  /** A sequence of matches with distinct students has as many ids as entries. */
  lemma {:induction false} DistinctMatchesCount(ms: seq<Match>)
    requires DistinctMatches(ms)
    ensures |PresentIds(ms)| == |ms|
    decreases |ms|
  {
    if ms != [] {
      var init := ms[..|ms| - 1];
      DistinctMatchesCount(init);
      assert PresentIds(ms) == PresentIds(init) + {ms[|ms| - 1].studentId} by {
        forall y | y in PresentIds(ms) ensures y in PresentIds(init) + {ms[|ms| - 1].studentId} {
          var i :| 0 <= i < |ms| && ms[i].studentId == y;
          if i < |ms| - 1 { assert init[i].studentId == y; }
        }
        forall y | y in PresentIds(init) ensures y in PresentIds(ms) {
          var i :| 0 <= i < |init| && init[i].studentId == y;
          assert ms[i].studentId == y;
        }
      }
      assert ms[|ms| - 1].studentId !in PresentIds(init);
    }
  }

  /**
   * The report partitions the enrolled students into present and absent,
   * and its counters agree: `recognized_count == len(present_students)` and
   * `unknown_faces = total_faces_detected - recognized_count >= 0`.
   */
  lemma ReportInvariant(s: Setup, faces: seq<Face>)
    ensures var r := Recognize(s, faces);
      && PresentIds(r.present) !! r.absent
      && PresentIds(r.present) + r.absent == KeySet(s.enrolled)
      && DistinctMatches(r.present)
      && r.totalFaces == |faces|
      && r.recognizedCount == |r.present|
      && r.unknownFaces == r.totalFaces - r.recognizedCount
      && r.unknownFaces >= 0
  {
    MatchFacesWellFormed(s, faces);
    DistinctMatchesCount(MatchFaces(s, faces));
  }

  /** With no detected faces everyone enrolled is absent and every counter is zero. */
  lemma NoFacesAllAbsent(s: Setup)
    ensures Recognize(s, []).present == []
    ensures Recognize(s, []).absent == KeySet(s.enrolled)
    ensures Recognize(s, []).totalFaces == 0
    ensures Recognize(s, []).recognizedCount == 0 && Recognize(s, []).unknownFaces == 0
  {
  }

  // ---------------------------------------------------------------------
  // The implementation.
  // ---------------------------------------------------------------------

  /**
   * The inner loop of `process_attendance_image`: scan the enrolled students
   * in key order, keeping the strictly smaller distance.
   */
  method FindNearest(emb: seq<real>, enrolled: Table, cosine: Cosine) returns (best: Option<Candidate>)
    ensures best == Nearest(emb, enrolled, cosine)
    ensures best.None? <==> forall j :: 0 <= j < |enrolled| ==> Compare(emb, enrolled[j].value, cosine).None?
    ensures best.Some? ==>
      exists k :: 0 <= k < |enrolled| && enrolled[k].id == best.value.studentId &&
        Compare(emb, enrolled[k].value, cosine) == Some(best.value.distance) &&
        (forall j :: 0 <= j < |enrolled| && Compare(emb, enrolled[j].value, cosine).Some? ==>
           best.value.distance <= Compare(emb, enrolled[j].value, cosine).value) &&
        (forall j :: 0 <= j < k && Compare(emb, enrolled[j].value, cosine).Some? ==>
           best.value.distance < Compare(emb, enrolled[j].value, cosine).value)
  {
    var minDistance: Option<real> := None;  // None stands for float('inf')
    var predictedStudentId: Option<StudentId> := None;
    for k := 0 to |enrolled|
      invariant minDistance.Some? <==> predictedStudentId.Some?
      invariant Nearest(emb, enrolled[..k], cosine) ==
        if minDistance.Some? then Some(Candidate(predictedStudentId.value, minDistance.value)) else None
    {
      assert enrolled[..k + 1][..k] == enrolled[..k];
      var studentId, studentEmbedding := enrolled[k].id, enrolled[k].value;
      var stored := Flatten(studentEmbedding);
      if stored.None? {
        continue;  // the comparison raised; skip this student
      }
      if |emb| != |stored.value| {
        continue;  // dimension mismatch
      }
      var dist := cosine(emb, stored.value);
      if dist.None? {
        continue;
      }
      if minDistance.None? || dist.value < minDistance.value {
        minDistance := dist;
        predictedStudentId := Some(studentId);
      }
    }
    assert enrolled[..|enrolled|] == enrolled;
    best := if minDistance.Some? then Some(Candidate(predictedStudentId.value, minDistance.value)) else None;
    NearestIsFirstMinimum(emb, enrolled, cosine);
  }

  /**
   * `process_attendance_image`: walk the boxes in detector order, accept the
   * nearest student when strictly below the threshold and not yet labelled,
   * then derive the absent set and the counters.
   */
  method ProcessAttendanceImage(image: ImageSize, faces: seq<Face>, enrolled: Table, threshold: real, cosine: Cosine)
    returns (report: Report)
    ensures report == Recognize(Setup(image, enrolled, threshold, cosine), faces)
    ensures DistinctMatches(report.present)
    ensures PresentIds(report.present) !! report.absent
    ensures PresentIds(report.present) + report.absent == KeySet(enrolled)
    ensures report.recognizedCount == |report.present|
    ensures report.unknownFaces == report.totalFaces - report.recognizedCount >= 0
  {
    ghost var s := Setup(image, enrolled, threshold, cosine);
    var totalFacesDetected := |faces|;
    var recognizedStudentIds: set<StudentId> := {};
    var alreadyLabeledInImage: set<StudentId> := {};
    var faceResults: seq<Match> := [];
    for i := 0 to |faces|
      invariant faceResults == MatchFaces(s, faces[..i])
      invariant recognizedStudentIds == alreadyLabeledInImage == PresentIds(faceResults)
    {
      MatchFacesStep(s, faces, i);
      var face := faces[i];
      if CropIsEmpty(image, face.box) {
        continue;
      }
      if face.embedding.None? {
        continue;  // DeepFace.represent raised
      }
      var newEmbedding := Flatten(face.embedding.value);
      if newEmbedding.None? {
        continue;  // flattening raised
      }
      var best := FindNearest(newEmbedding.value, enrolled, cosine);
      if best.Some? && best.value.distance < threshold {
        var predicted := best.value.studentId;
        if predicted !in alreadyLabeledInImage {
          recognizedStudentIds := recognizedStudentIds + {predicted};
          alreadyLabeledInImage := alreadyLabeledInImage + {predicted};
          var m := Match(predicted, predicted, Confidence(best.value.distance), best.value.distance, face.box);
          assert PresentIds(faceResults + [m]) == PresentIds(faceResults) + {predicted} by {
            assert (faceResults + [m])[|faceResults|].studentId == predicted;
            forall y | y in PresentIds(faceResults) ensures y in PresentIds(faceResults + [m]) {
              var j :| 0 <= j < |faceResults| && faceResults[j].studentId == y;
              assert (faceResults + [m])[j].studentId == y;
            }
          }
          faceResults := faceResults + [m];
        }
      }
    }
    assert faces[..|faces|] == faces;
    var allEnrolledIds := KeySet(enrolled);
    var absentStudentIds := allEnrolledIds - recognizedStudentIds;
    report := Report(faceResults, absentStudentIds, totalFacesDetected, |recognizedStudentIds|,
                     totalFacesDetected - |recognizedStudentIds|, FaceModelName, threshold, |allEnrolledIds|);
    ReportInvariant(s, faces);
  }
}
