/**
 * The attendance routes: `process_attendance` reconciles the matcher's
 * report with the class's key order and display names, and
 * `save_attendance` turns a reviewed list of present and absent students
 * into one attendance record and one entry per student.
 *
 * The HTTP request, the database queries and the inserts are abstracted:
 * their results (the class table, the id-to-name map, the detected faces,
 * the new record's id, the authenticated teacher's id) are parameters.
 */
module Attendance {
  import opened Roster
  import opened Vectors
  import opened FaceRecognition

  // ---------------------------------------------------------------------
  // POST /process-image
  // ---------------------------------------------------------------------

  /** A student in a response list: id and display name. */
  datatype NamedStudent = NamedStudent(studentId: StudentId, name: string)

  /** The JSON body of a 200 answer of `/process-image`. */
  datatype ProcessResponse = ProcessResponse(
    warning: Option<string>,
    present: seq<Match>,
    absent: seq<NamedStudent>,
    totalFaces: int,
    recognizedCount: nat,
    unknownFaces: int,
    model: string,
    threshold: real,
    totalEnrolled: nat)

  /** A 200 answer, or an error status with its message. */
  datatype ProcessResult = ProcessOk(response: ProcessResponse) | ProcessError(status: int, error: string)

  const NoEmbeddingsError: string := "No students enrolled or no embeddings found"
  const NoFacesWarning: string := "No faces detected in image"

  /** `name_map.get(sid, sid)`. */
  function NameOf(nameMap: map<StudentId, string>, sid: StudentId): (r: string)
    ensures r == sid || r in nameMap.Values
  {
    if sid in nameMap then nameMap[sid] else sid
  }

  /** `[sid for sid in all_student_ids if sid not in recognized_ids]`. */
  function AbsentIds(ids: seq<StudentId>, recognized: set<StudentId>): (r: seq<StudentId>)
    ensures |r| <= |ids|
    decreases |ids|
  {
    if ids == [] then []
    else
      var rest := AbsentIds(ids[..|ids| - 1], recognized);
      if ids[|ids| - 1] in recognized then rest else rest + [ids[|ids| - 1]]
  }

  /** The absent list keeps the enrolled key order. */
  lemma {:induction false} AbsentIdsInKeyOrder(ids: seq<StudentId>, recognized: set<StudentId>)
    ensures IsSubsequence(AbsentIds(ids, recognized), ids)
    decreases |ids|
  {
    if ids != [] {
      var n := |ids| - 1;
      AbsentIdsInKeyOrder(ids[..n], recognized);
      SubsequenceAppend(AbsentIds(ids[..n], recognized), ids[..n], ids[n]);
      assert ids[..n] + [ids[n]] == ids;
    }
  }

  /** The absent list holds exactly the ids that were not recognized. */
  lemma {:induction false} AbsentIdsMembers(ids: seq<StudentId>, recognized: set<StudentId>)
    ensures forall x :: x in AbsentIds(ids, recognized) <==> x in ids && x !in recognized
    decreases |ids|
  {
    if ids != [] {
      var n := |ids| - 1;
      AbsentIdsMembers(ids[..n], recognized);
      assert ids == ids[..n] + [ids[n]];
      assert forall x :: x in ids <==> x in ids[..n] || x == ids[n];
    }
  }

  /** Over distinct ids the absent list has no repeats. */
  lemma {:induction false} AbsentIdsDistinct(ids: seq<StudentId>, recognized: set<StudentId>)
    requires NoDuplicates(ids)
    ensures NoDuplicates(AbsentIds(ids, recognized))
    decreases |ids|
  {
    if ids != [] {
      var n := |ids| - 1;
      var init, last := ids[..n], ids[n];
      NoDuplicatesInit(ids);
      AbsentIdsDistinct(init, recognized);
      if last !in recognized {
        var rest := AbsentIds(init, recognized);
        AbsentIdsMembers(init, recognized);
        assert last !in rest;
        assert AbsentIds(ids, recognized) == rest + [last];
      }
    }
  }

  /**
   * Over distinct ids, the absent list and the recognized enrolled ids
   * together count the class.
   */
  lemma {:induction false} AbsentIdsCount(ids: seq<StudentId>, recognized: set<StudentId>)
    requires NoDuplicates(ids)
    ensures |AbsentIds(ids, recognized)| + |recognized * Elems(ids)| == |ids|
    decreases |ids|
  {
    if ids != [] {
      var n := |ids| - 1;
      var init, last := ids[..n], ids[n];
      NoDuplicatesInit(ids);
      AbsentIdsCount(init, recognized);
      ElemsMembers(init);
      var before := recognized * Elems(init);
      assert last !in before;
      if last in recognized {
        assert recognized * Elems(ids) == before + {last};
      } else {
        assert recognized * Elems(ids) == before;
      }
    }
  }

  /** Every id of `ids` paired with its display name. */
  function NamedStudents(ids: seq<StudentId>, nameMap: map<StudentId, string>): (r: seq<NamedStudent>)
    ensures |r| == |ids|
    ensures forall i :: 0 <= i < |ids| ==> r[i].studentId == ids[i] && r[i].name == NameOf(nameMap, ids[i])
  {
    seq(|ids|, i requires 0 <= i < |ids| => NamedStudent(ids[i], NameOf(nameMap, ids[i])))
  }

  /** The matches with their display names filled in from the name map. */
  function NamePresent(ms: seq<Match>, nameMap: map<StudentId, string>): (r: seq<Match>)
    ensures |r| == |ms|
    ensures forall i :: 0 <= i < |ms| ==> r[i] == ms[i].(name := NameOf(nameMap, ms[i].studentId))
  {
    seq(|ms|, i requires 0 <= i < |ms| => ms[i].(name := NameOf(nameMap, ms[i].studentId)))
  }

  /** The answer of `/process-image` once the image is decoded and the table loaded. */
  function ProcessSpec(s: Setup, nameMap: map<StudentId, string>, faces: seq<Face>): ProcessResult {
    if |s.enrolled| == 0 then ProcessError(404, NoEmbeddingsError)
    else
      var ids := Ids(s.enrolled);
      if |faces| == 0 then
        ProcessOk(ProcessResponse(Some(NoFacesWarning), [], NamedStudents(ids, nameMap), 0, 0, 0,
                                  FaceModelName, DefaultThreshold, |ids|))
      else
        var r := Recognize(s, faces);
        var recognized := PresentIds(r.present);
        ProcessOk(ProcessResponse(None, NamePresent(r.present, nameMap),
                                  NamedStudents(AbsentIds(ids, recognized), nameMap),
                                  r.totalFaces, |recognized|, r.unknownFaces, r.model, r.threshold, |ids|))
  }

  /** The ids of a response's absent list. */
  function AbsentIdsOf(absent: seq<NamedStudent>): (r: seq<StudentId>)
    ensures |r| == |absent| && forall i :: 0 <= i < |absent| ==> r[i] == absent[i].studentId
  {
    seq(|absent|, i requires 0 <= i < |absent| => absent[i].studentId)
  }

  /** An empty class table is a 404 before any face is looked at. */
  lemma EmptyTableIsNotFound(s: Setup, nameMap: map<StudentId, string>, faces: seq<Face>)
    requires s.enrolled == []
    ensures ProcessSpec(s, nameMap, faces) == ProcessError(404, NoEmbeddingsError)
  {
  }

  /**
   * No detected face: present is empty, every enrolled id is absent in key
   * order, all counters are zero, and the absent list is the one the general
   * branch would build from an empty recognized set.
   */
  lemma {:induction false} NoFacesEveryoneAbsent(s: Setup, nameMap: map<StudentId, string>)
    requires s.enrolled != []
    ensures ProcessSpec(s, nameMap, []).ProcessOk?
    ensures var resp := ProcessSpec(s, nameMap, []).response;
      && resp.present == []
      && AbsentIdsOf(resp.absent) == Ids(s.enrolled)
      && AbsentIdsOf(resp.absent) == AbsentIds(Ids(s.enrolled), {})
      && resp.totalFaces == 0 && resp.recognizedCount == 0 && resp.unknownFaces == 0
  {
    NothingRecognizedAllAbsent(Ids(s.enrolled));
  }

  /** Filtering with an empty recognized set keeps every id. */
  lemma {:induction false} NothingRecognizedAllAbsent(ids: seq<StudentId>)
    ensures AbsentIds(ids, {}) == ids
    decreases |ids|
  {
    if ids != [] {
      NothingRecognizedAllAbsent(ids[..|ids| - 1]);
      assert ids[..|ids| - 1] + [ids[|ids| - 1]] == ids;
    }
  }

  /** Filling in names changes neither the ids nor their distinctness. */
  lemma NamePresentKeepsIds(ms: seq<Match>, nameMap: map<StudentId, string>)
    ensures PresentIds(NamePresent(ms, nameMap)) == PresentIds(ms)
    ensures DistinctMatches(ms) ==> DistinctMatches(NamePresent(ms, nameMap))
  {
    var named := NamePresent(ms, nameMap);
    forall y | y in PresentIds(ms) ensures y in PresentIds(named) {
      var i :| 0 <= i < |ms| && ms[i].studentId == y;
      assert named[i].studentId == y;
    }
  }

  /**
   * A 200 answer with faces partitions the class: the present ids (each
   * once) and the absent ids (in key order) are disjoint and together are
   * the enrolled ids.
   */
  lemma ProcessPartition(s: Setup, nameMap: map<StudentId, string>, faces: seq<Face>)
    requires DistinctIds(s.enrolled)
    requires s.enrolled != [] && faces != []
    ensures ProcessSpec(s, nameMap, faces).ProcessOk?
    ensures var resp := ProcessSpec(s, nameMap, faces).response;
      var absentIds := AbsentIdsOf(resp.absent);
      && DistinctMatches(resp.present)
      && PresentIds(resp.present) !! (set x | x in absentIds)
      && PresentIds(resp.present) + (set x | x in absentIds) == KeySet(s.enrolled)
      && IsSubsequence(absentIds, Ids(s.enrolled))
  {
    var r := Recognize(s, faces);
    var ids := Ids(s.enrolled);
    var recognized := PresentIds(r.present);
    var absentIds := AbsentIds(ids, recognized);
    var named := NamePresent(r.present, nameMap);
    var resp := ProcessResponse(None, named, NamedStudents(absentIds, nameMap),
                                r.totalFaces, |recognized|, r.unknownFaces, r.model, r.threshold, |ids|);
    assert ProcessSpec(s, nameMap, faces) == ProcessOk(resp);
    assert AbsentIdsOf(resp.absent) == absentIds;
    assert PresentIds(named) == recognized && DistinctMatches(named) by {
      MatchFacesWellFormed(s, faces);
      NamePresentKeepsIds(r.present, nameMap);
    }
    assert recognized <= KeySet(s.enrolled) by {
      MatchFacesWellFormed(s, faces);
    }
    assert IsSubsequence(absentIds, ids) by {
      AbsentIdsInKeyOrder(ids, recognized);
    }
    assert (set x | x in absentIds) == KeySet(s.enrolled) - recognized by {
      AbsentIdsMembers(ids, recognized);
    }
  }

  /**
   * The counts of a 200 answer: present and absent add up to the class, the
   * absent list repeats no one, and every face that matched no one is unknown.
   */
  lemma ProcessCounts(s: Setup, nameMap: map<StudentId, string>, faces: seq<Face>)
    requires DistinctIds(s.enrolled)
    requires s.enrolled != [] && faces != []
    ensures ProcessSpec(s, nameMap, faces).ProcessOk?
    ensures var resp := ProcessSpec(s, nameMap, faces).response;
      && NoDuplicates(AbsentIdsOf(resp.absent))
      && |resp.present| + |resp.absent| == resp.totalEnrolled == |s.enrolled|
      && resp.recognizedCount == |resp.present|
      && resp.unknownFaces == resp.totalFaces - resp.recognizedCount >= 0
  {
    var r := Recognize(s, faces);
    var ids := Ids(s.enrolled);
    var recognized := PresentIds(r.present);
    var absentIds := AbsentIds(ids, recognized);
    var named := NamePresent(r.present, nameMap);
    var resp := ProcessResponse(None, named, NamedStudents(absentIds, nameMap),
                                r.totalFaces, |recognized|, r.unknownFaces, r.model, r.threshold, |ids|);
    assert ProcessSpec(s, nameMap, faces) == ProcessOk(resp);
    assert AbsentIdsOf(resp.absent) == absentIds;
    assert |named| == |recognized| && r.unknownFaces == r.totalFaces - |recognized| >= 0 by {
      ReportInvariant(s, faces);
      NamePresentKeepsIds(r.present, nameMap);
    }
    assert NoDuplicates(ids) by {
      IdsCoverKeys(s.enrolled);
    }
    assert recognized * Elems(ids) == recognized by {
      MatchFacesWellFormed(s, faces);
      IdsCoverKeys(s.enrolled);
      ElemsMembers(ids);
    }
    assert NoDuplicates(absentIds) by {
      AbsentIdsDistinct(ids, recognized);
    }
    assert |absentIds| + |recognized * Elems(ids)| == |ids| by {
      AbsentIdsCount(ids, recognized);
    }
  }

  /** Every name in a 200 answer is the mapped name, or the id itself when the map lacks it. */
  lemma ProcessNames(s: Setup, nameMap: map<StudentId, string>, faces: seq<Face>)
    requires ProcessSpec(s, nameMap, faces).ProcessOk?
    ensures var resp := ProcessSpec(s, nameMap, faces).response;
      && (forall i :: 0 <= i < |resp.present| ==>
            resp.present[i].name == NameOf(nameMap, resp.present[i].studentId))
      && (forall i :: 0 <= i < |resp.absent| ==>
            resp.absent[i].name == NameOf(nameMap, resp.absent[i].studentId))
  {
  }

  /**
   * `process_attendance` after request parsing: 404 on an empty table,
   * the no-face answer, or the matcher's report reconciled with the class's
   * key order and display names.
   */
  method ProcessAttendance(image: ImageSize, faces: seq<Face>, enrolled: Table,
                           nameMap: map<StudentId, string>, threshold: real, cosine: Cosine)
    returns (result: ProcessResult)
    ensures result == ProcessSpec(Setup(image, enrolled, threshold, cosine), nameMap, faces)
  {
    if |enrolled| == 0 {
      return ProcessError(404, NoEmbeddingsError);
    }
    var allStudentIds := Ids(enrolled);
    if |faces| == 0 {
      var absentStudents := NamedStudents(allStudentIds, nameMap);
      return ProcessOk(ProcessResponse(Some(NoFacesWarning), [], absentStudents, 0, 0, 0,
                                       FaceModelName, DefaultThreshold, |allStudentIds|));
    }
    var report := ProcessAttendanceImage(image, faces, enrolled, threshold, cosine);
    var recognizedIds := PresentIds(report.present);
    var absentStudentIds := AbsentIds(allStudentIds, recognizedIds);
    var present := report.present;
    for i := 0 to |present|
      invariant |present| == |report.present|
      invariant forall j :: 0 <= j < i ==>
        present[j] == report.present[j].(name := NameOf(nameMap, report.present[j].studentId))
      invariant forall j :: i <= j < |present| ==> present[j] == report.present[j]
    {
      present := present[i := present[i].(name := NameOf(nameMap, present[i].studentId))];
    }
    assert present == NamePresent(report.present, nameMap);
    var absentStudents := NamedStudents(absentStudentIds, nameMap);
    result := ProcessOk(ProcessResponse(None, present, absentStudents, report.totalFaces, |recognizedIds|,
                                        report.unknownFaces, report.model, report.threshold, |allStudentIds|));
  }

  // ---------------------------------------------------------------------
  // POST /save
  // ---------------------------------------------------------------------

  /** The JSON body of `/save`; `None` is a key that is not in the body. */
  datatype SaveRequest = SaveRequest(
    classId: Option<string>,
    date: Option<string>,
    presentStudents: Option<seq<StudentId>>,
    absentStudents: Option<seq<StudentId>>,
    manuallyEdited: Option<bool>)

  /** The keys `/save` requires, in the order they are reported. */
  const SaveRequiredFields: seq<string> := ["class_id", "date", "present_students", "absent_students"]

  /** `f in data` for the keys `/save` knows. */
  predicate HasField(req: SaveRequest, f: string) {
    if f == "class_id" then req.classId.Some?
    else if f == "date" then req.date.Some?
    else if f == "present_students" then req.presentStudents.Some?
    else if f == "absent_students" then req.absentStudents.Some?
    else false
  }

  /** `[f for f in required if f not in data]`. */
  function MissingFields(req: SaveRequest, fields: seq<string>): (r: seq<string>)
    ensures |r| <= |fields|
    decreases |fields|
  {
    if fields == [] then []
    else
      var rest := MissingFields(req, fields[..|fields| - 1]);
      if HasField(req, fields[|fields| - 1]) then rest else rest + [fields[|fields| - 1]]
  }

  /** The missing list keeps the order of the required list. */
  lemma {:induction false} MissingFieldsInOrder(req: SaveRequest, fields: seq<string>)
    ensures IsSubsequence(MissingFields(req, fields), fields)
    decreases |fields|
  {
    if fields != [] {
      var n := |fields| - 1;
      MissingFieldsInOrder(req, fields[..n]);
      SubsequenceAppend(MissingFields(req, fields[..n]), fields[..n], fields[n]);
      assert fields[..n] + [fields[n]] == fields;
    }
  }

  /** The missing list names exactly the required keys that are not in the body. */
  lemma {:induction false} MissingFieldsMembers(req: SaveRequest, fields: seq<string>)
    ensures forall f :: f in MissingFields(req, fields) <==> f in fields && !HasField(req, f)
    decreases |fields|
  {
    if fields != [] {
      var n := |fields| - 1;
      MissingFieldsMembers(req, fields[..n]);
      assert fields == fields[..n] + [fields[n]];
      assert forall f :: f in fields <==> f in fields[..n] || f == fields[n];
    }
  }

  /** The status of an attendance entry. */
  datatype Status = Present | Absent

  /** A row of `attendance_records`. */
  datatype AttendanceRecord = AttendanceRecord(
    classId: string, teacherId: string, date: string,
    totalStudents: nat, presentCount: nat, absentCount: nat)

  /** A row of `student_attendance`. */
  datatype AttendanceEntry = AttendanceEntry(
    recordId: string, studentId: StudentId, status: Status, markedByAi: bool, manuallyEdited: bool)

  /** A 400 listing the missing keys, or a 201 with what was inserted. */
  datatype SaveResult =
    | SaveMissingFields(missing: seq<string>)
    | Saved(record: AttendanceRecord, entries: seq<AttendanceEntry>, recordId: string)

  /**
   * The entries the save route inserts: one per listed id, all present ids
   * first and then all absent ids, each in list order; AI-marked exactly when
   * the sheet was not edited by hand.
   */
  ghost predicate EntriesFor(entries: seq<AttendanceEntry>, recordId: string,
                             present: seq<StudentId>, absent: seq<StudentId>, edited: bool)
  {
    && |entries| == |present| + |absent|
    && (forall i :: 0 <= i < |present| ==>
          entries[i] == AttendanceEntry(recordId, present[i], Present, !edited, edited))
    && (forall i :: 0 <= i < |absent| ==>
          entries[|present| + i] == AttendanceEntry(recordId, absent[i], Absent, !edited, edited))
  }

  /** The two append loops of `save_attendance`. */
  method BuildAttendanceEntries(recordId: string, present: seq<StudentId>, absent: seq<StudentId>, edited: bool)
    returns (entries: seq<AttendanceEntry>)
    ensures EntriesFor(entries, recordId, present, absent, edited)
  {
    entries := [];
    for i := 0 to |present|
      invariant |entries| == i
      invariant forall j :: 0 <= j < i ==>
        entries[j] == AttendanceEntry(recordId, present[j], Present, !edited, edited)
    {
      entries := entries + [AttendanceEntry(recordId, present[i], Present, !edited, edited)];
    }
    for i := 0 to |absent|
      invariant |entries| == |present| + i
      invariant forall j :: 0 <= j < |present| ==>
        entries[j] == AttendanceEntry(recordId, present[j], Present, !edited, edited)
      invariant forall j :: 0 <= j < i ==>
        entries[|present| + j] == AttendanceEntry(recordId, absent[j], Absent, !edited, edited)
    {
      entries := entries + [AttendanceEntry(recordId, absent[i], Absent, !edited, edited)];
    }
  }

  /**
   * `save_attendance`: a 400 naming every missing key in required order, or
   * the record (whose total is present plus absent) and its entries.
   * `teacherId` is the id the token carried; `recordId` is the id the
   * database assigns to the inserted record.
   */
  method SaveAttendance(req: SaveRequest, teacherId: string, recordId: string) returns (result: SaveResult)
    ensures result.SaveMissingFields? <==> MissingFields(req, SaveRequiredFields) != []
    ensures result.SaveMissingFields? ==> result.missing == MissingFields(req, SaveRequiredFields)
    ensures result.Saved? ==>
      && req.classId.Some? && req.date.Some? && req.presentStudents.Some? && req.absentStudents.Some?
      && var edited := if req.manuallyEdited.Some? then req.manuallyEdited.value else false;
         && result.record == AttendanceRecord(req.classId.value, teacherId, req.date.value,
              |req.presentStudents.value| + |req.absentStudents.value|,
              |req.presentStudents.value|, |req.absentStudents.value|)
         && result.record.totalStudents == result.record.presentCount + result.record.absentCount
         && result.recordId == recordId
         && EntriesFor(result.entries, recordId, req.presentStudents.value, req.absentStudents.value, edited)
  {
    var missing := MissingFields(req, SaveRequiredFields);
    if missing != [] {
      return SaveMissingFields(missing);
    }
    MissingFieldsMembers(req, SaveRequiredFields);
    assert forall f :: f in SaveRequiredFields ==> HasField(req, f);
    assert HasField(req, SaveRequiredFields[0]) && HasField(req, SaveRequiredFields[1]);
    assert HasField(req, SaveRequiredFields[2]) && HasField(req, SaveRequiredFields[3]);
    var present, absent := req.presentStudents.value, req.absentStudents.value;
    var record := AttendanceRecord(req.classId.value, teacherId, req.date.value,
                                   |present| + |absent|, |present|, |absent|);
    var edited := if req.manuallyEdited.Some? then req.manuallyEdited.value else false;
    var entries := BuildAttendanceEntries(recordId, present, absent, edited);
    result := Saved(record, entries, recordId);
  }
}
