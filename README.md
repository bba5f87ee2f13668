# Attendance backend: recognition core in Dafny

This project models the core of a Flask backend that takes attendance from a
group photo. A teacher uploads a photo of the class. A face detector finds
face boxes. For each enrolled student, the loader looks up one stored
128-number embedding by full name in a pickled database. The unpickled
database is cached; the per-class table is rebuilt on every call. The matcher compares every detected face with every enrolled student
by cosine distance. A face claims its nearest student when the distance is
strictly below the threshold (0.8 by default) and no earlier face in the same
image has claimed that student. Everyone not claimed is absent. The reviewed
present and absent lists are then saved as one attendance record plus one
entry per student. JWT decorators guard the teacher and student routes
(registration, login and the health check are open), and small validators
check e-mail addresses, passwords and required request fields.

The model has one module per source file, plus two shared modules:

- `Roster` (`roster.dfy`) holds the shared vocabulary:
  - `Option`;
  - student ids;
  - the insertion-ordered Python dict, written as a sequence of entries with `Put` (`d[k] = v`);
  - subsequences (order preserved).
- `Vectors` (`vectors.dfy`): raw embeddings (a flat list, or a list of rows),
  and the `np.array(...).flatten()` both the loader and the matcher apply.
- `FaceRecognition` (`face_recognition.dfy`): `process_attendance_image`.
  - It is imperative Dafny (two nested loops).
  - It is proved equal to a specification built from `Nearest` (the inner loop) and `MatchFaces` (the outer loop).
  - The properties are proved about those two functions.
- `Attendance` (`attendance.dfy`) models the `/process-image` route after request
  parsing, and the `/save` route with its two append loops.
- `EmbeddingsLoader` (`embeddings_loader.dfy`): a `Loader` class holding the cache
  fields `embeddingsCache` and `loaded`, and the per-class filtering loop,
  proved equal to the `ClassTable` specification.
- `Validators` (`validators.dfy`):
  - the e-mail regular expression, given by its Python `re` meaning and proved equal to a scanning decision;
  - the password rule;
  - the required-fields check, with JSON truthiness.
- `AuthMiddleware` (`auth_middleware.dfy`): `token_required`,
  `teacher_required` and `student_required` as one decision function each,
  with Python's `str.split(" ")`.

External services become parameters:

- Storage, the pickle file and the database queries become values: a `DownloadOutcome`, the enrolled ids, and an id-to-name map.
- The face detector becomes the list of boxes.
- DeepFace becomes an optional raw embedding per face.
- `scipy`'s cosine distance becomes a function returning `None` when it raises or yields NaN. Both cases leave the running minimum unchanged, because `NaN < d` is false.
- `jwt.decode` becomes a function from the token text to decoded claims, "expired" or "invalid".

Two behaviours of the code are worth stating outright:

- **No fallback.** A face whose nearest student is already claimed is
  dropped; it never falls back to the next-closest student
  (services/face_recognition.py:80-107). The matcher takes the minimum over
  all enrolled students, claimed or not, and then discards the face.
  `FaceRecognition.SecondFaceDoesNotFallBack` proves a concrete instance.
- **Unguarded cache.** The cache check is a plain `if cache is not None`
  with no lock (services/embeddings_loader.py:20-21), so two concurrent
  first calls can both download (see Left out).

## Model

| member | source | states |
|---|---|---|
| Roster.Put | services/embeddings_loader.py:96 | `d[k] = v`: afterwards `k` holds `v`; an existing key keeps its position, its entry alone is replaced and every other entry is unchanged; a new key is appended at the end; the key set gains `k`; a dict without duplicate keys stays without them |
| Roster.IdsCoverKeys | services/face_recognition.py:124 | `set(d.keys())` holds exactly the keys in `list(d.keys())`, and a dict's key list has no repeats |
| Vectors.Flatten | services/face_recognition.py:13-25 | a flat vector is returned unchanged; rows are flattened row-major to `rows * width` numbers exactly when all rows have one length (ragged rows raise); no rows give an empty vector |
| Vectors.ConcatLength | services/face_recognition.py:19 | rows of a common width flatten to `rows * width` numbers |
| FaceRecognition.SliceLength | services/face_recognition.py:59 | Python slice length after negative-index and clamping adjustment: never more than the dimension, `hi - lo` for in-range bounds, 0 when the start is past the end |
| FaceRecognition.CropIsEmpty | services/face_recognition.py:59-62 | the `face_crop.size == 0` test: the crop is empty exactly when its adjusted row range or column range is empty; `CropInsideImage` gives the non-empty case |
| FaceRecognition.CropInsideImage | services/face_recognition.py:59-62 | a box inside the image with positive width and height gives a non-empty crop, so the face is not skipped |
| FaceRecognition.Nearest | services/face_recognition.py:76-103 | the inner loop as a left fold over the table in key order, replacing the running candidate only on a strictly smaller defined distance; its properties are stated by `NearestIsFirstMinimum` |
| FaceRecognition.NearestIsFirstMinimum | services/face_recognition.py:76-103 | the inner loop finds nothing exactly when no stored vector is comparable (same length, flattenable, cosine defined); otherwise it finds an enrolled student at the minimum distance, and it is the first such student in key order |
| FaceRecognition.FindNearest | services/face_recognition.py:76-103 | the loop with `min_distance`/`predicted_student_id` computes `Nearest`, and so yields the first minimum among comparable students, or nothing |
| FaceRecognition.FaceStep | services/face_recognition.py:105-117 | one face of the outer loop: a face with no nearest candidate, a distance not below the threshold or an already-labelled student leaves the matches unchanged; otherwise one match is appended (see `NoMatchWithoutAcceptance`) |
| FaceRecognition.MatchFaces | services/face_recognition.py:57-121 | `face_results` after the outer loop has seen the faces in order; there are never more matches than faces |
| FaceRecognition.MatchFacesWellFormed | services/face_recognition.py:105-117 | no student is matched twice; every match is enrolled, strictly below the threshold, named by its id, with confidence `(1 - distance) * 100`; there are at most as many matches as faces |
| FaceRecognition.MatchFacesTraceable | services/face_recognition.py:105-117 | every match is the nearest candidate of some detected face and carries that face's box |
| FaceRecognition.PresentExactlyWhenSomeFaceAccepts | services/face_recognition.py:105-109 | a student is present exactly when some face has that student as nearest at a distance below the threshold, in both directions, whatever the face order |
| FaceRecognition.ThresholdMonotone | services/face_recognition.py:106 | raising the threshold never removes a present student nor adds an absent one |
| FaceRecognition.NoMatchWithoutAcceptance | services/face_recognition.py:105-109 | a skipped face, a nearest distance not below the threshold, or a nearest student already labelled adds no match (no fallback) |
| FaceRecognition.SecondFaceDoesNotFallBack | services/face_recognition.py:105-109 | two faces both nearest to "A": the second face is within the threshold of "B", yet "B" stays absent and the face counts as unknown |
| FaceRecognition.DimensionMismatchNeverMatches | services/face_recognition.py:86-91 | a face whose embedding length matches no stored vector has no nearest student and adds no match |
| FaceRecognition.DistinctMatchesCount | services/face_recognition.py:139 | distinct matches have as many ids as entries, so `len(recognized_student_ids)` equals the number of matches |
| FaceRecognition.Recognize | services/face_recognition.py:123-146 | the matcher's whole report built from `MatchFaces`; the partition and the counters are stated by `ReportInvariant` |
| FaceRecognition.ReportInvariant | services/face_recognition.py:123-146 | present and absent partition the enrolled ids; `total_faces_detected` is the number of boxes; `recognized_count == len(present_students)`; `unknown_faces = total - recognized >= 0` |
| FaceRecognition.NoFacesAllAbsent | services/face_recognition.py:51-57 | with no boxes, nobody is present, everyone enrolled is absent, and `total_faces_detected`, `recognized_count` and `unknown_faces` are zero |
| FaceRecognition.ProcessAttendanceImage | services/face_recognition.py:27-146 | the imperative loop returns the specified report; its matches are distinct; present and absent are disjoint and cover the enrolled ids; the counters agree |
| Attendance.NameOf | routes/attendance.py:86 | `name_map.get(sid, sid)`: the displayed name is the id itself or one of the mapped full names |
| Attendance.AbsentIds | routes/attendance.py:82 | the absent-list comprehension as a filter over the key order; never longer than the class |
| Attendance.AbsentIdsInKeyOrder | routes/attendance.py:82 | the route's absent list keeps the enrolled key order |
| Attendance.AbsentIdsMembers | routes/attendance.py:79-82 | the absent list holds exactly the enrolled ids that were not recognized |
| Attendance.AbsentIdsDistinct | routes/attendance.py:82 | over distinct ids the absent list has no repeats |
| Attendance.AbsentIdsCount | routes/attendance.py:82 | over distinct ids, the absent list's length plus the number of recognized enrolled ids is the class size |
| Attendance.NamedStudents | routes/attendance.py:89-95 | one entry per id, in order, named `name_map.get(sid, sid)` |
| Attendance.NamePresent | routes/attendance.py:85-86 | each match keeps everything but its name, which becomes `name_map.get(id, id)` |
| Attendance.NamePresentKeepsIds | routes/attendance.py:85-86 | renaming changes neither the present ids nor their distinctness |
| Attendance.EmptyTableIsNotFound | routes/attendance.py:28-31 | an empty class table is a 404 with "No students enrolled or no embeddings found", whatever the faces |
| Attendance.NoFacesEveryoneAbsent | routes/attendance.py:46-69 | with no faces: present is empty, every enrolled id is absent in key order, exactly as the general branch would list them, and all counters are zero |
| Attendance.NothingRecognizedAllAbsent | routes/attendance.py:82 | filtering with nothing recognized keeps every id |
| Attendance.ProcessPartition | routes/attendance.py:72-109 | a 200 with faces partitions the class: distinct present ids; absent ids in key order; the two disjoint and covering the enrolled ids |
| Attendance.ProcessCounts | routes/attendance.py:72-109 | in a 200 with faces the absent ids repeat no one; present + absent = `total_enrolled`; `recognized_count == len(present)`; `unknown_faces = total - recognized >= 0` |
| Attendance.ProcessNames | routes/attendance.py:85-95 | every name in a 200 is the mapped full name, or the id when the map lacks it |
| Attendance.ProcessSpec | routes/attendance.py:28-109 | the answer of `/process-image` after parsing: 404 for an empty table, the no-face answer, or the reconciled report; its properties are stated by `EmptyTableIsNotFound`, `NoFacesEveryoneAbsent`, `ProcessPartition`, `ProcessCounts` and `ProcessNames` |
| Attendance.ProcessAttendance | routes/attendance.py:28-109 | the route (404, no-face answer, or reconciled report with the rename loop) computes `ProcessSpec` |
| Attendance.MissingFields | routes/attendance.py:128 | `[f for f in required if f not in data]`; never longer than the required list |
| Attendance.MissingFieldsInOrder | routes/attendance.py:127-130 | the missing list follows the order of the required keys |
| Attendance.MissingFieldsMembers | routes/attendance.py:127-130 | a key is in the missing list exactly when it is required and absent from the request |
| Attendance.BuildAttendanceEntries | routes/attendance.py:147-165 | one entry per listed id, present ids first, then absent ids, each in list order, with the record id, the status, `marked_by_ai = not manually_edited` and `manually_edited` |
| Attendance.SaveAttendance | routes/attendance.py:124-165 | a 400 exactly when a required key is absent, listing the missing keys; otherwise a record with the class, teacher and date, `total = present + absent`, and the entries above |
| EmbeddingsLoader.StoredVector | services/embeddings_loader.py:74-96 | a student is used only with a stored vector of exactly 128 numbers |
| EmbeddingsLoader.ClassTable | services/embeddings_loader.py:72-104 | the table the filtering loop builds, one `Put` per usable student in enrollment order; never more entries than enrolled ids |
| EmbeddingsLoader.ClassTableMembers | services/embeddings_loader.py:69-104 | a student is in the class table exactly when enrolled, with a resolvable full name, present in the database, flattenable and of size 128 |
| EmbeddingsLoader.ClassTableValues | services/embeddings_loader.py:84-96 | every stored value is that student's own flattened 128-number vector, never truncated or padded |
| EmbeddingsLoader.ClassTableOrder | services/embeddings_loader.py:72-96 | the table has no key twice, and its keys follow the enrollment order |
| EmbeddingsLoader.EmptyDatabaseEmptyTable | services/embeddings_loader.py:46-48 | an empty database (a failed download) gives an empty class table |
| EmbeddingsLoader.Loader.constructor | services/embeddings_loader.py:11-13 | starts with no cache and `loaded` unset |
| EmbeddingsLoader.Loader.LoadEmbeddingsDatabase | services/embeddings_loader.py:15-48 | a cached database is returned without change; a failed download returns `{}` and leaves the cache empty; a clean load caches and returns the database and sets `loaded`; a failure after unpickling caches the database but returns `{}` and leaves `loaded` alone |
| EmbeddingsLoader.Loader.GetEmbeddingsForClass | services/embeddings_loader.py:50-104 | the loop returns `ClassTable` of the database the load step yields (empty after a failure), with the cache state as above |
| Validators.ValidateEmail | utils/validators.py:3-6 | an accepted address is at least 6 characters long (`a@b.cd`) |
| Validators.ValidateEmailMatchesPattern | utils/validators.py:3-6 | `validate_email` accepts exactly the strings `re.match` accepts: `local@domain.tld` with the regex's character classes, optionally followed by one final newline (Python's `$`) |
| Validators.BodyOkMatchesPattern | utils/validators.py:5-6 | the scan at the first `@` and the last dot agrees with the pattern, in both directions |
| Validators.PatternSplitIsUnique | utils/validators.py:5 | a matching string splits only at its first `@` and its last dot |
| Validators.BodyHasOneAt | utils/validators.py:5 | in a string of the `local@domain.tld` form the first `@` is not at the start and no `@` follows it |
| Validators.AcceptedHasOneAt | utils/validators.py:5-6 | an accepted address has exactly one `@`, not at the start |
| Validators.AcceptedEndsWithLetters | utils/validators.py:5-6 | an accepted address, without its optional final newline, has a dot followed by two or more ASCII letters up to its end |
| Validators.EmailAccepted | utils/validators.py:5-6 | an address with a tag and a sub-domain is accepted |
| Validators.EmailTrailingNewline | utils/validators.py:5-6 | one trailing newline is accepted, two are not |
| Validators.EmailShortTopLevel | utils/validators.py:5-6 | a one-letter top-level part is rejected |
| Validators.EmailDoubleAt | utils/validators.py:5-6 | a doubled `@` is rejected |
| Validators.EmailEmptyLocal | utils/validators.py:5-6 | an empty local part is rejected |
| Validators.ValidatePassword | utils/validators.py:8-12 | valid exactly when at least 6 characters long; otherwise the message is "Password must be at least 6 characters"; valid exactly when the message is empty |
| Validators.PasswordLengthOnly | utils/validators.py:10 | passwords of equal length get the same verdict |
| Validators.Missing | utils/validators.py:16 | the missing-fields comprehension; never longer than the required list |
| Validators.ValidateRequiredFields | utils/validators.py:14-17 | valid exactly when the missing list is empty |
| Validators.MissingSpec | utils/validators.py:16 | a field is listed exactly when required and absent or falsy (`""`, `0`, `false`, `null`, `[]`, `{}`); it is listed as often as it is required |
| Validators.MissingInOrder | utils/validators.py:16 | the missing list keeps the order of the required list |
| Validators.ValidIffAllPresent | utils/validators.py:16-17 | valid exactly when every required field is present and truthy |
| AuthMiddleware.Split | middleware/auth_middleware.py:14 | `str.split(" ")` always yields at least one word |
| AuthMiddleware.JoinSplit | middleware/auth_middleware.py:14 | joining the words with single spaces gives back the header |
| AuthMiddleware.SplitJoin | middleware/auth_middleware.py:14 | splitting space-free words joined by spaces gives the words back |
| AuthMiddleware.SplitWordsHaveNoSpace | middleware/auth_middleware.py:14 | no word contains a space |
| AuthMiddleware.SplitCount | middleware/auth_middleware.py:14 | there is one word more than the header has spaces |
| AuthMiddleware.SplitPrefix | middleware/auth_middleware.py:14 | space-free text joins onto the first word of what follows it |
| AuthMiddleware.HeaderToken | middleware/auth_middleware.py:13-16 | indexing the second word fails exactly when the header has no space; a token never contains a space |
| AuthMiddleware.TokenHasShape | middleware/auth_middleware.py:14 | a header with a token is its first word, a space, the token and the remaining words joined by spaces |
| AuthMiddleware.HeaderTokenShape | middleware/auth_middleware.py:14 | the token is `t` exactly when the header is `<scheme> t<rest>` with a space-free scheme and `rest` empty or starting with a space |
| AuthMiddleware.ShapeToken | middleware/auth_middleware.py:14 | a header built as `<scheme> <token><rest>` yields that token |
| AuthMiddleware.TokenRequired | middleware/auth_middleware.py:6-30 | every denial is a 401. "Invalid token format" exactly when the header has no space. "Token is missing" exactly when there is no header or its second word is empty. Authorization only with a non-empty token whose payload carries both `user_id` and `role` |
| AuthMiddleware.TokenDecides | middleware/auth_middleware.py:14-28 | for a non-empty second word, the decoder's verdict decides: expired, invalid, authorized, or an uncaught `KeyError` when a claim is absent; the scheme word and trailing words are ignored |
| AuthMiddleware.NoTokenNoDecode | middleware/auth_middleware.py:9-19 | without a token the decoder is never consulted and the request is never authorized |
| AuthMiddleware.EmptySecondWord | middleware/auth_middleware.py:14-19 | `"Bearer "`, or two spaces before the token, reads as "Token is missing" |
| AuthMiddleware.RoleRequired | middleware/auth_middleware.py:34-50 | authorized exactly when the token check authorizes the required role; 403 exactly when it authorizes another role; any token failure passes through unchanged |
| AuthMiddleware.TeacherRequired | middleware/auth_middleware.py:34-41 | only a "teacher" role reaches the handler; its 403 says "Teacher access required" |
| AuthMiddleware.StudentRequired | middleware/auth_middleware.py:43-50 | only a "student" role reaches the handler; its 403 says "Student access required" |
| AuthMiddleware.GuardsExclusive | middleware/auth_middleware.py:34-50 | no request passes both role guards; with a valid token, a "teacher" role passes the teacher guard and gets the student guard's 403, a "student" role the reverse, and any other role gets both 403s; without one both answer exactly as the token check does |

## Left out

- Request parsing in `/process-image`, lines 17-25: the JSON body, the `image`/`class_id` check, base64 decoding and resizing. The model starts from the decoded image size and the detected boxes.
- The 500 answers from exceptions the routes catch as a whole (`except Exception`). The same goes for a failing enrollments query or profiles query, and for inserts that fail in `/save`.
- Face detection (YOLO), the DeepFace embedding network and the numerics of the cosine distance. These are oracles.
- The per-student profile query in the loader is a map from id to full name. A failing `.single()` is a missing key.
- Rounding of `confidence` (2 decimals) and `distance` (3 decimals) in the response. The model keeps exact reals, so `Match.distance` is the value compared with the threshold.
- The loader's `float32` conversion. Stored vectors are kept as exact reals.
- Arrays with more than two dimensions (numpy flattens any shape). A raw embedding is a flat list or a list of rows.
- `manually_edited` values that are not booleans, and JSON values in `/save` that are not lists of ids.
- Attendance.SaveRequest: `class_id` and `date` are `Option<string>`, with `None` for an absent key. A key present with JSON `null` or a non-string value passes the source's `f not in data` check (routes/attendance.py:128) and is stored as is; the model cannot express such a request.
- The logging `print` calls.
- The response shape of `/save` (lines 167-175).
- Concurrency. Two first callers of `load_embeddings_database` can both download, because the check is unguarded. The class models one call at a time.
- The JWT library (signature, algorithm and expiry checks). It is the `Decoder` oracle.
- EmbeddingsLoader.Loader.LoadEmbeddingsDatabase: does not model an unpickled object that is not a dict, or a failure of the `len` call in the success log line.
- FaceRecognition.Recognize: `absent_students` in the matcher's own report is a set, because the source iterates a Python set whose order is unspecified. The route rebuilds the absent list in key order.
