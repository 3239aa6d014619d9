# Student attendance: a verified model of the recognition and attendance core

This project models, in Dafny, the core of a Django application that takes a class photo,
recognises the students in it by face, predicts who is present, lets the teacher confirm
or correct the prediction, and records attendance. Around that flow sit the attendance-form
API, the advisor pages of the administration site, the staff dashboard pages, and a
scheduler that backs the database up and prunes old backup logs.

Each core file of the application is one module:

- `FaceMatch` (`face_match.dfy`): one photo through the recogniser. Detector boxes are padded and
  clamped to the photo, and boxes under 32 pixels are dropped. Each face lists the gallery
  identities above the similarity threshold, best first. Faces are then served greedily, so no
  identity goes to two faces of one photo. The mock result is used when a model is missing.
- `Gallery` and `Service` (`gallery.dfy`, `prediction_service.dfy`): a gallery maps register
  numbers to embeddings. It is cached per department and batch, narrowed to the chosen sections,
  and the per-group results are merged. `Service.PredictionService` is the long-lived service
  object with its cache and its models.
- `ProcessImages` (`process_images.dfy`): the `process_images` view. It checks the request, parses
  the sections, looks the session up, keeps each student's best confidence over all photos, and
  predicts presence for every student of the roster.
- `Submission` (`submit_attendance.dfy`): the `submit_attendance` view. Each confirmation is logged
  and written to the student's attendance row for today's class.
- `ApiViews` (`api_views.dfy`): dispatch of the attendance-form API, the current time slot of a
  batch, and the students listing.
- `AdvisorScope` and `AdvisorAdmin` (`advisor_scope.dfy`, `advisor_admin.dfy`): the sections and
  students an advisor supervises, and the admin site's permissions and querysets.
- `StaffAccess` (`staff_access.dfy`): the staff test and the four dashboard pages.
- `Backup` (`backup.dfy`): the next scheduled backup time, log retention, and the scheduler loop
  that a signal stops.

Shared helpers:

- `PyRuntime` states the Python built-ins the code relies on: `strip`, `split`, `join`, `int()` and
  `str()`.
- `Sorting` is Python's stable `sorted`.
- `Schema` holds the database records and the ORM's `get` and `filter`.
- `Records` is the mutable store the views write to.

The detector, the embedding network, cosine similarity, base64 decoding and the clock are
parameters of the model: a similarity function `sim`, a `decode` function, and the current
time passed in.

## Model

| member | source | states |
|---|---|---|
| PyRuntime.Strip | core/api_views.py:225-226 | `strip()` removes exactly the leading and trailing whitespace: the result is empty exactly for an all-blank string, and otherwise neither starts nor ends with whitespace |
| PyRuntime.StripKeepsText | core/api_views.py:225-226 | `strip()` removes only whitespace: the other characters survive, in order |
| PyRuntime.StripIdempotent | core/api_views.py:225-226 | stripping twice is stripping once |
| PyRuntime.SplitOn | prediction_backend/views.py:119 | `split(c)` gives at least one piece, more than one exactly when `c` occurs, and no piece contains `c` |
| PyRuntime.JoinSplitOn | prediction_backend/views.py:119 | joining the pieces of a split with the separator gives back the string |
| PyRuntime.SplitOnJoin | core/api_views.py:31-33 | splitting a join of separator-free pieces gives back the pieces |
| PyRuntime.SplitOnJoinSep | advisor_dashboard/admin.py:122 | a `", ".join(...)` of comma-free pieces splits at "," into the first piece and the others behind one space |
| PyRuntime.SplitFirst | core/api_views.py:249 | `split("-", 1)` gives the text before the first "-" and everything after it |
| PyRuntime.AfterLast | prediction_backend/views.py:124-126 | `split("-")[-1]` is the "-"-free text after the last "-", or the whole string when there is none |
| PyRuntime.LastPieceIsSuffix | prediction_backend/views.py:124-126 | the last piece of a split is a suffix of the string, right behind the last separator |
| PyRuntime.WordsAreWords | backup_manager.py:128 | every word of `split()` is non-empty and holds no whitespace |
| PyRuntime.WordsKeepText | backup_manager.py:128 | `split()` drops exactly the whitespace: its words glued together are the string without its whitespace |
| PyRuntime.ParseInt | backup_manager.py:132-133 | `int(s)` only succeeds on a string that is not blank |
| PyRuntime.IntRoundTrip | core/models.py:84 | `int(str(n)) == n` |
| PyRuntime.IntToStringInjective | prediction_backend/services.py:162 | `str` is injective on integers |
| PyRuntime.NatToStringValue | core/models.py:84 | `str(n)` of a natural number is a digit string whose value is n |
| FaceMatch.Fifth | prediction_backend/services.py:362 | `int(v * 0.2)` truncates toward zero: for v >= 0 the result r satisfies 5r <= v < 5r + 5, and symmetrically for negative v |
| FaceMatch.PadAndClamp | prediction_backend/services.py:361-364 | the padded box lies inside the photo, and it covers the original box clamped to the photo |
| FaceMatch.KeptCropNotEmpty | prediction_backend/services.py:366-374 | a box that passes the 32-pixel size check is a non-empty crop inside the photo, so the empty-crop branch never fires |
| FaceMatch.CandidatesMembers | prediction_backend/services.py:390-401 | a face's candidates are exactly the gallery identities that are in the selected sections (when any are selected) with similarity strictly above the threshold, each with its similarity |
| FaceMatch.SortedMatchesOrder | prediction_backend/services.py:406-407 | sorting keeps exactly the candidates, best score first |
| FaceMatch.FaceAt | prediction_backend/services.py:355-415 | a detector box yields a face exactly when its padded and clamped box is large enough, and that face records the box's index |
| FaceMatch.FacesUpTo | prediction_backend/services.py:352-415 | at most one face per detector box, each from a box already seen |
| FaceMatch.FacesUpToGrows | prediction_backend/services.py:355-356 | the face list only grows as more boxes are read |
| FaceMatch.SomeFaceFound | prediction_backend/services.py:366-376 | a large-enough box gives the photo at least one face |
| FaceMatch.FacesUpToOrdered | prediction_backend/services.py:409-415 | faces are kept in detection order |
| FaceMatch.FacesUpToContents | prediction_backend/services.py:360-415 | each kept face holds its padded and clamped box, which is large enough, and the sorted candidate list of its box |
| FaceMatch.FaceAtContents | prediction_backend/services.py:409-415 | the face of box i holds box i padded and clamped, and the candidates of box i |
| FaceMatch.FacesFound | prediction_backend/services.py:355-376 | the photo has a face exactly when some box is large enough once padded and clamped |
| FaceMatch.FacesUpToComplete | prediction_backend/services.py:366-376 | every large-enough box is kept as a face |
| FaceMatch.MaxScore | prediction_backend/services.py:424 | `max(...)` over a non-empty candidate list is one of its scores and bounds all of them |
| FaceMatch.FaceOrder | prediction_backend/services.py:424 | the choosing order is a sequence of face indices within range, one entry per face |
| FaceMatch.FaceOrderSorted | prediction_backend/services.py:424 | faces choose in descending order of best score (0 for a face with no candidate), ties in detection order (a stable sort), and every face chooses exactly once |
| FaceMatch.FirstUnused | prediction_backend/services.py:425-426 | the chosen position is the first candidate whose identity is not yet used, or the end of the list when all are used |
| FaceMatch.AssignKeepsInvariant | prediction_backend/services.py:419-432 | after any number of faces have chosen: the used set is exactly the picked identities, picks are distinct, each pick is a candidate of a face that has chosen, and a face that chose nothing found every candidate used |
| FaceMatch.GreedyAssignment | prediction_backend/services.py:419-432 | no identity goes to two faces; each face's identity is one of its candidates; a face left "Unknown" had every candidate taken by another face |
| FaceMatch.StudentLookupSound | prediction_backend/services.py:443-451 | with unique register numbers, the student lookup never raises and finds only the student with that register number |
| FaceMatch.CollectFailureStays | prediction_backend/services.py:436-470 | once a lookup raises, the whole photo fails (the outer handler returns no students) |
| FaceMatch.CollectReports | prediction_backend/services.py:436-452 | with a sound lookup the collection succeeds, each reported student is a picked identity with a database record of that name, and no student is reported twice |
| FaceMatch.RecogniseReports | prediction_backend/services.py:324-470 | processing fails exactly for a photo that cannot be decoded, or one with faces but no transform; no student is reported twice; each reported student is a gallery identity of the selected sections, above the threshold for some box, with a record of that name |
| FaceMatch.ReportsOfFaces | prediction_backend/services.py:419-452 | the same guarantees for the faces of one decoded photo |
| FaceMatch.PickIsCandidate | prediction_backend/services.py:393-401 | any candidate of a kept face is a gallery identity of the selected sections whose similarity to that face's box is above the threshold |
| FaceMatch.ProcessImageSync | prediction_backend/services.py:324-470 | the imperative `_process_image_sync` returns exactly what `Recognise` specifies |
| FaceMatch.DetectFaces | prediction_backend/services.py:351-415 | the detection loop succeeds unless a face is found without a transform, and it then returns exactly the specified faces |
| FaceMatch.RankFace | prediction_backend/services.py:390-407 | one face's candidate list, built by the loop and sorted, equals the specified ranking |
| FaceMatch.MatchGallery | prediction_backend/services.py:393-401 | the similarity loop over the gallery returns exactly the specified candidates |
| FaceMatch.AssignIdentities | prediction_backend/services.py:419-432 | the greedy loop computes exactly the specified assignment |
| FaceMatch.FirstFree | prediction_backend/services.py:425-432 | the scan with `break` stops at the first unused candidate |
| FaceMatch.CollectStudents | prediction_backend/services.py:434-452 | the collection loop returns exactly the specified students |
| FaceMatch.MockProcess | prediction_backend/services.py:472-511 | a decodable photo yields the two fixed mock students with distinct register numbers; one that cannot be decoded yields nothing |
| Gallery.IndexOfKey | prediction_backend/services.py:166-167 | the position of a key is its first occurrence, or the end exactly when the key is absent |
| Gallery.Find | prediction_backend/services.py:166-167 | a dictionary lookup finds a value exactly when the key is present, and the entry is in the dictionary |
| Gallery.IndexOfUniqueKey | prediction_backend/services.py:203-210 | in a dictionary the entry holding a key is the only one with that key |
| Gallery.Convert | prediction_backend/services.py:202-210 | the conversion keeps exactly the array entries and the tensor entries (converted), drops any other value, and keeps keys distinct |
| Gallery.KeepKeys | prediction_backend/services.py:254-259 | the dictionary comprehension keeps exactly the entries whose key is in the set, values untouched, keys still distinct |
| Gallery.FilterBySections | prediction_backend/services.py:226-262 | with no section named the gallery comes back unchanged; otherwise exactly the entries of the students of the named sections, values untouched |
| Gallery.FilterIdempotent | prediction_backend/services.py:226-262 | the filtered gallery is a subset of the gallery, and filtering it again changes nothing |
| Gallery.KeepKeysIdempotent | prediction_backend/services.py:254-259 | keeping the same keys twice is the same as keeping them once |
| Gallery.Put | prediction_backend/services.py:206-208 | `gallery[k] = v` makes k map to v, leaves every other key's value alone, appends a new key and keeps an existing key's place |
| Gallery.Update | prediction_backend/services.py:298 | `a.update(b)` has the keys of both, and keys only in `a` keep their values |
| Gallery.UpdateTakesNewValues | prediction_backend/services.py:298 | after `a.update(b)` every key of `b` holds `b`'s value |
| Gallery.GalleryPath | prediction_backend/services.py:162-172 | the gallery file is named after the cache key |
| Gallery.CacheKeyInjective | prediction_backend/services.py:162 | two different (department, batch) pairs never share a cache key, even when a department name contains "_" |
| Gallery.LoadedGallery | prediction_backend/services.py:171-219 | a missing or unreadable gallery file gives `{}`; any other result holds only identities of the stored gallery, with distinct keys |
| Service.AfterInitOutcome | prediction_backend/services.py:82-154 | initialising an initialised service changes nothing; otherwise the service ends initialised exactly when no step raises, and then the transform is set up and each model whose file is present is loaded |
| Service.AfterInitIdempotent | prediction_backend/services.py:84-91 | initialising a second time changes nothing, whether the first attempt succeeded or failed |
| Service.FreshInit | prediction_backend/services.py:277-279 | a fresh service that initialises cleanly falls back to the mock exactly when a model file (or the network's code) is missing; a failed checkpoint load leaves a constructed handle, no detector, no transform and `initialized` false; the model files are checked at lines 110-148 |
| Service.CombinedGallery | prediction_backend/services.py:282-299 | the merged gallery of the section groups is a dictionary (distinct keys) |
| Service.CombinedGalleryKeys | prediction_backend/services.py:287-299 | the merged gallery holds exactly the identities of the galleries of the groups that have a department and a batch |
| Service.LastGroupWins | prediction_backend/services.py:297-298 | an identity in several groups' galleries takes the embedding of the last of them |
| Service.GroupStudentsMembers | prediction_backend/services.py:300-314 | the section students are exactly the students of some named section of some group that has a department and a batch |
| Service.PredictReports | prediction_backend/services.py:268-322 | no student is reported twice; with a model missing the result is the mock's; otherwise every student is a gallery identity of a selected group, in the named sections when any are named, above the threshold, with a database record of that name |
| Service.PredictionService.constructor | prediction_backend/services.py:69-78 | a new service is not initialised, has no model and an empty gallery cache |
| Service.PredictionService.Initialize | prediction_backend/services.py:82-154 | `initialize` moves the service to the specified state and leaves the gallery cache alone |
| Service.PredictionService.LoadGallery | prediction_backend/services.py:156-224 | a cached key returns the filtered cached gallery and leaves the cache alone; otherwise the stored gallery is cached unfiltered (nothing is cached for a missing file) and the filtered gallery returned; a cache that agrees with the files keeps agreeing, and the result then does not depend on the cache |
| Service.PredictionService.ProcessImage | prediction_backend/services.py:268-322 | initialises the service when needed, and with a cache that agrees with the files returns exactly the specified prediction and keeps the cache in agreement |
| Service.PredictionService.MergeGroups | prediction_backend/services.py:282-314 | the loop over the section groups builds exactly the merged gallery and section students, and keeps the cache in agreement |
| Service.QuerySections | prediction_backend/services.py:238-250 | the per-section queries add up to the students of all named sections |
| Service.CacheStaysInAgreement | prediction_backend/services.py:212-214 | caching the stored gallery under its own key keeps the cache in agreement with the files |
| ProcessImages.GroupsOf | prediction_backend/views.py:119-133 | each parsed group carries the request's department and batch and names one section, which contains no "-" |
| ProcessImages.SectionGroups | prediction_backend/views.py:116-143 | the section groups are never empty |
| ProcessImages.SectionGroupsShape | prediction_backend/views.py:116-143 | every group carries the request's department and batch; either there is one group naming no section, or every group names one section without a "-"; a string without "-" gives the one empty group |
| ProcessImages.SectionTokenReadsBack | prediction_backend/views.py:122-126 | the text after the last "-" of a stripped "Department-Section" token is the section name |
| ProcessImages.DashedParts | prediction_backend/views.py:119-133 | parts that all contain "-" give one group each, in order |
| ProcessImages.SectionGroupsReadBack | prediction_backend/views.py:116-143 | a sections string "D1-S1,D2-S2,..." names exactly S1, S2, ... in order, one group each, under the request's department and batch (the departments in the string are ignored) |
| ProcessImages.BatchField | prediction_backend/views.py:103 | `int(batch_year) if batch_year else None`: fails exactly for a non-empty year that does not parse, and a non-zero result is the parsed year |
| ProcessImages.CheckRequestErrors | prediction_backend/views.py:86-113 | a request with no images or with an empty image is answered 400; every other refusal is 400 or 500 |
| ProcessImages.CheckRequestAccepts | prediction_backend/views.py:86-113 | a request passes the checks exactly when it has images, none empty, a department, a subject, a threshold that parses and a non-zero batch year that parses |
| ProcessImages.CheckRequestCarries | prediction_backend/views.py:102-143 | an accepted request carries its department, subject, parsed batch year and parsed section groups |
| ProcessImages.LookupStatus | prediction_backend/views.py:148-181 | the lookups with the subject found by its unique code: a failed lookup answers 404 (row missing) or 500 (several rows), and a department or batch failure answers as in the view |
| ProcessImages.LookupStatusAsWritten | prediction_backend/views.py:148-157 | the lookups as written: a missing department or batch answers 404, and every request past them answers 404 or 500, never reaching the images |
| ProcessImages.SubjectLookupRaises | prediction_backend/views.py:156 | on a consistent database the view as written accepts no session, and answers 500 exactly when the department and its batch exist (the `batch` filter raises `FieldError`, caught only by the outer handler at lines 404-410) |
| ProcessImages.LookupAgrees | prediction_backend/views.py:148-181 | with the subject found by its code: on a consistent database no lookup answers 500, the lookups succeed exactly when the department, its batch, the subject and the first named section (any section of the batch when none is named) exist, and every such session is one the view as written answers with 500 |
| ProcessImages.GetAtMostOne | prediction_backend/views.py:150-162 | `objects.get` on a filter at most one row satisfies never finds several rows, and finds one exactly when one exists |
| ProcessImages.Payload | prediction_backend/views.py:213-215 | a string not starting with "data:image" is kept whole; a data URL yields a piece without a comma |
| ProcessImages.PayloadOfDataUrl | prediction_backend/views.py:213-215 | a data URL "header,data" yields exactly its data |
| ProcessImages.ImagesUpTo | prediction_backend/views.py:209-312 | at most one processed photo is counted per image |
| ProcessImages.MergedBest | prediction_backend/views.py:297-305 | the merged detections hold every detected register number and nothing else, each with the highest confidence any photo gave it, the earliest such detection on a tie |
| ProcessImages.NamesOf | prediction_backend/views.py:335 | no section is named exactly when every group names none |
| ProcessImages.RosterUnique | prediction_backend/views.py:316-342 | the roster holds each register number once when the students table does |
| ProcessImages.RosterMembers | prediction_backend/views.py:316-340 | the intended roster holds exactly the students of the session's batch in a named section, or of any section of the batch when no group names one |
| ProcessImages.NameCount | prediction_backend/views.py:319-327 | the number of `union()` calls the roster query takes is zero exactly when no group names a section |
| ProcessImages.RosterAsWrittenRaises | prediction_backend/views.py:316-342 | as written, the roster's `distinct()` raises `NotSupportedError` exactly when the groups name two or more sections, repeats included, and otherwise lists the intended roster |
| ProcessImages.NamedSectionsRaise | prediction_backend/views.py:316-342 | as written, every request whose sections read "D1-S1,D2-S2,..." with two or more parts gets no roster, so the outer handler answers 500 |
| ProcessImages.ReconcileSorted | prediction_backend/views.py:343-385 | after sorting: one prediction per roster student, in strictly ascending register-number order; present exactly when detected, with the detected confidence, absent with 0.0; detected students outside the roster give nothing |
| ProcessImages.SortByRegNoFacts | prediction_backend/views.py:385 | sorting predictions with distinct register numbers gives strictly ascending order and keeps exactly the same predictions |
| ProcessImages.AscendingUnique | prediction_backend/views.py:385 | two strictly ascending lists of the same predictions are equal |
| ProcessImages.ReconcileOrderIndependent | prediction_backend/views.py:342-385 | the sorted predictions do not depend on the order in which the database returns the roster |
| ProcessImages.ImagesDetections | prediction_backend/views.py:237-305 | every detection comes from the service: one of the two mock students when a model is missing, otherwise a student on record above the threshold |
| ProcessImages.OutcomeStatus | prediction_backend/views.py:58-411 | the view answers 400, 404 or 500 on failure; 400 for missing or empty images; and a report exactly when the checks and the lookups succeed |
| ProcessImages.ConsistentNo500 | prediction_backend/views.py:148-181 | with the subject found by its code, on a consistent database the only 500 answers come from numbers that do not parse |
| ProcessImages.OutcomeReport | prediction_backend/views.py:185-405 | a request that passes the checks and lookups is answered with the report of its detections on the initialised service and of its roster |
| ProcessImages.ReportContents | prediction_backend/views.py:385-397 | the report counts the processed photos, holds one prediction per roster student (`total_students` equals that number), in strictly ascending register-number order |
| ProcessImages.ReportPresence | prediction_backend/views.py:297-359 | a student is present exactly when some photo detected it, with the highest confidence any photo gave; an absent student has confidence 0.0 |
| ProcessImages.ReportDetectedCount | prediction_backend/views.py:343-395 | `total_detected` is the number of distinct detected register numbers, roster or not |
| ProcessImages.PresentMeansRecognised | prediction_backend/views.py:237-385 | with both models loaded a present student has confidence above the threshold; with a model missing only 2027CS001 and 2027CS002 can be present |
| ProcessImages.PresentDetected | prediction_backend/views.py:352-359 | a present student's confidence is that of one of its detections |
| ProcessImages.HandleProcessImages | prediction_backend/views.py:58-411 | the imperative view returns the specified outcome; it initialises the service only when the request reaches the images; it writes exactly one prediction row per roster student and nothing else, and keeps the store's uniqueness invariant |
| ProcessImages.ParseRequest | prediction_backend/views.py:86-143 | the request checks, in the view's order, give the specified result |
| ProcessImages.ValidateImages | prediction_backend/views.py:86-98 | the images are valid exactly when there is at least one and none is empty |
| ProcessImages.ParseSections | prediction_backend/views.py:116-143 | the loop over the comma-separated parts builds exactly the specified groups |
| ProcessImages.RunImages | prediction_backend/views.py:204-312 | the photo loop counts exactly the processed photos and merges exactly their detections |
| ProcessImages.RunImage | prediction_backend/views.py:209-312 | one photo: skipped when its payload does not decode, otherwise processed and its students merged |
| ProcessImages.MergeAll | prediction_backend/views.py:297-305 | the inner loop merges one photo's students into the detections so far |
| ProcessImages.CollectRoster | prediction_backend/views.py:316-342 | the roster loop returns exactly the specified roster: the union of the named sections' students, or the whole batch when no section is named |
| ProcessImages.WritePredictions | prediction_backend/views.py:350-382 | the loop over the roster writes one prediction row per student and touches no other table |
| ProcessImages.SessionRecordsUnique | prediction_backend/views.py:362-370 | rows of a new session, one per student, keep (session, student) unique in the predictions table |
| Submission.PredictionOf | prediction_backend/views.py:438 | the dictionary finds a prediction of the student whenever the session has one, and nothing otherwise |
| Submission.SessionLookup | prediction_backend/views.py:437-438 | with one prediction per (session, student), the dictionary of a session's predictions finds each of them under its student's register number |
| Submission.FreshId | prediction_backend/views.py:461-469 | the id a new timetable row gets is larger than every id in use |
| Submission.GetOrCreateTimetable | prediction_backend/views.py:461-469 | the class of the session's section and subject today is found, or appended with a fresh id when there is none; it fails exactly when two rows match (the filter is not a declared unique key) |
| Submission.Step | prediction_backend/views.py:480-525 | one entry: after a failure nothing changes; a known entry adds one confirmation and counts it once as created or updated; a created row adds one attendance row; the tables' uniqueness is kept |
| Submission.AppendSubmission | prediction_backend/views.py:490-499 | inserting a submission for a student without one keeps (session, student) unique |
| Submission.Run | prediction_backend/views.py:480-525 | the loop keeps attendance unique per (student, class) |
| Submission.RunAfterFailure | prediction_backend/views.py:480-548 | once an insert raised, the remaining entries change nothing |
| Submission.CountKnown | prediction_backend/views.py:484 | the number of entries naming a student of the session is at most the number of entries |
| Submission.EditedCount | prediction_backend/views.py:537 | `edited_count` is at most the number of submissions |
| Submission.StepRecorded | prediction_backend/views.py:484-514 | one step keeps every confirmation recorded (a submission and an attendance row with the confirmed value), keeps `was_edited` faithful to the prediction, and leaves other classes' attendance rows alone |
| Submission.RunFacts | prediction_backend/views.py:476-525 | the loop keeps the unique constraints, counts every confirmation once as created or updated, confirms exactly the known entries when nothing raised, records each confirmed value, and touches no other class |
| Submission.SubmitRefusals | prediction_backend/views.py:430-446 | 400 exactly without a session or without entries, 404 exactly when the session predicted nothing; both leave every table unchanged; every refusal is 400, 404 or 500 |
| Submission.SubmitSucceeds | prediction_backend/views.py:449-543 | on success created + updated = submissions_count = the number of entries naming a student of the session; edited_count is at most that; the attendance table grows by `created` rows; the answered timetable is today's; the unique constraints hold; every known entry has its submission |
| Submission.RunConfirmsKnown | prediction_backend/views.py:480-499 | without a failure every entry naming a student of the session leaves a submission |
| Submission.RunConfirmations | prediction_backend/views.py:484-514 | each confirmation's attendance row holds the confirmed value, and `was_edited` holds exactly when the confirmed value differs from the prediction |
| Submission.SubmitAttendance | prediction_backend/views.py:416-548 | the imperative view answers and updates the store exactly as specified, and keeps the store's unique constraints |
| Submission.ConfirmEntries | prediction_backend/views.py:476-525 | the loop over the entries leaves exactly the specified submissions, attendance rows and counters, and changes no other table |
| Submission.ConfirmEntry | prediction_backend/views.py:481-525 | one pass of the loop does exactly one specified step |
| Schema.Get | prediction_backend/views.py:150-162 | `objects.get` returns a row that satisfies the filter, and raises `DoesNotExist` exactly when no row does |
| Schema.Filter | prediction_backend/views.py:322-326 | `objects.filter` returns exactly the rows that satisfy the filter |
| Schema.GetNone | prediction_backend/views.py:150-181 | `get` raises `DoesNotExist` exactly when no row of the table satisfies the filter |
| Schema.FilterAtMostOne | core/models.py:114 | a filter that at most one row satisfies, such as a unique key, returns at most one row |
| Schema.GetByUniqueKey | core/models.py:75 | a `get` by a unique key finds the row when it exists and never finds several; the other unique keys are at lines 114 and 243 |
| Schema.GetStudentByRegNo | core/models.py:155 | with unique register numbers, a lookup by register number never finds several students |
| Schema.DisplayYearReadsBack | core/models.py:80-84 | `display_year` splits at "-" into the start year (graduation year minus three) and the graduation year |
| Schema.CurrentYear | core/models.py:86-95 | `current_year` lies in 1..4; it is 4 minus the years left when 0 to 3 years are left; it is 1 exactly when 3 or more years are left, and 4 exactly when none are left |
| Schema.CurrentYearAntitoneInBatch | core/models.py:94-95 | on one date, a later-graduating batch is never in a higher year |
| Schema.CurrentYearMonotoneInDate | core/models.py:89-95 | a batch's year of study never goes down as the date advances |
| Schema.ValidateYearOfStudy | core/models.py:178-180 | the validators accept exactly 1..4, and report the minimum below 1 and the maximum above 4 |
| Schema.CurrentYearIsValidYear | core/models.py:86-95 | every year of study `current_year` produces passes the time-block validators |
| Schema.DepartmentsDisplayReadsBack | core/models.py:145-147 | the department display splits back at "," into the first name and every other name behind one space, when no name contains a comma |
| Schema.UpdateOrCreate | core/models.py:243 | `update_or_create` keeps (student, timetable) unique, creates a row exactly when none exists for the pair, leaves the row for the pair with the new value, and leaves every other row alone |
| AdvisorScope.AssignedStudentsMembers | advisor_dashboard/models.py:41-65 | in the intended scope, a student is supervised exactly when its section is assigned, or its batch is, or its department is and the advisor has no batch and no section |
| AdvisorScope.AssignedStudentsRaises | advisor_dashboard/models.py:41-65 | as written, `get_assigned_students` raises `NotSupportedError` exactly for an advisor with both sections and batches, and otherwise lists the intended students |
| AdvisorScope.DepartmentsIgnoredWhenScoped | advisor_dashboard/models.py:59-63 | an advisor with a batch or a section supervises the same students whatever its departments |
| AdvisorScope.AssignedSectionsMembers | advisor_dashboard/models.py:67-87 | in the intended scope, a section is supervised exactly when it is assigned directly, or it is in an assigned batch or department (departments always count) |
| AdvisorScope.AssignedSectionsRaises | advisor_dashboard/models.py:67-87 | as written, `get_assigned_sections` raises `NotSupportedError` exactly for an advisor with at least two kinds of assignment, and otherwise lists the intended sections |
| AdvisorScope.NoAssignmentsNothing | advisor_dashboard/models.py:41-87 | an advisor with no assignment supervises no student and no section |
| AdvisorScope.StudentsWithinSections | advisor_dashboard/models.py:41-87 | every supervised student's section is a supervised section |
| AdvisorScope.SectionsWiderThanStudents | advisor_dashboard/models.py:53-85 | in the intended scopes, an advisor with a department and a batch supervises a section of another batch of that department but not its students (as written, `get_assigned_sections` raises for this advisor) |
| Sorting.SortIndicesPermutes | prediction_backend/services.py:407 | a sort lists every position exactly once; the greedy pass sorts again at line 424 |
| Sorting.PermutationOfRange | prediction_backend/services.py:424 | a rearrangement of 0..n-1 lists each index exactly once |
| Sorting.SortIndicesSorted | prediction_backend/services.py:407 | Python's sort is stable: the smaller key comes first, and of equal keys the earlier item; the greedy pass sorts again at line 424 |
| Sorting.PermuteMembers | prediction_backend/views.py:385 | sorting keeps exactly the items of the list |
| Sorting.SortIndicesNotAfter | prediction_backend/services.py:407 | after a sort, no later key is smaller than an earlier one |
| Sorting.SortedUnique | prediction_backend/services.py:424 | any stable sort of the same positions produces the same order |
| Sorting.DescendingIsTotal | prediction_backend/services.py:407 | `reverse=True` on numeric keys is a strict total order; the greedy pass sorts again at line 424 |
| Sorting.StrLessIsTotal | prediction_backend/views.py:385 | comparing register numbers as Python strings is a strict total order |
| ApiViews.Dispatch | core/api_views.py:15-36 | as written: exactly the unknown actions are answered "Invalid action" (400), and the students action, exactly, reaches the missing `get_students` |
| ApiViews.StudentsActionFails | core/api_views.py:30-34 | a students request fails with 500 whatever its batch year (see Findings) |
| ApiViews.DispatchFixed | core/api_views.py:15-36 | the corrected dispatch: see `ApiViews.DispatchFixedRoutes` |
| ApiViews.DispatchFixedRoutes | core/api_views.py:30-34 | corrected: the students action goes to the listing with the comma-split departments and sections and the batch year, never to a missing handler; every other action routes as written |
| ApiViews.BlocksOfYearOrdered | core/api_views.py:150-152 | the time blocks of a year are exactly that year's blocks, in block-number order |
| ApiViews.FirstActive | core/api_views.py:157-160 | the first block with start <= now <= end (both ends inclusive), or none |
| ApiViews.FirstUpcoming | core/api_views.py:161-162 | the first block that starts after now, or none |
| ApiViews.ChosenActiveIsFirst | core/api_views.py:157-172 | an active answer is an active block, and no block with a smaller number is active |
| ApiViews.ChosenUpcomingIsFirst | core/api_views.py:157-183 | an upcoming answer comes only when no block is active, and no block with a smaller number is upcoming |
| ApiViews.ScanBlocks | core/api_views.py:154-189 | the loop with its `break` chooses exactly the specified slot |
| ApiViews.GetCurrentTimeSlot | core/api_views.py:134-192 | the imperative view answers exactly as specified |
| ApiViews.ActiveSlotIsFirst | core/api_views.py:143-172 | an active answer is an active block of the batch's year of study, and no block of that year with a smaller number is active |
| ApiViews.UpcomingSlotIsFirst | core/api_views.py:143-183 | an upcoming answer comes only when no block of the year is active, and it is the upcoming block with the smallest number |
| ApiViews.NoSlotMeansAllEnded | core/api_views.py:184-189 | no slot is answered exactly when every block of the year started and ended before now |
| ApiViews.UpcomingNotEarliest | core/api_views.py:161-162 | the upcoming block is the first by block number, not the one starting soonest (block 1 at 11:00 wins over block 2 at 10:00 at 9:00) |
| ApiViews.TimeSlotMissingYear | core/api_views.py:137-138 | a missing or empty batch year, and only that, is answered 400 |
| ApiViews.TimeSlotBadYear | core/api_views.py:142-192 | a batch year `int()` rejects is answered 500 |
| ApiViews.TimeSlotUnknownBatch | core/api_views.py:141-145 | an integer batch year is answered 404 exactly when no batch has that year |
| ApiViews.SharedBatchYearFails | core/api_views.py:142-192 | the lookup ignores the department, so two departments with a batch of the same year give 500 |
| ApiViews.StripAllMembers | core/api_views.py:225-226 | the kept tokens are exactly the stripped tokens that are not blank |
| ApiViews.StripAllKeeps | core/api_views.py:225-226 | every token that is not blank once stripped is kept |
| ApiViews.NamesForMembers | core/api_views.py:245-254 | a department collects exactly the bare section names and the stripped part after the first "-" of tokens whose stripped department part is that department |
| ApiViews.CollectNames | core/api_views.py:245-254 | the section-name loop collects exactly the specified names |
| ApiViews.SectionStudentsFacts | core/api_views.py:266 | a section lists exactly its students, in name order |
| ApiViews.ConcatMapMembers | core/api_views.py:265-277 | the accumulated rows are exactly the rows of some item |
| ApiViews.SectionsToListMembers | core/api_views.py:241-262 | the sections listed are those of the batch, restricted to the collected names when any name is left |
| ApiViews.ListedIffSectionListed | core/api_views.py:238-262 | a student is listed under a department with a batch exactly when its section is listed for that batch |
| ApiViews.DeptRowsSound | core/api_views.py:235-283 | every row of a department is the row of a student listed under it |
| ApiViews.DeptRowsComplete | core/api_views.py:235-283 | every student listed under a department has its row |
| ApiViews.DeptRowsMembers | core/api_views.py:235-283 | a department's rows are exactly the rows of its listed students; a department whose batch is missing or ambiguous is skipped |
| ApiViews.ListingMembers | core/api_views.py:233-283 | the listing's rows are exactly the rows of the students listed under its departments |
| ApiViews.DeptStudents | core/api_views.py:236-283 | one department's pass computes exactly the specified rows |
| ApiViews.SectionsStudents | core/api_views.py:265-277 | the section loop appends each section's students after those of the sections before |
| ApiViews.GetStudents | core/api_views.py:218-291 | the imperative `get_students` answers exactly as specified |
| ApiViews.AllStudents | core/api_views.py:233-283 | the department loop appends each department's rows after those of the departments before |
| ApiViews.StudentsCount | core/api_views.py:285-288 | `count` is the number of rows, and a batch year that is not an integer lists no one |
| ApiViews.StudentsListing | core/api_views.py:218-288 | with an integer batch year a row is listed exactly when it is the row of a student listed under a stripped, non-blank department token, using the stripped non-blank section tokens |
| ApiViews.StudentsRefusals | core/api_views.py:221-229 | 400 exactly without departments, without a batch year, or when every department token is blank |
| AdvisorAdmin.ViewAndAddRule | advisor_dashboard/admin.py:138-171 | view and add are allowed exactly to superusers, users with an advisor profile and staff, and to the same users |
| AdvisorAdmin.ChangeRule | advisor_dashboard/admin.py:150-158 | change: always for a superuser; for an advisor exactly when its profile allows editing attendance, whatever the staff flag; otherwise exactly for staff |
| AdvisorAdmin.DeleteRule | advisor_dashboard/admin.py:160-162 | only superusers may delete, and whoever may delete may also view, change and add |
| AdvisorAdmin.ChangeNeedsView | advisor_dashboard/admin.py:138-158 | whoever may change may view |
| AdvisorAdmin.ScopingRules | advisor_dashboard/admin.py:181-194 | superusers and users without an advisor profile see every student, section and attendance row; an advisor that is not a superuser sees exactly its assigned students and sections, in the intended scopes; the same scoping repeats at lines 212-225 and 236-248 |
| AdvisorAdmin.AdvisorAttendance | advisor_dashboard/admin.py:242-245 | an advisor that is not a superuser sees exactly the attendance rows of its assigned students |
| AdvisorAdmin.JoinAvoids | advisor_dashboard/admin.py:121-131 | a character in neither the labels nor the separator is not in their join |
| AdvisorAdmin.ShownTruncated | advisor_dashboard/admin.py:121-131 | for labels without '.', a column ends in "..." exactly when there are more than three labels, and what comes before it is the first three (or fewer) labels joined by ", " |
| AdvisorAdmin.TruncatedReadsBack | advisor_dashboard/admin.py:121-131 | for labels without ',' or '.', the shown part splits back at ',' into the first three (or fewer) labels, each after the first behind one space |
| AdvisorAdmin.ColumnsShowFirstThree | advisor_dashboard/admin.py:125-126 | the batches column ends in "..." exactly for more than three batches, and shows the first three "department year" labels |
| AdvisorAdmin.NoDigitPunctuation | advisor_dashboard/admin.py:126 | a year's text contains no ',' and no '.', so batch labels read back |
| StaffAccess.StaffPermissionRule | attendance_dashboard/views.py:6-13 | the staff check fails for every superuser; for anyone else it holds exactly for a staff user in Staffs or outside Advisors |
| StaffAccess.StaffPermissionBounds | attendance_dashboard/views.py:6-13 | whoever passes the check is staff and no superuser; staff that are neither superusers nor advisors pass |
| StaffAccess.DenialPriority | attendance_dashboard/views.py:18-27 | all four pages refuse the same users with the same redirect and a message: to the admin site exactly for superusers, to the advisor dashboard exactly for Advisors members that are not staff Staffs members, to login exactly for the rest; the same checks repeat at lines 42-51, 65-74 and 89-98 |
| StaffAccess.PermittedPages | attendance_dashboard/views.py:29-37 | a permitted user always gets the attendance and camera pages; a Staffs member is sent from the dashboard to the attendance page and from reports to the attendance page with an error; others get the dashboard and reports; the other pages are at lines 53-60, 76-84 and 100-107 |
| StaffAccess.RendersExactly | attendance_dashboard/views.py:15-107 | a page renders exactly when the check passes and, for the dashboard and reports, the user is outside Staffs |
| StaffAccess.UserGroupLabel | attendance_dashboard/views.py:58 | the label is "Staffs" exactly for a member of Staffs, otherwise "General Staff", and both attendance pages carry it; line 105 repeats the choice |
| Backup.AddDays | backup_manager.py:140-147 | adding whole days to a valid moment gives a valid moment |
| Backup.Replace | backup_manager.py:136 | `replace` succeeds exactly for an hour in 0..23 and a minute in 0..59, and then keeps the day |
| Backup.ScheduledFields | backup_manager.py:128-133 | usable fields need at least two whitespace-separated words |
| Backup.NextRunBounds | backup_manager.py:124-147 | the next backup time is valid, strictly after now and at most one day after now |
| Backup.NextRunExact | backup_manager.py:131-142 | with a minute and an hour in range, the next backup falls on exactly that hour and minute at zero seconds, and no earlier moment after now does |
| Backup.SameClockDayApart | backup_manager.py:139-140 | two moments showing the same time of day are whole days apart |
| Backup.NextRunFallback | backup_manager.py:130-147 | without usable fields, or with a minute or hour out of range (the caught `ValueError`), the next backup is now plus one day; with fields in range it is now plus one day only when now is exactly the scheduled time |
| Backup.ScheduledFieldsRead | backup_manager.py:128-133 | the fields are usable exactly when there are at least two words and the first two parse as integers: the minute, then the hour |
| Backup.DefaultScheduleAtTwo | backup_manager.py:124-142 | the default schedule "0 2 * * *" reads as minute 0 of hour 2, so the backup runs at 02:00 |
| Backup.Kept | backup_manager.py:163-166 | deleting rows never adds any |
| Backup.KeptMembers | backup_manager.py:163-166 | the rows left are exactly those whose timestamp is not before the cutoff |
| Backup.RetentionGuard | backup_manager.py:151-166 | a retention of zero or less deletes nothing; a positive one keeps exactly the rows not older than now minus that many days |
| Backup.LaterCleanupSubsumes | backup_manager.py:149-173 | a later cleanup with the same retention makes an earlier one redundant |
| Backup.KeptTwice | backup_manager.py:163-166 | deleting before an earlier cutoff and then before a later one is the same as deleting before the later one |
| Backup.BackupCount | backup_manager.py:223-233 | the scheduler starts at most one backup per round |
| Backup.UnsignalledBackups | backup_manager.py:223-242 | without a signal every round starts its backup |
| Backup.FirstSignalStops | backup_manager.py:223-233 | the rounds before the first signal start their backup; the round of the signal starts one only when the signal comes during the backup; no later round starts one |
| Backup.CountStep | backup_manager.py:223-242 | one loop round: a signal while waiting stops it before the backup, a signal during the backup stops it after, and otherwise the loop goes on |
| Backup.BackupsWithinADay | backup_manager.py:225-230 | each backup the scheduler starts falls strictly after its round began and at most a day later |
| Backup.BackupManager.constructor | backup_manager.py:57-62 | a new manager is not running, and its schedule is the setting or else "0 2 * * *" |
| Backup.BackupManager.SignalHandler | backup_manager.py:68-71 | the signal handler clears `running` and changes nothing else |
| Backup.BackupManager.RunScheduledBackup | backup_manager.py:211-251 | `running` is set; a failed health check returns false at once and leaves it set; otherwise the loop starts one backup per round until a signal, each at its round's next backup time, and ends with `running` cleared exactly when a signal came |
| Backup.BackupManager.RunRounds | backup_manager.py:223-248 | the `while self.running` loop starts exactly the counted backups, each at its round's next backup time, and ends with `running` cleared exactly when a signal came |

## Left out

- Face detection, the embedding network, image decoding and cosine similarity: these are numeric
  and library code. Boxes arrive with the photo as integer tuples, and `sim` gives each face's
  similarity to each gallery embedding.
- Base64 decoding of uploaded images: this is library code, modelled as a `decode` parameter
  that may fail.
- Locks, the thread pool and `asyncio` in the prediction service: concurrency is outside the
  model. The gallery cache and the one-time initialisation are modelled as sequential updates.
- Temporary directories, image files written to disk, `ProcessedImage` rows, the debug endpoints,
  and the exact JSON, template and message payloads: these are I/O and presentation. A response is
  reduced to its status and the data the properties talk about. A rendered page is reduced to its
  template and user group, and a flash message to an optional string.
- The clock: `now`, today's date, and the current year and month are parameters.
- The `departments`, `batches`, `subjects` and `post` handlers of `AttendanceFormAPIView`: these
  are plain ORM listings, and only the dispatch that reaches them is modelled.
- `AdvisorForm` and `save_model` of the advisor admin: form rendering and saving are left to the
  framework.
- Backup tooling: the `pg_dump` subprocess of `run_backup`, `check_backup_health` (modelled as a
  `healthy` parameter), `run_immediate_backup`, `main`, and the parsing of
  `BACKUP_RETENTION_DAYS` from the environment (a non-numeric value makes `int()` raise). These
  are process, file-system and environment I/O.
- The scheduler's exception handler and its five-minute sleep (backup_manager.py lines 246-248),
  and the one-minute sleep granularity: these are timing only.
- Backup.BackupManager.RunRounds: the endless `while self.running` loop is modelled over a finite sequence of
  rounds, each round giving the clock reading and whether a signal arrived. The cleanup of old
  logs is proved on its own and is not sequenced inside the loop model.
- Backup.NextBackupTime: both clock reads of `get_next_backup_time` use one `now`.
- ApiViews.TimeSlot: times of day are whole minutes since midnight rather than `time` objects.
- ProcessImages.LookupAgrees: describes the subject looked up by its unique code. As written,
  the lookup filters on a `batch` field that `Subject` lacks and answers 500 for every request
  past the batch lookup (ProcessImages.SubjectLookupRaises; see Findings).
- ProcessImages.ConsistentNo500: describes the view with the subject looked up by its code and
  the intended roster. As written, a consistent database still answers 500 past the batch lookup
  (the subject's `FieldError`), and for any request naming two or more sections (the roster's
  `NotSupportedError`, ProcessImages.RosterAsWrittenRaises).
- ProcessImages.OutcomeStatus: a report exactly when the checks and lookups pass holds for the
  corrected subject lookup and the intended roster. As written, the subject lookup answers 500,
  and so does any request naming two or more sections.
- ProcessImages.OutcomeReport: the report holds for the corrected subject lookup and the
  intended roster. As written, a request naming two or more sections answers 500 instead.
- ProcessImages.HandleProcessImages: the method follows ProcessImages.Outcome, with the
  corrected subject lookup and the intended roster. As written, the view answers 500 at the
  subject lookup, and for any request naming two or more sections.
- AdvisorScope.AssignedStudentsMembers and AdvisorScope.AssignedSectionsMembers: these describe
  the scopes the querysets are written to list. As written, `distinct()` after two `union()` calls
  raises `NotSupportedError`, which AdvisorScope.AssignedStudentsRaises and
  AdvisorScope.AssignedSectionsRaises state; see Findings.
- AdvisorAdmin.ScopingRules and AdvisorAdmin.AdvisorAttendance: an advisor's pages use the
  intended scopes. As written, they fail for the advisors the two `Raises` lemmas name.
- ApiViews.SectionStudentsFacts: `order_by('name')` sorts in the database's collation (the
  project uses MySQL, whose default collations ignore case). The model sorts by code point, so
  names differing in case may come out in another order.
- Submission.Submit: an entry's `is_present` is modelled as a boolean. The view takes whatever
  JSON value the client sends. A `null` makes `was_edited` true and then fails to save,
  answering 500 after the earlier rows are written. `0` and `1` compare equal to `false` and
  `true`. None of these cases is modelled.
- PyRuntime.ParseInt: only ASCII digits are accepted, while Python's `int()` also accepts other
  Unicode decimal digits. This affects `BACKUP_SCHEDULE` and the `batch_year` parameters.
- ProcessImages.Roster and ProcessImages.CollectRoster: the union of the section querysets is
  modelled as one filter of the students table, so each student appears once, in table order.
  As written, `distinct()` on a union of two or more section queries raises `NotSupportedError`,
  and the view answers 500 (ProcessImages.RosterAsWrittenRaises; see Findings).
- Submission.Submit: the view runs without a transaction, so when a duplicate submission raises
  part-way, the rows written before it stay. The model keeps those rows and answers 500; the
  exception's rollback behaviour under a database-level transaction is not modelled.
- ProcessImages.HandleProcessImages: the outer catch-all `except` is modelled for an unparsable
  number in the request and, in ProcessImages.LookupStatusAsWritten, for the subject lookup's
  `FieldError`; both answer 500. Other exceptions it would catch (I/O, library errors) are not.
- Student register numbers: the model keys a student by one register number throughout. The
  code reads a field `student_regno` (prediction_backend/views.py:352, 354, 374 and 438;
  prediction_backend/services.py:246, 309 and 444), while `Student` defines only
  `register_number` (core/models.py:155). As written, this has three effects. The student lookup
  at services.py:444 raises `FieldError`, which the photo's outer handler turns into no students
  for any photo with a recognised face. The section filter at services.py:246 raises inside its
  `try`, so the gallery comes back unfiltered, and the per-section queries at services.py:309
  each come back empty. Reading `student.student_regno` at views.py:352 and 438 raises
  `AttributeError`, so both views answer 500 once they reach a student row. None of these
  failures is modelled.
- ApiViews.SharedBatchYearFails: the batch-year lookup ignores the department, so two departments
  with a batch of the same year make the time-slot action answer 500. This lemma records that
  behaviour. It is not listed as a finding, because the data may never hold such a pair.

## Findings

| source | as written | input that shows it | evidently intended | confidence | as-written member | corrected member |
|---|---|---|---|---|---|---|
| core/api_views.py:30-34 | the `students` action calls `self.get_students`, which `AttendanceFormAPIView` does not define (the method is on `TimeBlocksAPIView`, line 218), so the request raises `AttributeError` and answers 500 | `?action=students&departments=CSE&batch_year=2022` | the students listing of the chosen departments and sections is returned | not executed | ApiViews.StudentsActionFails | ApiViews.DispatchFixedRoutes |
| prediction_backend/views.py:156 | `Subject.objects.get(subject_code=subject_code, batch=batch)` filters on `batch`, which `Subject` (core/models.py:120-135) does not have; the `FieldError` is not among the caught `DoesNotExist` errors, so the outer handler answers 500 | a well-formed request naming an existing department, batch and subject code | the session's subject is found by its unique code and the photos are processed | not executed | ProcessImages.SubjectLookupRaises | ProcessImages.LookupAgrees |
| advisor_dashboard/models.py:45-87 | the scopes are built as `none().union(a).union(b).distinct()`; Django refuses `distinct()` on a combined query with `NotSupportedError` | an advisor assigned both a section and a batch (students), or any two kinds of assignment (sections) | the union of the assigned students and sections is listed | not executed | AdvisorScope.AssignedStudentsRaises | AdvisorScope.AssignedStudentsMembers |
| prediction_backend/views.py:342 | the roster is built as `Student.objects.none()` with one `union()` per named section, then `distinct()`; on a union of two or more queries Django raises `NotSupportedError`, outside the inner `try`, and the outer handler answers 500 | a request whose sections read "CSE-A,CSE-B" | the students of all named sections are predicted | not executed | ProcessImages.RosterAsWrittenRaises | ProcessImages.RosterMembers |
