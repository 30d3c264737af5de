# Vehicle counter tracking core, modelled in Dafny

The program finds moving vehicles in a video and follows them from frame to
frame. For each pair of frames, OpenCV segmentation turns the motion into
convex hulls. Then `track2Frames` makes a candidate `Blob` from each hull and
admits it only when seven geometric thresholds hold.
`matchCurrentFrameBlobsToExistingBlobs` merges each admitted candidate into
the nearest tracked blob, or appends it as a new track, and then updates each
track's lifecycle counter. The text log writes one line per frame with the
index and box of every blob still being tracked, and the player reads those
lines back. For the database log, the program derives a table name from the
video path and looks the path up in `dbtables.txt`.

This project models that core:

- `geometry.dfy`: points, boxes, squared distances and the shoelace area.
- `blob.dfy`: the blob record.
- `admission.dfy`: the admission filter.
- `assignment.dfy`: the nearest-track scan, `updateExistingBlob`, `addNewBlob` and the greedy assignment.
- `lifecycle.dfy`: the lifecycle loop.
- `tracker.dfy`: the whole of `matchCurrentFrameBlobsToExistingBlobs` and `track2Frames`.
- `text.dfy`: what `<<` and `>>` on streams do with integers and words.
- `textlog.dfy`: the frame line writer, the player's parser and their round trip.
- `names.dfy`: the base name and table name derivation and `loggedTableName`.

The by-reference `std::vector<Blob>` is modelled as a value. Each method takes
the vector and returns the new one, so the loops of the source become `while`
loops over a `seq<Blob>`. Each method is proved equal to a specification
function, and the properties are lemmas about those functions.

Four behaviours of main.cpp that the model keeps as written:

- Predictions: main.cpp:330-333 predicts the next position of every track,
  tracked or not, not only of the active ones.
- Merges into one track: `updateExistingBlob` appends a center on every
  merge. When two candidates are nearest to the same track, the later
  merge's contour, box, diagonal and aspect ratio win, and both centers stay
  in the history.
- The counter: it rises when the blob WAS matched or created this frame
  (main.cpp:361-363). `addNewBlob` flags a track in the frame that creates
  it (main.cpp:383), so a track is retired in the fifth frame in which it is
  flagged, its creation frame included.
- The sentinel fallback: when no tracked track is nearer than 100000, index
  0 is kept. A large candidate then merges into track 0 even when track 0 is
  retired, and indexes an empty vector out of range. That case is the
  `IndexOutOfRange` outcome.

Doubles are modelled exactly, apart from the aspect-ratio case under "## Left out":

- `dblCurrentDiagonalSize` is kept as its square. Distances are squared and
  the 100000.0 sentinel becomes 10^10. The test
  `leastDistance < diagonal * 0.5` becomes `4 * leastSq < diagonalSq`, and
  `Assignment.MergeTestOnRoots` proves the two equivalent on exact roots.
- The aspect ratio is a `real`, and the thresholds are exact rationals.

## Model

| member | source | states |
|---|---|---|
| Geometry.DistanceSq | main.cpp:388-393 | the squared distance is non-negative and zero exactly for equal points |
| Geometry.DistanceSqSymmetric | main.cpp:388-393 | the distance does not depend on the order of the two points |
| Geometry.HalfComparison | main.cpp:351 | for non-negative reals, d < D * 0.5 exactly when 4 d^2 < D^2 |
| Geometry.BoxContourArea | main.cpp:316 | the shoelace area of a box outline equals the box area, so solidity 1 |
| Admission.DiagonalTestOnRoots | main.cpp:315 | `diagonal > 256.0` on the root is exactly `diagonalSq > 65536` on the square |
| Admission.Admissible | main.cpp:310-316 | defines admission: all seven tests of the source, with the diagonal kept as its square (`Admission.DiagonalTestOnRoots`) and the aspect ratio as an exact real; `Admission.AdmissibleIffIntegerTest` states what it means on a box |
| Admission.AdmissibleIffIntegerTest | main.cpp:310-316 | for a blob whose diagonal and aspect come from its box, admission holds iff area > 32000, 5w > 6h, w < 4h, w > 128, h > 128, w^2+h^2 > 65536 and twice the contour area exceeds w*h |
| Admission.SmallBoxNeverAdmitted | main.cpp:310 | a box of area at most 32000 (such as 100x100) is never admitted |
| Admission.FullBoxAdmitted | main.cpp:310-316 | a 300x200 box with its own outline as the contour is admitted |
| Admission.Candidates | main.cpp:307-308 | one candidate per hull, in hull order, each built by the Blob constructor |
| Admission.AdmittedAtIndices | main.cpp:307-319 | the k-th admitted blob is the blob at the k-th admitted position |
| Admission.AdmittedIndicesIncreasing | main.cpp:307-319 | the admitted positions are strictly increasing positions of the input |
| Admission.AdmittedIndicesExactly | main.cpp:309-317 | a position is admitted exactly when its blob passes all seven thresholds |
| Admission.AdmittedIsOrderedSelection | main.cpp:307-319 | the admitted blobs are exactly the admissible candidates, in hull order |
| Admission.AdmittedAreAdmissible | main.cpp:309-317 | every admitted blob passes the thresholds, and no more blobs come out than went in |
| Admission.AdmitCandidates | main.cpp:307-319 | the loop's `curFrameBlobs` is the ordered selection of admissible candidates |
| Assignment.ResetAll | main.cpp:330-333 | every track is reset and given its new prediction, and the length is kept |
| Assignment.ResetClearsFlags | main.cpp:330-333 | after the reset every flag is false and only the prediction has changed |
| Assignment.ResetTracks | main.cpp:330-333 | the first loop computes exactly `ResetAll` |
| Assignment.NearestActiveIsNearest | main.cpp:336-349 | the scan's index is a tracked track at minimal distance, and every earlier tracked track is strictly farther; with nothing within the sentinel it is (0, sentinel) |
| Assignment.NearestUnique | main.cpp:336-349 | at most one index and distance satisfy the nearest-track specification |
| Assignment.NearestTieBreak | main.cpp:344 | of two tracked tracks at equal distance, the later one is never chosen |
| Assignment.FindNearest | main.cpp:336-349 | the index loop returns the nearest tracked track as specified |
| Assignment.UpdateExistingBlob | main.cpp:371-379 | the target takes the candidate's contour, box, diagonal and aspect, gains exactly one center after its old history, becomes tracked and flagged; its counter, its prediction and every other track are unchanged |
| Assignment.AddNewBlob | main.cpp:382-385 | the candidate, flagged, is appended after the unchanged old tracks |
| Assignment.MergeTestOnRoots | main.cpp:351 | on exact roots, `leastDistance < diagonal * 0.5` holds exactly when `4 * leastSq < diagonalSq` |
| Assignment.Assign | main.cpp:336-356 | one candidate against the vector as it stands: the scan for the nearest tracked track, then a merge or an append; the vector grows by at most one, and an out-of-range index arises only on an empty vector |
| Assignment.AssignAll | main.cpp:335-358 | the candidates in order, each against the vector the earlier ones left, stopping at an out-of-range index; on success the vector grows by at most the number of candidates |
| Assignment.AssignDecision | main.cpp:351-356 | against the nearest track as specified, a candidate merges iff 4 leastSq < diagonalSq, which keeps the length; otherwise it is appended; an out-of-range index arises only on an empty vector |
| Assignment.MergeThreshold | main.cpp:351-356 | with diagonal 300, a candidate 140 from the only track merges and one 160 away is appended |
| Assignment.SentinelFallback | main.cpp:336-353 | with nothing within the sentinel and a diagonal above 200000, the merge goes to track 0 whatever its state, or out of range on an empty vector |
| Assignment.NearestInRange | main.cpp:336-349 | on a non-empty vector the chosen index is in range |
| Assignment.AssignAllFailsIff | main.cpp:335-358 | the out-of-range case happens exactly when the vector is empty and the first candidate takes the sentinel fallback |
| Assignment.EvolvesTransitive | main.cpp:335-358 | the per-candidate relation between vectors composes |
| Assignment.AssignEvolves | main.cpp:351-356 | one candidate grows the vector by at most one and only extends histories of flagged tracks |
| Assignment.AssignAllShape | main.cpp:335-358 | over all candidates the vector never shrinks and grows by at most one per candidate; histories extend; starting with all flags false, a track is flagged exactly when its history grew and is untouched otherwise; appended tracks are flagged |
| Assignment.TotalHistoryUpdate | main.cpp:374 | replacing one track changes the total history by the difference of their lengths |
| Assignment.TotalHistoryAppend | main.cpp:384 | appending a track adds its history to the total |
| Assignment.AssignRecordsCandidate | main.cpp:351-356 | one candidate with one center adds exactly one recorded center, whether merged or appended |
| Assignment.AssignAllLength | main.cpp:335-358 | the vector ends exactly one track longer per candidate that failed the merge test against its nearest track (`Assignment.Unmerged`, at most the number of candidates) |
| Assignment.AssignAllRecordsEveryCandidate | main.cpp:335-358 | no candidate is lost: the total history grows by exactly the number of candidates |
| Lifecycle.Age | main.cpp:361-366 | the counter rises by one iff the flag is set, never falls, and the track stays tracked iff it was and the counter is below 5; nothing else changes |
| Lifecycle.AgeAll | main.cpp:360-367 | every track is aged and the length is kept |
| Lifecycle.AgeTracks | main.cpp:360-367 | the last loop computes exactly `AgeAll` |
| Lifecycle.AgeAllEffect | main.cpp:360-367 | flagged tracks gain exactly one count and others none; a count of 5 or more means not tracked; no track is brought back; histories and flags are kept |
| Lifecycle.RetiredByFifthMatch | main.cpp:361-366 | a track matched in n frames from count 0 has count n and is still tracked iff n < 5, so it is retired on the fifth match |
| Tracker.MatchCurrentFrameBlobsToExistingBlobs | main.cpp:329-368 | the three loops compute the reset, the greedy assignment and the aging, in that order, or report the out-of-range index |
| Tracker.AdmittedSeeded | main.cpp:307-319 | admitted candidates all have a last center |
| Tracker.Track2Frames | main.cpp:307-325 | the admission filter followed by the matching of the admitted blobs |
| Tracker.FrameEffect | main.cpp:329-368 | for a whole frame: bounds on growth; histories extend; a track is flagged iff its history grew, then its counter rose by one; unflagged tracks only got a new prediction and aging; appended tracks are flagged; no track with count 5 or more is tracked |
| Tracker.AssignAllKeepsRetiredCount | main.cpp:335-358 | the assignment keeps "every untracked track has count 5 or more" |
| Tracker.RetiredStayRetired | main.cpp:329-368 | a retired track stays retired across a frame, even when the fallback merges into it, and the invariant carries to the next frame |
| Text.NatToStringDigits | main.cpp:398-401 | a non-negative integer is written as decimal digits |
| Text.IntToStringIsWord | main.cpp:398-401 | `<<` of an integer writes one word that starts with a digit or '-' |
| Text.NatToStringValue | main.cpp:398-401 | the digits written denote the number |
| Text.ReadIntOf | main.cpp:425-427 | `>>` reads back the integer `<<` wrote, up to the next non-digit |
| Text.ReadIntSkipsSpace | main.cpp:425-427 | `>>` skips leading white space |
| Text.TokensAreWords | main.cpp:519 | every token read into a string is a non-empty run without white space |
| Text.TokensOfTwoWords | main.cpp:519 | "a b", as main.cpp:107 writes it, reads as the two tokens a and b |
| TextLog.ActiveRecordsSound | main.cpp:397-403 | every logged record is a tracked blob with its own index and box |
| TextLog.ActiveRecordsIncreasing | main.cpp:397-403 | the records come in strictly increasing index order |
| TextLog.ActiveRecordsComplete | main.cpp:397-403 | every tracked blob is logged |
| TextLog.ActiveRecordsExactly | main.cpp:397-403 | the three statements above, together |
| TextLog.RecordsTextAppend | main.cpp:397-403 | the text of one more record is appended after the earlier ones |
| TextLog.FrameLine | main.cpp:396-406 | the line for one frame: the frame number written at main.cpp:186-187, then "i x y w h " for each tracked blob; `TextLog.LogRoundTrip` is what it means for the reader |
| TextLog.Log2FramesTxt | main.cpp:396-406 | the loop writes the records of exactly the tracked blobs, then the newline |
| TextLog.ParseRecords | main.cpp:426-430 | `while (ss >> blob) ss >> x >> y >> width >> height`: the records of a line until `>>` fails on an index, or None for a record cut short; `TextLog.ParseRecordsText` is its round trip |
| TextLog.ReadBoxOf | main.cpp:427 | the four box fields are read back as written |
| TextLog.ReadRecord | main.cpp:426 | the blob index of a record is read back as written |
| TextLog.ParseRecordsCons | main.cpp:426-427 | a whole record is read, and reading goes on after it |
| TextLog.ParseRecordsText | main.cpp:426-427 | the records written are read back, all of them and in order |
| TextLog.ParseLine | main.cpp:423-431 | the player's reading of one line: the frame number, then the records; `TextLog.LogRoundTrip` is its round trip |
| TextLog.LogRoundTrip | main.cpp:423-431 | the player reads back, from the line written for frame n (main.cpp:186-187 and 396-406), n and the index and box of exactly the tracked blobs in increasing index order |
| TextLog.FrameTextIsOneLine | main.cpp:186-187 | what one frame writes is its line and the newline of main.cpp:405, with no other newline, so getline returns exactly that line |
| Names.LastIndexOf | main.cpp:89 | `find_last_of`: the last position of the character, or -1 for npos |
| Names.BaseName | main.cpp:89-92 | the longest suffix of the path without '/' |
| Names.StripExtension | main.cpp:90-93 | a prefix that stops at the last '.', or the whole string without one |
| Names.DeriveNames | main.cpp:89-94 | the path becomes its base name and the name is that base name without its extension |
| Names.BaseNameIdempotent | main.cpp:89-92 | a base name is its own base name |
| Names.DeriveNamesStable | main.cpp:89-94 | deriving again from the overwritten path changes nothing, and neither result holds '/' |
| Names.DeriveNamesWithDirectory | main.cpp:91-94 | "videos/cars.mp4" gives path "cars.mp4" and name "cars" |
| Names.DeriveNamesBare | main.cpp:89-90 | "highway.avi" keeps its path and gives name "highway" |
| Names.DeriveNamesDotInDirectory | main.cpp:91-94 | an example: in a path whose only '.' lies in a directory, that '.' is not taken for an extension |
| Names.ReplaceSpaces | main.cpp:97 | each ' ' becomes '_' and every other character stays in place |
| Names.TableName | main.cpp:96-98 | "TABLE_" followed by the name with every space replaced by '_' (`Names.ReplaceSpaces`), six characters longer, with no space |
| Names.TableNameInjectiveWithoutSpaces | main.cpp:96-98 | names without spaces get distinct tables |
| Names.TableNameCollision | main.cpp:96-98 | "a b" and "a_b" get the same table |
| Names.LoggedTableName | main.cpp:515-525 | the loop with its early return computes the lookup over the file's lines |
| Names.LookupWellFormed | main.cpp:515-525 | when every line has two tokens: the second token of the first line whose first token is the path, or "" when none is |
| Names.LookupAbsent | main.cpp:515-525 | on any file, whatever its lines hold: a non-empty path that is the first token of no line is not found, and the result is "" |
| Names.StaleSecondToken | main.cpp:516-519 | an example: in the file ["a b", "c"], looking up "c" gives "b", because the one-token line keeps the previous second token |
| Names.SpacedKeyNeverFound | main.cpp:515-525 | a path holding white space is never found |
| Names.LookupFromAppend | main.cpp:517-523 | lines after the first ones matter only when those did not return |
| Names.Register | main.cpp:103-108 | appends "path table" only when the lookup found nothing; the old lines are kept as a prefix and at most one line is added |
| Names.RegisteredTableFound | main.cpp:103-108 | a path not found before is found with its table once its line is written, and a second registration appends nothing |
| Names.SpacedPathRegisteredAgain | main.cpp:103-108 | a path holding a space gets its line appended again at every registration |

## Left out

- Segmentation: the OpenCV steps that produce the convex hulls (main.cpp:277-302) are library calls, so the hulls are an input.
- The `Blob(contour)` constructor and `predictNextPosition`: they live in Blob.cpp, which is not part of this model. They are the parameters `newBlob` and `predict`.
- Assumptions on the constructor: the lemmas take as preconditions what Blob.cpp is expected to do. Every new blob has a center (`Tracker.Track2Frames` requires `Seeded`). It has exactly one center (`Assignment.AssignAllRecordsEveryCandidate`). It is tracked (`Tracker.RetiredStayRetired`). Its diagonal and aspect ratio come from its box (`Admission.AdmissibleIffIntegerTest` requires `DerivedFromBox`). Its counter starts at 0. `Lifecycle.RetiredByFifthMatch` is stated for any starting count, and only a start at 0 makes a track retire in the fifth frame in which it is flagged.
- `cv::contourArea`: modelled by the shoelace formula on the hull's points. This is an assumption about the library.
- Floating point: admission, distances and the merge test are exact. One boundary case is left out: every box with 5 * width == 6 * height (240x200, for one) has aspect ratio exactly 6/5, and the model rejects it. main.cpp:311 compares against the double 1.2. If the constructor in Blob.cpp computes the ratio with float division, the value can come out above the double 1.2, and the source may then admit such a box.
- Square roots: `sqrt` in `distanceBetweenPoints` is not modelled. The model compares squares, and `Assignment.MergeTestOnRoots` and `Admission.DiagonalTestOnRoots` prove that this equals the test on exact roots. A rounded double `sqrt` that makes two different squared distances tie is not modelled.
- Integer width: `int` coordinates and counters are unbounded. Overflow of the frame counter or of pixel arithmetic is not modelled.
- Aliasing of the vector: `std::vector<Blob>&` is passed by value in and out. The source never aliases it.
- Streams and files: opening, `mkdir` and `getline` are left out. The file is given as its sequence of lines, and the text writer returns the string it writes.
- Names.Register: the record is added as a new line. main.cpp:106-107 appends `path << " " << tableName << std::endl` at the end of the file without writing a newline first, so a dbtables.txt whose last line lacks '\n' would get the record stuck to that line. The model assumes the file is empty or ends in a newline, as every record the program itself appends does.
- Names.RegisteredTableFound: it holds of the source under the same assumption: dbtables.txt is empty or ends in a newline before the registration.
- Appending to `dbtables.txt` only when the file already exists (main.cpp:101-110): I/O, not modelled. `Names.Register` assumes the file exists.
- TextLog.ParseRecords: a record cut short after its index is reported as `None`. The source instead draws a box from whatever `>>` left in x, y, width and height.
- TextLog.ParseLine: a line with no readable frame number is reported as `None`. In the source the failed `ss >> frameNumber` (main.cpp:425) leaves the stream failed, so `while (ss >> blob)` reads nothing and the frame is shown with no boxes.
- PostgreSQL logging and playback (main.cpp:208-268, 455-512): external services, not modelled.
- Playback rendering, key handling and font scaling (main.cpp:411-452): user interface and floating point, not modelled.
- The interactive menu (main.cpp:43-163): not modelled, apart from the name derivation and the table lookup.
