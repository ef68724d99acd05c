# hydrawlics-webui core, modelled in Dafny

This project models the sequential logic of the hydrawlics web UI back end.
The back end turns an uploaded image into an edge map and polygon outlines,
and talks to the plotter over a serial line. Four pieces are modelled:

- **Edge thinning and thresholding** (`Canny_detector`, module `Canny`,
  `canny.dfy`):
  - the weak and strong thresholds taken from the largest gradient magnitude;
  - folding each gradient angle and sorting it into one of four axes;
  - non-maximum suppression done in place on an `array2<real>`, column by
    column;
  - the pass that zeroes every magnitude below the weak threshold.

  The suppression loop is proved against a closed-form description,
  `Suppressed`. Each pixel is compared with the *final* value of its first
  neighbour, which was visited earlier and may already be zeroed, and with
  the *original* value of its second neighbour. `SuppressedUnique` shows that
  this description fixes the result.
- **Serial transfer** (`arduino_interface.py`, module `ArduinoSerial`,
  `arduino.dfy`, with `utf8.dfy` and `pytext.dfy`):
  - the XOR checksum;
  - the `Connected` handshake;
  - `send_gcode`, which strips, encodes, frames with a NUL byte and writes
    the text, scans the response lines for `OK`, and compares the returned
    checksum.

  The port is a `Port` object. It holds a queue of the lines the plotter
  will send, where an empty line is a read that timed out, and a log of the
  bytes written. UTF-8 follows table 3-7 of the Unicode standard. `strip`,
  `split` and `int()` are modelled on Python's string semantics.
- **Job records** (`main.py`, module `Jobs`, `jobs.dfy`):
  - the `allowed_file` filter;
  - the record `handle_upload` creates;
  - every field assignment of the `apply_edge_detection` worker, including
    the states a concurrent poll could observe between them;
  - the answers of `get_job_status`, `download_result` and `list_jobs`.

  A dictionary lookup of a missing key raises `KeyError`, which the server
  answers with 500. The model makes that answer an explicit `InternalError`
  reply.
- **Contour flattening** (`coordinates.py`, module `Coordinates`,
  `coordinates.dfy`): the nested loop that turns the simplified polygons
  into `(ID, X, Y)` rows. Ids count from 0, and each point's pair is
  swapped. Two plain definitions carry no contract of their own:
  `Simplified` applies the approximation to every contour at its tolerance,
  and `PolygonRows` makes one row per point of a polygon. `Flatten`,
  `RowAt` and the other lemmas are stated against them.

`results.dfy` holds the `Option` and `Result` types.

Some behaviours of the code that the model keeps exactly:

- The handshake reads one line and accepts only the stripped text
  `Connected` (arduino_interface.py:46-48).
- `OK` is matched case-sensitively (arduino_interface.py:81).
- Each transfer ends with a NUL byte, not a newline
  (arduino_interface.py:69).
- The returned checksum is the last token after splitting on single spaces
  (arduino_interface.py:84-87).
- A timeout is not a separate failure. It reads as checksum −1 and is
  reported as a mismatch (arduino_interface.py:76-96).
- The worker's progress checkpoints are 10, 30, 50, 80 and 100
  (main.py:39-61).
- The suppression loop compares each pixel with its first neighbour's
  already-suppressed value (CannyEdge.py:30-59). A survivor can therefore be
  below that neighbour's original value.
  `Canny.SequentialSuppressionExample` shows such a case.

## Model

| member | source | states |
|---|---|---|
| Canny.Thresholds | CannyEdge.py:25-28 | weak = 0.1·max and strong = 0.5·max; for max ≥ 0, 0 ≤ weak ≤ strong ≤ max, and both are 0 when max is 0 |
| Canny.Fold | CannyEdge.py:32-34 | the folded angle is never negative; an angle in [0,180] is kept, and one in (180,360) becomes angle−180 < 180 |
| Canny.FoldRange | CannyEdge.py:32-34 | every angle in [0,360) folds into [0,180] |
| Canny.AxisOf | CannyEdge.py:36-50 | definition of the angle buckets (0–22.5 and above 157.5 horizontal, then diagonal, vertical, anti-diagonal); `Neighbours`, `NeighboursGeometry` and `OppositeDirectionsShareAxis` state its properties |
| Canny.Neighbours | CannyEdge.py:36-50 | neighbour 1 of every axis is visited before the pixel and neighbour 2 after it, in the x-outer, y-inner order |
| Canny.NeighboursGeometry | CannyEdge.py:36-50 | the two neighbours mirror each other about the pixel, one step away, along the axis of the angle bucket |
| Canny.OppositeDirectionsShareAxis | CannyEdge.py:32-50 | angles half a turn apart are sorted into the same axis |
| Canny.SuppressPixel | CannyEdge.py:52-59 | the pixel becomes 0 or keeps its value; it keeps it exactly when it is 0 or no in-grid neighbour is larger, so a neighbour outside the grid is never compared |
| Canny.SuppressedSurvivor | CannyEdge.py:52-59 | after suppression each entry is 0 or its original value; a survivor is at least its neighbour 1's final value and its neighbour 2's original value |
| Canny.SuppressedUnique | CannyEdge.py:30-59 | the suppression description determines the whole result grid |
| Canny.SequentialSuppressionExample | CannyEdge.py:30-59 | row 3,2,1 with horizontal gradients gives 3,0,1: the last pixel is compared with the already-zeroed middle pixel |
| Canny.SuppressAt | CannyEdge.py:32-59 | one visit keeps the loop state: the pixels visited so far, now including this one, hold their suppression result, and the others their original values |
| Canny.SuppressNonMaxima | CannyEdge.py:30-59 | the in-place loop nest leaves exactly the suppression result of the original magnitudes |
| Canny.Threshold | CannyEdge.py:64-66 | the result is 0 or ≥ weak, is 0 or the input, and an input ≥ weak passes unchanged |
| Canny.Classify | CannyEdge.py:64-70 | definition of the `ids` classes; `ClassifyByThresholds` states them as threshold ranges |
| Canny.ClassifyByThresholds | CannyEdge.py:64-70 | the `ids` class is strong iff v ≥ strong, weak iff weak ≤ v < strong, and none iff v < weak; classified values are not changed |
| Canny.ApplyThreshold | CannyEdge.py:61-70 | every magnitude becomes its thresholded value; `ids` does not reach the caller |
| Canny.MaxMagnitude | CannyEdge.py:25 | the result is one of the entries and no entry exceeds it |
| Canny.Detect | CannyEdge.py:21-71 | an empty field is refused and left alone; otherwise the result is the thresholded suppression result, every entry is 0 or its input, and every survivor is ≥ weak |
| ArduinoSerial.Checksum | arduino_interface.py:34-38 | definition of the checksum as the left-to-right XOR fold of the bytes; `ComputeChecksum` is proved equal to it, and `ChecksumIsByte`, `ChecksumAppend`, `ChecksumPermutation` and `ChecksumDetectsOneByte` state its properties |
| ArduinoSerial.ComputeChecksum | arduino_interface.py:34-38 | the loop computes the XOR of all bytes; it is 0 for no bytes and below 256 |
| ArduinoSerial.ChecksumIsByte | arduino_interface.py:34-38 | the checksum of bytes is in [0,255] |
| ArduinoSerial.ChecksumAppend | arduino_interface.py:36-37 | checksum(a+b) = checksum(a) XOR checksum(b) |
| ArduinoSerial.ChecksumPermutation | arduino_interface.py:36-37 | reordering the bytes leaves the checksum unchanged |
| ArduinoSerial.ChecksumDetectsOneByte | arduino_interface.py:34-38 | changing any single byte changes the checksum |
| ArduinoSerial.Xor | arduino_interface.py:37 | definition of Python's `^` on non-negative integers, bit by bit from the lowest; `XorAssociates`, `XorCommutes`, `XorCancels` and `XorBelow` state its properties |
| ArduinoSerial.XorAssociates | arduino_interface.py:37 | Python's `^` on non-negative integers is associative |
| ArduinoSerial.XorCommutes | arduino_interface.py:37 | `^` is commutative |
| ArduinoSerial.XorCancels | arduino_interface.py:37 | a ^ b = a ^ c implies b = c |
| ArduinoSerial.XorBelow | arduino_interface.py:37 | `^` of two values below 2^n stays below 2^n |
| ArduinoSerial.Handshake | arduino_interface.py:46-52 | definition of the handshake on one line: a decode error, acceptance of `Connected`, or not connected; `HandshakeOnText` and the lemmas after it state its properties |
| ArduinoSerial.HandshakeOnText | arduino_interface.py:46-52 | the handshake succeeds iff the line, decoded and stripped, is exactly `Connected`; otherwise it fails as not connected |
| ArduinoSerial.HandshakeAcceptsPadded | arduino_interface.py:46-48 | `Connected` with any surrounding white space is accepted |
| ArduinoSerial.HandshakeTimeout | arduino_interface.py:46-52 | an empty read is refused |
| ArduinoSerial.HandshakeCaseSensitive | arduino_interface.py:48 | `connected` in lower case is refused |
| ArduinoSerial.Port.ReadLine | arduino_interface.py:46 | returns the next queued line, or the empty line of a timeout, removes it from the queue, and writes nothing |
| ArduinoSerial.Port.Write | arduino_interface.py:69 | appends exactly the given bytes to the written log and leaves the queue alone |
| ArduinoSerial.ArduinoInterface.Connect | arduino_interface.py:41-52 | reads one line; the object is created iff the handshake accepts it, and otherwise the handshake's error is returned |
| ArduinoSerial.Frame | arduino_interface.py:58-69 | the bytes written are the payload plus one final NUL |
| ArduinoSerial.FrameTerminatorUnique | arduino_interface.py:58-69 | the final NUL is the only NUL in the frame iff the stripped text holds no U+0000 |
| ArduinoSerial.ScanResponse | arduino_interface.py:76-82 | the scan ends on a timeout or on a decodable line whose stripped text starts with `OK`; it never consumes more lines than exist |
| ArduinoSerial.SendOnAck | arduino_interface.py:81-93 | a decodable line whose stripped text starts with `OK` ends the scan, consumes only itself, and its last token is compared with the local checksum |
| ArduinoSerial.SendWarnsOnSize | arduino_interface.py:59-67 | on every path, an undecodable response included, the report gives the payload size, the warning iff the payload exceeds 4000 bytes, and the local checksum, which is below 256 |
| ArduinoSerial.ParseChecksum | arduino_interface.py:83-91 | definition of the received checksum: the last of several space-separated tokens read as an integer, else −1; `ParseChecksumLastToken` and `ParseAck` state its properties |
| ArduinoSerial.Reply | arduino_interface.py:59-96 | definition of the report from a finished scan: size, warning and local checksum always, then the compared acknowledgement or the scan's error; `SendGcode` is proved to return it |
| ArduinoSerial.SendOutcome | arduino_interface.py:54-96 | definition of the report and the unread lines for a queue of incoming lines; the `Send…` lemmas state its cases |
| ArduinoSerial.ParseAck | arduino_interface.py:83-91 | an `OK n` line starts with `OK` and reads back as n |
| ArduinoSerial.ParseChecksumLastToken | arduino_interface.py:83-91 | the received checksum is the integer after the last space |
| ArduinoSerial.SendAcknowledged | arduino_interface.py:74-96 | an acknowledgement that echoes the local checksum is reported as a match and consumes only that line |
| ArduinoSerial.SendMismatch | arduino_interface.py:83-96 | an acknowledgement with any other number is reported as a mismatch, not raised |
| ArduinoSerial.SendTimeout | arduino_interface.py:76-93 | a timeout, or no lines at all, gives −1 and a mismatch |
| ArduinoSerial.SendBareOk | arduino_interface.py:81-93 | a bare `OK` gives −1 and a mismatch |
| ArduinoSerial.SendSkipsChatter | arduino_interface.py:76-82 | a non-empty line that does not start with `OK` is skipped |
| ArduinoSerial.ArduinoInterface.ReadResponse | arduino_interface.py:76-82 | the read loop ends as the response scan does and consumes the same lines, writing nothing |
| ArduinoSerial.ArduinoInterface.SendGcode | arduino_interface.py:54-96 | writes exactly the frame; the report and the unread lines are those of the response scan; only an undecodable line makes the response a failure, and the size, warning and local checksum are reported even then |
| Utf8.DecodeEncode | arduino_interface.py:59 | strict UTF-8 decoding undoes encoding |
| Utf8.EncodeChar | arduino_interface.py:59 | each character takes 1 to 4 bytes, one byte exactly for ASCII, with continuation bytes after the first |
| Utf8.EncodeAppend | arduino_interface.py:59 | encoding distributes over concatenation |
| Utf8.EncodeZeroIff | arduino_interface.py:69 | an encoding holds a zero byte iff the text holds U+0000 |
| PyText.TrimStartSpec | arduino_interface.py:48 | dropping leading white space keeps a suffix that does not start with white space, and everything dropped is white space |
| PyText.TrimEndSpec | arduino_interface.py:48 | dropping trailing white space keeps a prefix that does not end with white space, and everything dropped is white space |
| PyText.StripUnpadded | arduino_interface.py:48 | the stripped text neither starts nor ends with white space and is no longer than the input |
| PyText.StripDropsSpace | arduino_interface.py:48 | the stripped text is a contiguous piece of the input with only white space before and after it |
| PyText.StripPadded | arduino_interface.py:48 | stripping removes exactly the white space around an unpadded text |
| PyText.Split | arduino_interface.py:84 | there are several pieces iff the text holds the separator, and no piece holds it |
| PyText.SplitNone | arduino_interface.py:84-85 | text without the separator splits into itself alone |
| PyText.SplitLast | arduino_interface.py:84-87 | the last piece of `head + sep + tail` is `tail` when `tail` has no separator |
| PyText.ParseInt | arduino_interface.py:87 | a parsed value comes from text starting with a digit or a sign |
| PyText.ParseShowNat | arduino_interface.py:87 | the decimal text of n reads back as n |
| Jobs.AllowedFile | main.py:32-33 | definition of the filter: a dot, and the lower-cased text after the last dot in the allowed set; `AllowedFileExtension` and the lemmas after it state its properties |
| Jobs.AllowedFileExtension | main.py:30-33 | a name is allowed iff the lower-cased text after its last dot is one of png, jpg, jpeg, gif, bmp, tiff |
| Jobs.AllowedFileNeedsDot | main.py:33 | a name without a dot, such as `png`, is refused |
| Jobs.AllowedFileIgnoresCase | main.py:33 | extensions that differ only in letter case are treated alike |
| Jobs.AllowedFileTrailingDot | main.py:33 | a name ending in a dot, such as `x.`, is refused |
| Jobs.UploadRefusal | main.py:80-88 | a request is refused iff the file is missing, its name is empty, or its type is not allowed |
| Jobs.NewJob | main.py:91-108 | a new record is queued at progress 0 with the upload and output paths built from the id and the name, and it is well formed |
| Jobs.JobStore.HandleUpload | main.py:78-119 | a refused upload changes nothing; an accepted one stores the new record under the id and starts the worker on `exampleout.jpg` |
| Jobs.WorkerWrites | main.py:39-70 | definition of the worker's field assignments, in order, for a run without a fault or failing at one stage; `ApplyEdgeDetection` is proved to perform them, and the `Worker…` lemmas state their properties |
| Jobs.WorkerProgressValues | main.py:39-61 | the progress writes are 10, 30, 50, 80, 100 on success and stop at the last checkpoint before the failing step |
| Jobs.WorkerProgressRises | main.py:39-61 | the progress written only rises, through a prefix of 10, 30, 50, 80, 100 |
| Jobs.WorkerSucceeds | main.py:39-65 | a run without a fault ends completed at 100 with result path and completion time set, and the record is well formed |
| Jobs.WorkerFails | main.py:67-70 | a failed run ends failed with the message and a completion time, at the last checkpoint reached, with no result path |
| Jobs.CompletedBeforeTimestamp | main.py:63-65 | a fresh job passes through a state that is completed but has no completion time, and a status poll then gets 500 |
| Jobs.JobStore.ApplyEdgeDetection | main.py:35-70 | the record receives exactly the worker's writes in order, and every intermediate state is logged; an unknown id changes nothing |
| Jobs.JobStore.RecordDetection | main.py:49-65 | past reading the image, the record receives the rest of the worker's writes, the failure block included when detection or writing fails |
| Jobs.JobStore.RecordSuccess | main.py:59-65 | a run without a fault ends with progress 80 and 100, the completed status, the result path and the time, each logged |
| Jobs.JobStore.RecordFailure | main.py:67-70 | a failed run ends with the failed status, the message and the time, each logged |
| Jobs.GetJobStatus | main.py:122-142 | 404 iff the id is unknown; a report has a download URL iff completed, an error iff failed, and a completion time iff finished |
| Jobs.StatusOfWellFormed | main.py:124-140 | a well-formed record is always reported, never answered with 500 |
| Jobs.DownloadResult | main.py:145-161 | 404 for an unknown id and 400 unless completed; a file is sent only for a completed job whose result file exists, named `edges_` plus the original name |
| Jobs.DownloadOfCompleted | main.py:151-161 | a well-formed completed job is served iff its result file exists, and otherwise gets 404 |
| Jobs.JobStore.ListJobs | main.py:164-172 | one summary per job, in insertion order |
| Jobs.ListedOnce | main.py:164-172 | every stored job is listed, and no id is listed twice |
| Jobs.UploadThenDownload | main.py:111 | an accepted upload whose worker succeeds offers a download, which serves `exampleout.jpg` under `edges_` plus the name |
| Coordinates.Flatten | coordinates.py:8-31 | the loop builds the table with columns ID, X, Y whose rows are those of the simplified contours numbered from 0 |
| Coordinates.Tolerance | coordinates.py:16 | the tolerance is 0.0005 of the perimeter, between 0 and the perimeter |
| Coordinates.Rows | coordinates.py:26-29 | definition of the table rows: the rows of each polygon in order, ids counting up from `first`; `RowCount`, `RowAt`, `RowIds` and `RowIdsSorted` state its properties |
| Coordinates.RowCount | coordinates.py:20-27 | the number of rows is the total number of simplified points |
| Coordinates.RowAt | coordinates.py:13-29 | point j of polygon k is row offset(k)+j, with id k and (x, y) = (point[1], point[0]) |
| Coordinates.RowIds | coordinates.py:9-29 | every id lies in [0, number of contours) |
| Coordinates.RowIdsSorted | coordinates.py:13-29 | ids never decrease along the table, so each polygon forms one block |

## Left out

- Floating point: magnitudes, angles and tolerances are `real`, so there is no rounding and no NaN. The grayscale conversion, Sobel and Cartesian-to-polar steps (CannyEdge.py:15-19) are library calls; `mag` and `ang` are inputs.
- The module-level `imread` of a fixed Windows path (CannyEdge.py:6-12) and the commented-out plotting block are not modelled.
- Canny.Detect: for an empty field `np.max` raises `ValueError`; the model returns `false` and leaves the field unchanged instead of modelling the exception.
- The pyserial port itself is not modelled: opening `/dev/ttyACM0` at 115200 baud, `sleep`, `flush` and the two-second read timeout. A timeout is an empty line in the queue, and an exhausted queue keeps timing out.
- Console output (`print`, ANSI colours) is not modelled; what `send_gcode` prints is returned as a `Report`. The `First 50 bytes` line and each `Received:` line are not part of it.
- ArduinoSerial.ComputeChecksum: only byte input is modelled. Passing a `str`, as the type hint allows, raises `TypeError` at `csum ^= c`.
- PyText.ParseInt: Python's `int()` also accepts surrounding white space, underscores between digits and non-ASCII decimal digits; the model accepts an optional sign followed by ASCII digits. A last token that only Python accepts reads as −1 here.
- Jobs.AllowedFile: `str.lower` is modelled on ASCII letters only. Only two non-ASCII characters lower-case to ASCII letters: U+212A becomes `k`, and U+0130 becomes `i` followed by the combining dot U+0307. No extension of the six holds a `k`, and the combining dot leaves no extension intact, so the verdict is the same.
- Text with lone surrogates: a Python `str` can hold a lone surrogate, and then `gcode.strip().encode('utf-8')` (arduino_interface.py:59) raises `UnicodeEncodeError`. A Dafny `char` is a Unicode scalar value and cannot hold one, so that error path is not modelled.
- Flask routing, CORS, JSON encoding, `file.save`, `send_file` and the 16 MB request limit are not modelled; replies are datatypes with their status codes.
- `uuid4`, `datetime.now`, `secure_filename` and `os.path.exists` are parameters: the job id, the time strings, a function from names to safe names, and the set of existing files.
- Threads: the worker runs to completion after the upload, without interleaving. `Jobs.JobStore.observed` records every intermediate record state that a concurrent poll could see.
- The image steps of the worker (`import cv2`, `imread`, `Canny_detector`, `imwrite`) are opaque. A `Fault` parameter says which of them fails and with what message. `sleep` is not modelled.
- coordinates.py: the contour list is an input, because its import from polygonOutline.py names nothing that module defines. `approxPolyDP` and `arcLength` are opaque functions. The `contourArea` print, the other prints and the CSV write are not modelled.
- The other files of the repository are not part of this model: arduino-interface.py (a copy of the same checksum), ContourDetection.py, polygonOutline.py, visual.py, the tests that need hardware, and the front end.
