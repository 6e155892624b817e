# Barcode and MRZ sample glue, modelled in Dafny

The repository is a set of sample programs around a closed-source barcode and
MRZ (machine-readable zone) recognition SDK: C++ console scanners, an OpenCV
file demo, a WebP demo, a live-camera demo with a bounded result queue, an MRZ
reader, a Rust command-line program with its C++ bridge and build script, and
a Qt scanner with a worker object, a main window and an OpenCV camera.
Recognition itself happens inside the SDK and is not modelled. What is
modelled is the deterministic code around it:

- the four-slot relay that hands decoded results from the SDK callback to the
  render loop, with its retain and release counts (`Relay`);
- console line handling: trimming, quit detection, the 511-byte path
  buffer, `endsWith`, and the prompt loop with the file-system check as an
  oracle (`ConsoleInput`);
- the multi-file scanner: the image extension whitelist, the directory walk
  filter, per-file barcode counting with its `Release` calls, and the
  per-directory and overall statistics (`CommandLine`);
- the per-capture console report and its releases (`CaptureReport`), and the
  OpenCV file demo's outline geometry (`OpenCvFile`);
- the WebP demo's hex dump and argument fall-through (`WebpDemo`);
- the MRZ result record: field selection by validation status, the raw MRZ
  lines (three for a TD1 identity card, two for the other formats, as parts 5
  and 4 of ICAO Doc 9303 lay them out), the text layout, the overlay, and the
  frame id counter (`MrzDemo`);
- the Rust build script's output directory and OS dispatch (`BuildScript`),
  the C++ bridge's flattening and freeing (`Bridge`), and the Rust program's
  modes, input normalisation, reader lifetime and output (`RustCli`);
- the Qt worker's conversion and signal rules (`BarcodeWorker`), the main
  window's results pane, drag filter and result routing (`MainWindow`), and
  the OpenCV camera's state machine (`OpenCvCamera`).

SDK objects are plain datatypes (`Sdk`): a captured result has an error code
and an optional decoded-barcodes sub-result; that has an error code and a list
of items, each possibly null; an item has an optional format, an optional
text and four integer corners. Whatever the SDK, the file system or a device
would decide (capture results, license outcomes, whether a path exists,
whether a camera opens) is a parameter of the operation that consumes it.
Output streams are modelled as the sequence of strings written, one per
`<< … << endl` or `append` call. A string holding a line break shows as
several console lines or pane paragraphs; the lemmas
`CaptureReport.PrintedReportRecoversTexts` and `MainWindow.PaneRecoversTexts`
state that, for strings without line breaks, the shown lines are exactly the
strings written.

## Model

| member | source | states |
|---|---|---|
| Relay.Push | litecam/examples/barcode/capture_callback.cpp:25-42 | the new handle is retained once and appended; a full queue loses exactly its front, which is released once; a non-full queue loses nothing |
| Relay.Pop | litecam/examples/barcode/capture_callback.cpp:139-165 | an empty queue is left unchanged and nothing is released; otherwise the front is handed out, removed and released once |
| Relay.PushValid | litecam/examples/barcode/capture_callback.cpp:18-42 | a push keeps the queue within MAX_QUEUE_SIZE = 4 and keeps every handle's retains minus releases equal to its residency |
| Relay.PopValid | litecam/examples/barcode/capture_callback.cpp:139-165 | a poll keeps the length bound and the reference balance |
| Relay.PushAllFromEmpty | litecam/examples/barcode/capture_callback.cpp:25-42 | after n pushes from empty exactly the last min(n, 4) handles remain in push order, and the releases are exactly the evicted handles, oldest first |
| Relay.PushAllLength | litecam/examples/barcode/capture_callback.cpp:18-42 | after n pushes from empty the queue holds min(n, 4) handles |
| Relay.SixPushes | litecam/examples/barcode/capture_callback.cpp:34-41 | six pushes leave handles 3..6 in order and release handles 1 and 2 once each, in that order |
| Relay.PopNReturnsQueue | litecam/examples/barcode/capture_callback.cpp:139-165 | polling as often as there are handles hands them out front first, empties the queue and releases each once |
| Relay.FifoOrder | litecam/examples/barcode/capture_callback.cpp:25-165 | up to four pushed handles reach the consumer in push order, after which every handle's retains equal its releases |
| Relay.DistinctBalance | litecam/examples/barcode/capture_callback.cpp:31-164 | for distinct handles, a resident handle has exactly one outstanding retain and an evicted or polled one has none |
| ConsoleInput.Trim | examples/command-line/main.cpp:100-101 | the erase/find_first_not_of/find_last_not_of pair, including the npos wrap-around that empties an all-trim line |
| ConsoleInput.TrimIsStrip | examples/command-line/main.cpp:100-101 | trimming equals dropping the trim characters from the front and then from the back |
| ConsoleInput.TrimKeepsInterior | examples/command-line/main.cpp:100-101 | the trimmed line is one contiguous piece of the input with only trim characters around it, interior untouched |
| ConsoleInput.TrimIdempotent | examples/command-line/main.cpp:100-101 | trimming twice gives the same line as trimming once |
| ConsoleInput.RustQuitMatchesCpp | examples/rust/src/main.rs:64-66 | `eq_ignore_ascii_case("q")` accepts exactly the two lines the C++ programs treat as quit, "q" and "Q" |
| ConsoleInput.StoredPath | examples/command-line/main.cpp:109-118 | the buffer holds the whole input when shorter than 512 units, else its first 511, as a C string cut at any NUL; a unit is one character of the model, standing for one byte |
| ConsoleInput.PathBuffer | examples/opencv_file/main.cxx:116-117 | strncpy of 511 bytes with NUL padding, then byte 511 set to NUL: all 512 bytes written and the last is NUL |
| ConsoleInput.PathBufferMatchesStoredPath | examples/10.x/command-line/main.cpp:48-49 | both copy disciplines leave the same C string: the first min(len, 511) units (characters standing for bytes) of the input |
| ConsoleInput.GetImagePathMeaning | examples/command-line/main.cpp:91-128 | every line before the last one read was rejected; the loop exits on a q/Q line, which leaves the buffer as the previous line stored it (or as it was, for a first-line quit), or accepts a stored path only when it exists; where the modelled input runs out the model stops with the last rejected line's stored path, whereas the program keeps prompting |
| ConsoleInput.EndsWith | examples/command-line/main.cpp:130-139 | false when the suffix is longer; otherwise true exactly when the string is some head followed by the suffix |
| ConsoleInput.EndsWithEmpty | examples/opencv_file/main.cxx:131-140 | the empty suffix matches every string |
| ConsoleInput.RustNormalize | examples/rust/src/main.rs:58-61 | the result is no longer than the line, starts and ends with a character that is neither whitespace nor a quote, and is empty for a line made only of those |
| ConsoleInput.RustNormalizeMatchesTrim | examples/rust/src/main.rs:58-61 | when the line's whitespace is all among the C++ trim characters, the Rust normalisation equals the C++ trim |
| CommandLine.SupportedImageFileSuffix | examples/command-line/main.cpp:151-159 | a path is accepted exactly when its own tail, as long as its extension and lower-cased, is one of the listed extensions; the exact whitelist is stated by CommandLine.SupportedByExtension |
| CommandLine.SupportedExtensionLength | examples/command-line/main.cpp:151-159 | an accepted path's extension is a '.' followed by three or four characters |
| CommandLine.Extension | examples/command-line/main.cpp:153 | the extension is empty or starts with '.', and is a suffix of the path |
| CommandLine.SupportedByExtension | examples/command-line/main.cpp:151-159 | `dir/stem.ext` is accepted exactly when ".ext", lower-cased, is one of .jpg .jpeg .png .bmp .tif .tiff .gif .pdf |
| CommandLine.HiddenFileRejected | examples/command-line/main.cpp:151-159 | a hidden file `dir/.ext` has no extension and is never accepted |
| CommandLine.NoExtensionRejected | examples/command-line/main.cpp:151-159 | a path without an extension is never accepted |
| CommandLine.ImageFilesFromDirectory | examples/command-line/main.cpp:162-182 | the kept paths follow the walk order of the reference definition; a path is kept exactly when a regular-file entry with a supported extension carries it; never more paths than entries |
| CommandLine.KeptPathsMembers | examples/command-line/main.cpp:162-182 | the kept paths are exactly the supported regular files of the walk, and never more than the entries |
| CommandLine.ProcessImageFile | examples/command-line/main.cpp:185-213 | the count sums items only over pages with error 0 and a non-null sub-result with error 0; every non-null sub-result of an error-0 page is released once, whether or not it was counted, then the array once |
| CommandLine.CountedBound | examples/command-line/main.cpp:185-213 | every counted page contributes its whole item count to the total |
| CommandLine.DirectoryStats | examples/command-line/main.cpp:326-350 | every file counts as an image, a file counts as having barcodes only when its count is positive, barcodes are summed over those, and throwing files are listed in order |
| CommandLine.WithoutBarcodesCount | examples/command-line/main.cpp:356 | the printed "Images without barcodes" difference equals the number of files processed without a barcode, so it never underflows |
| CommandLine.ArgumentStats | examples/command-line/main.cpp:307-393 | one argument adds its directory's statistics, one image and its positive count for a single file, or nothing; a single file that throws (no try/catch at 374-388) ends the program |
| CommandLine.OverallStats | examples/command-line/main.cpp:305-393 | the loop is cut short exactly when some single file throws; otherwise the running totals equal the field-wise sum of every argument's statistics, and images with barcodes never exceed images |
| CommandLine.StatsBounded | examples/command-line/main.cpp:368-372 | over all arguments, images with barcodes plus failed files never exceed images processed |
| CommandLine.CommandLineMode | examples/command-line/main.cpp:305-411 | a single file that throws ends the program, with no overall block; otherwise the block is printed exactly when more than one path is given, shows the sums over all arguments, and its "without" line never underflows |
| CaptureReport.PrintCaptureResult | examples/10.x/command-line/main.cpp:102-123 | the report is the error line when the capture failed, then "No barcode found." or a count line and one block per item, numbered from 1 |
| CaptureReport.ReportRecoversTexts | examples/10.x/command-line/main.cpp:116-122 | among the strings written, reading back the "Barcode Text: " ones gives exactly the decoded texts in order, and none when nothing was found |
| CaptureReport.NotFoundLineIff | examples/10.x/command-line/main.cpp:107-110 | "No barcode found." appears exactly when the sub-result is null or empty |
| CaptureReport.ReportLength | examples/10.x/command-line/main.cpp:102-123 | the report writes the error line if any, then one string, or a count line and a fixed number of strings per item |
| CaptureReport.PrintedReportRecoversTexts | examples/10.x/command-line/main.cpp:102-123 | when the error string and every format and text hold no line break, the printed console lines are exactly the strings written, so the texts and the line count hold for the printed output |
| CaptureReport.Releases | examples/10.x/command-line/main.cpp:124-127 | the capture result is released exactly once and last; the sub-result once when non-null, never otherwise |
| OpenCvFile.Thickness | examples/opencv_file/main.cxx:195-208 | the outline is 6 pixels thick exactly when the image is taller than 1080 or wider than 1920, else 2 |
| OpenCvFile.MinCorner | examples/opencv_file/main.cxx:239-253 | the result is a lower bound of all four corners' x and y coordinates and is attained by some corner on each axis |
| OpenCvFile.LabelAnchor | examples/opencv_file/main.cxx:239-260 | the label is drawn at (minX, minY - 10) |
| OpenCvFile.Outline | examples/opencv_file/main.cxx:255-258 | the four segments form the closed polygon p1, p2, p3, p4, back to p1 |
| WebpDemo.ToHexString | examples/webp/cpp/main.cxx:176-188 | for iLen > 0 the buffer gets 3·iLen characters (high digit, low digit, space per byte) and a NUL, the rest untouched; for iLen <= 0 nothing changes |
| WebpDemo.HexRoundTrip | examples/webp/cpp/main.cxx:178-187 | decoding the hex text gives the bytes back, so the dump is injective |
| WebpDemo.HexAlphabet | examples/webp/cpp/main.cxx:178 | every character written is one of "0123456789ABCDEF" or a space |
| WebpDemo.PlanFor | examples/webp/cpp/main.cxx:206-221 | fewer than two arguments print usage; four read the template and the license, three only the license, others neither |
| WebpDemo.PlanMatchesFallThrough | examples/webp/cpp/main.cxx:215-221 | the plan reads the template and the license exactly when executing the case labels from the matching one to the end, with no `break`, reaches their case |
| MrzDemo.FromParsedResultItem | litecam/examples/mrz/main.cpp:35-137 | the type is overwritten; the id comes from passportNumber for a TD3 passport and documentNumber otherwise; each of the eight fields is copied when non-null and not VS_FAILED and kept otherwise; the raw lines are appended to the earlier ones |
| MrzDemo.FromParsedRawText | litecam/examples/mrz/main.cpp:51-105 | one raw line is appended per line field of the document type that has a value, in field order, each the value with ", Validation Failed" exactly when that field failed |
| MrzDemo.PresentNamesIff | litecam/examples/mrz/main.cpp:51-105 | the lines kept are exactly the line fields with a non-null value |
| MrzDemo.DocIdIgnoresOtherField | litecam/examples/mrz/main.cpp:39-49 | the field the document type does not use never affects the result |
| MrzDemo.FailedFieldIgnored | litecam/examples/mrz/main.cpp:107-134 | each of the eight copied fields, when marked VS_FAILED, leaves its member of the record as it was, whatever its value |
| MrzDemo.RawLinesFromValues | litecam/examples/mrz/main.cpp:51-105 | each raw line starts with its field's value, and a failed one is marked exactly by the suffix |
| MrzDemo.Td1ThreeLines | litecam/examples/mrz/main.cpp:52-75 | a TD1 card with all three line fields appends exactly line1, line2, line3, in order, each with the failure suffix when it failed |
| MrzDemo.ToString | litecam/examples/mrz/main.cpp:139-158 | the text is the layout joined with newlines: the raw header, one numbered line per raw line, the parsed header and nine labelled values |
| MrzDemo.ToStringRoundTrip | litecam/examples/mrz/main.cpp:139-158 | for strings without line breaks the text has \|rawText\| + 11 lines and the record can be read back from it |
| MrzDemo.OverlayAsWritten | litecam/examples/mrz/main.cpp:365-393 | eight DrawText calls 20 pixels apart from y = 40 |
| MrzDemo.OverlayDropsExpiry | litecam/examples/mrz/main.cpp:393 | no drawn text carries the expiry date's label |
| MrzDemo.Overlay | litecam/examples/mrz/main.cpp:365-393 | nine lines, one per parsed field, 20 pixels apart |
| MrzDemo.OverlayMatchesToString | litecam/examples/mrz/main.cpp:365-393 | the corrected overlay shows exactly the parsed section of the text layout, top to bottom |
| MrzDemo.FrameIdsCycle | litecam/examples/mrz/main.cpp:337-341 | frame k gets id k mod 10000, so ids cycle through 0..9999 |
| BuildScript.Find | examples/rust/build.rs:82-83 | the offset returned is the first occurrence of the keyword, and none means no occurrence at all |
| BuildScript.GetOutDir | examples/rust/build.rs:80-101 | the path is at most twice as long as OUT_DIR |
| BuildScript.CutFound | examples/rust/build.rs:86-98 | a keyword first found at an offset above 0 contributes OUT_DIR up to and including that occurrence |
| BuildScript.CutMissing | examples/rust/build.rs:82-86 | a keyword missing or found only at offset 0 contributes nothing |
| BuildScript.NoKeywordEmpty | examples/rust/build.rs:80-101 | with neither keyword found above offset 0 the path is empty |
| BuildScript.DebugOnly | examples/rust/build.rs:86-91 | with only "debug" found above offset 0 the path is OUT_DIR cut just after it |
| BuildScript.ReleaseOnly | examples/rust/build.rs:93-98 | with only "release" found above offset 0 the path is OUT_DIR cut just after it |
| BuildScript.BothKeywords | examples/rust/build.rs:86-98 | with both found above offset 0 the two cut prefixes are concatenated, debug first |
| BuildScript.PlanForOs | examples/rust/build.rs:14-63 | windows, linux and macos link; any other OS panics with the OS named in the message |
| BuildScript.ExtensionIdentifiesOs | examples/rust/build.rs:14-63 | the library extension identifies the OS it was chosen for |
| Bridge.CreateBarcode | examples/rust/lib/bridge.cpp:16-30 | the record carries the two strings and the four corners in order |
| Bridge.FlattenItem | examples/rust/lib/bridge.cpp:84-93 | a null format becomes "Unknown", a null text "", and corner k is (x_{k+1}, y_{k+1}) |
| Bridge.DecodeBarcodeFile | examples/rust/lib/bridge.cpp:58-108 | NULL unless the capture is non-null with error 0, a sub-result and items; then count and slots match the items; a non-null capture is released once on every path |
| Bridge.SlotsAt | examples/rust/lib/bridge.cpp:76-97 | slot i holds item i's record when the item is non-null and is never written otherwise |
| Bridge.FreeBarcode | examples/rust/lib/bridge.cpp:32-41 | both strings of each of the count slots, then the array, then the struct |
| Bridge.FreedOnce | examples/rust/lib/bridge.cpp:32-41 | every allocation is freed exactly once and nothing else is freed |
| Bridge.DestroyInstance | examples/rust/lib/bridge.cpp:115-121 | a null instance is left alone; a non-null one is deleted once |
| RustCli.Dispatch | examples/rust/src/main.rs:13-21 | with at least one argument every argument is processed in order without prompting; with none the interactive mode runs |
| RustCli.InteractiveStep | examples/rust/src/main.rs:51-83 | every line before the loop ends is not a quit line and is blank, names a missing path, or names an existing path that is processed |
| RustCli.InteractiveQuit | examples/rust/src/main.rs:64-66 | the loop ends by quitting exactly at a quit line |
| RustCli.OnlyExistingPathsProcessed | examples/rust/src/main.rs:68-77 | a processed line is never empty after normalisation and names an existing path |
| RustCli.NonInteractiveFile | examples/rust/src/main.rs:89-127 | the reader is destroyed once exactly when the license succeeded and it was created, and the file is processed only when it also exists |
| RustCli.NonInteractiveRun | examples/rust/src/main.rs:13-17 | a run over n paths processes and destroys at most n times |
| RustCli.EveryReaderDestroyedOnce | examples/rust/src/main.rs:89-127 | over a run, destroys equal readers created, and a path is processed exactly when its reader was created and it exists |
| RustCli.InteractiveRun | examples/rust/src/main.rs:24-87 | the reader is destroyed at most once, exactly when the license succeeded, it was created and the user quit |
| RustCli.PrintBarcodes | examples/rust/src/main.rs:155-168 | one block per barcode, numbered from 1, with the format, text and four corner lines |
| RustCli.FirstNul | examples/rust/src/main.rs:132-138 | the position is a NUL with none before it, and none means the path has no NUL |
| RustCli.ProcessImage | examples/rust/src/main.rs:129-176 | a path with a NUL stops after an error line; a null pointer or count 0 prints "No barcode found."; free_barcode runs exactly when the pointer is non-null |
| RustCli.RustMatchesCppReport | examples/rust/src/main.rs:143-168 | for a capture without error whose items are all non-null with a format and a text (`CaptureReport.Printable`), the Rust output through the bridge equals the C++ report with corners, line for line |
| BarcodeWorker.ToResult | examples/qt_barcode_scanner/barcodeworker.cpp:228-237 | the result carries the item's format and text (empty for null) and exactly its four corners in order |
| BarcodeWorker.ConvertResults | examples/qt_barcode_scanner/barcodeworker.cpp:209-243 | a null or failed result converts to an empty list, otherwise to the converted non-null items |
| BarcodeWorker.ConvertedIsPresentItems | examples/qt_barcode_scanner/barcodeworker.cpp:219-240 | the list is exactly the non-null items in index order: one result per non-null item and none for null ones |
| BarcodeWorker.NewWorker | examples/qt_barcode_scanner/barcodeworker.cpp:4-9 | a new worker is uninitialised, has no router and holds the built-in trial key |
| BarcodeWorker.CaptureStep | examples/qt_barcode_scanner/barcodeworker.cpp:95-126 | exactly one answer: empty for a null or failed capture or a missing sub-result, otherwise the sub-result's conversion; the capture is released exactly when it is non-null |
| BarcodeWorker.Initialize | examples/qt_barcode_scanner/barcodeworker.cpp:20-57 | one license report whose validity is the InitLicense outcome; the worker ends initialised exactly when the router was created |
| BarcodeWorker.ProcessImageAsWritten | examples/qt_barcode_scanner/barcodeworker.cpp:59-133 | the worker ends initialised exactly when it was or the retry succeeds, and a capture result is released whenever one was obtained, even for a null image |
| BarcodeWorker.NullImageEmitsTwice | examples/qt_barcode_scanner/barcodeworker.cpp:73-76 | a null image on an initialised worker is answered twice |
| BarcodeWorker.AsWrittenAgreesOnImages | examples/qt_barcode_scanner/barcodeworker.cpp:59-133 | for a non-null image the code as written and the corrected one behave identically |
| BarcodeWorker.AsWrittenNullAddsCapture | examples/qt_barcode_scanner/barcodeworker.cpp:73-76 | for a null image the code as written gives the corrected answer followed by a whole capture of the null image and its release |
| BarcodeWorker.ProcessImage | examples/qt_barcode_scanner/barcodeworker.cpp:59-133 | the last signal is always an answer, empty for a null image or a missing, failed or empty capture; a capture result is released exactly when obtained for a non-null image on an initialised worker |
| BarcodeWorker.ProcessImageAnswersOnce | examples/qt_barcode_scanner/barcodeworker.cpp:59-133 | every call answers exactly once, after a license report only when it had to initialise |
| BarcodeWorker.ProcessImageAnswer | examples/qt_barcode_scanner/barcodeworker.cpp:95-126 | a successful capture with a sub-result is answered with that sub-result's conversion |
| BarcodeWorker.OnDecodedBarcodesReceived | examples/qt_barcode_scanner/barcodeworker.cpp:193-207 | a signal is emitted exactly for a non-null result with error 0, carrying its conversion |
| BarcodeWorker.SetLicense | examples/qt_barcode_scanner/barcodeworker.cpp:141-165 | the key is stored; one report, valid exactly when initialised and InitLicense succeeds, and "Updated (Pending Initialization)" when uninitialised |
| BarcodeWorker.SetTemplate | examples/qt_barcode_scanner/barcodeworker.cpp:167-191 | the content is always stored and applied exactly when initialised, with a router, and non-empty |
| MainWindow.DragEnter | examples/qt_barcode_scanner/mainwindow.cpp:245-271 | only the first URL decides; a drag is accepted exactly when its lower-cased suffix is listed, and an unsupported one is reported |
| MainWindow.DragByExtension | examples/qt_barcode_scanner/mainwindow.cpp:253-270 | a dragged `dir/stem.ext` is accepted exactly when lower-cased `ext` is in {jpg, jpeg, png, bmp, tiff, tif, gif, webp, ico, svg} |
| MainWindow.HiddenFileOnlyDraggable | examples/qt_barcode_scanner/mainwindow.cpp:253-270 | a hidden `dir/.png` is accepted by a drag but never by the command-line whitelist |
| MainWindow.UpdateResultsDisplay | examples/qt_barcode_scanner/mainwindow.cpp:806-838 | an empty batch appends "No barcodes detected."; otherwise a count line and one block per result, numbered from 1, with a points line only when there are points |
| MainWindow.DisplayRecoversTexts | examples/qt_barcode_scanner/mainwindow.cpp:814-831 | among the strings appended, reading back the "  Text: " ones gives exactly the batch's texts in order |
| MainWindow.PaneRecoversTexts | examples/qt_barcode_scanner/mainwindow.cpp:806-831 | when every format and text holds no line break, the pane's paragraphs are exactly the strings appended, and the texts read back from them |
| MainWindow.OnBarcodeResults | examples/qt_barcode_scanner/mainwindow.cpp:623-638 | the batch is always displayed; it replaces the image results on tab 0 with an image, the camera results on tab 1, and nothing otherwise |
| MainWindow.ClearResults | examples/qt_barcode_scanner/mainwindow.cpp:552-565 | the pane and both stored lists are emptied, the tab and image kept |
| MainWindow.LoadImageFile | examples/qt_barcode_scanner/mainwindow.cpp:678-765 | the pane gets the not-found line, or the "Loading image" line, the decoder's lines and the failure line or the two success lines; only a successful load shows the image and drops its results |
| MainWindow.LoadThenResults | examples/qt_barcode_scanner/mainwindow.cpp:747-751 | on tab 0 the batch after a successful load is what is stored; after a failed load it is stored only when an earlier image is still shown |
| MainWindow.StopCamera | examples/qt_barcode_scanner/mainwindow.cpp:516-550 | the camera results are dropped and the pane gets "Qt6 camera stopped." or "OpenCV camera stopped." for the camera that ran, nothing for none; nothing else changes |
| MainWindow.TabChanged | examples/qt_barcode_scanner/mainwindow.cpp:239-242 | switching to the image tab drops the camera results and adds "OpenCV camera stopped." exactly when the OpenCV camera ran (640-650); switching to another tab changes nothing else |
| MainWindow.ImageTabKeepsCameraEmpty | examples/qt_barcode_scanner/mainwindow.cpp:628-650 | once the image tab is selected, no sequence of batches puts anything into the camera results |
| MainWindow.DrawnIff | examples/qt_barcode_scanner/mainwindow.cpp:779 | a result gets an overlay exactly when it has at least four points |
| MainWindow.ConvertedAllDrawn | examples/qt_barcode_scanner/mainwindow.cpp:779 | every result the worker converts has four points, so each gets an overlay |
| OpenCvCamera.Start | examples/qt_barcode_scanner/opencvcamera.cpp:52-105 | a running camera is stopped first; a failed open or test read leaves it inactive with index -1; success makes it active on the requested index |
| OpenCvCamera.FailedStartStops | examples/qt_barcode_scanner/opencvcamera.cpp:52-97 | a failed start leaves even a previously running camera stopped |
| OpenCvCamera.Stop | examples/qt_barcode_scanner/opencvcamera.cpp:107-117 | an active camera becomes inactive with index -1; an inactive one is unchanged |
| OpenCvCamera.StopIdempotent | examples/qt_barcode_scanner/opencvcamera.cpp:107-117 | stopping twice is stopping once |
| OpenCvCamera.CaptureFrame | examples/qt_barcode_scanner/opencvcamera.cpp:136-162 | an inactive camera emits nothing; an active one whose read fails or gives an empty frame emits exactly the capture error |
| OpenCvCamera.MatToQImage | examples/qt_barcode_scanner/opencvcamera.cpp:164-178 | CV_8UC3 gives RGB888, CV_8UC1 Grayscale8, CV_8UC4 RGBA8888, and any other type a null image |
| OpenCvCamera.MatToQImageByChannels | examples/qt_barcode_scanner/opencvcamera.cpp:164-178 | the image is non-null exactly for 8-bit matrices with 1, 3 or 4 channels, and the format follows the channel count |
| OpenCvCamera.CapturedFormat | examples/qt_barcode_scanner/opencvcamera.cpp:150-161 | an 8-bit frame is shown as RGB888, while 16-bit and float frames become null images after the colour conversion |
| OpenCvCamera.AvailableCameras | examples/qt_barcode_scanner/opencvcamera.cpp:35-50 | "Camera i" for each openable index below 10, in ascending order |
| OpenCvCamera.OpenableIff | examples/qt_barcode_scanner/opencvcamera.cpp:40-47 | the listed indices are exactly the openable ones, strictly ascending |
| OpenCvCamera.NewCamera | examples/qt_barcode_scanner/opencvcamera.cpp:8-13 | a new camera is inactive with index -1, its device closed and its timer stopped |
| OpenCvCamera.IsAvailable | examples/qt_barcode_scanner/opencvcamera.cpp:20-33 | true exactly when some index below 10 opens |
| OpenCvCamera.AvailableIffListed | examples/qt_barcode_scanner/opencvcamera.cpp:20-33 | a camera is available exactly when the list of cameras is non-empty |

## Left out

- SDK internals (`Capture`, `CaptureMultiPages`, `InitLicense`, routers, templates, image sources) are closed source; their results are parameters.
- Threads and mutexes: each relay push and poll is modelled as one atomic step, and the Qt worker thread is not modelled.
- The MRZ demo's read of the first text result outside the lock (litecam/examples/mrz/main.cpp:250) is not modelled.
- Queue teardown (litecam/examples/barcode/capture_callback.cpp:177-180) deletes objects without draining the queue; nothing is claimed about handles left at shutdown.
- Bridge.FreeBarcode: requires every slot to be written, because the bridge leaves slots of null items unwritten and then frees them; freeing an unwritten slot is not modelled.
- RustCli.PrintBarcodes and RustCli.ProcessImage: require written slots (through `WellFormed`) for the same reason; examples/rust/src/main.rs:151-159 reads every slot, and reading an unwritten one is undefined behaviour that is not modelled.
- File and directory I/O (existence checks, the recursive walk, file reading, the build script's copy helpers) are oracles or entry lists given as parameters.
- RustCli.InteractiveLoop: ends with `InputExhausted` when the modelled input runs out; the program itself would keep reading.
- Success-rate percentages, display scale factors and timing are floating point and are not modelled.
- Qt and OpenCV presentation: widgets, painting, timers, resizing, the YUV conversion and camera resolution negotiation are not modelled; `processFrame` is `processImage` on a camera frame.
- ConsoleInput.GetImagePath: its contract is stated in the lemma ConsoleInput.GetImagePathMeaning rather than on the function. The input is a finite list of lines and the model stops with `InputExhausted` when it runs out; the C++ loop (examples/command-line/main.cpp:93-127) instead gets an empty line from the failed `getline`, stores it and prompts forever, which is not modelled.
- ConsoleInput.StoredPath: the 512 limit and the 511 cut count characters of the model, whereas examples/command-line/main.cpp:109-118 counts UTF-8 bytes; the model agrees with the program on ASCII input and on any input shorter than 512 bytes. A longer non-ASCII path is cut by the program at byte 511, possibly inside a character, which is not modelled.
- ConsoleInput.PathBuffer: `strncpy` of 511 (examples/opencv_file/main.cxx:116-117, examples/10.x/command-line/main.cpp:48-49) copies bytes; the buffer is modelled over characters, exact for ASCII input and for input shorter than 512 bytes, as for ConsoleInput.StoredPath.
- MainWindow.LoadImageFile: the "Loading image" line is built with chained `.arg(fileName).arg(fileSize)` (examples/qt_barcode_scanner/mainwindow.cpp:691), so a file name holding a place marker such as `%1` receives the size instead of the `%2` of the template; the model states the line for names without place markers, and MainWindow.LoadLines likewise.
- BarcodeWorker.ProcessImage: the exception handler (examples/qt_barcode_scanner/barcodeworker.cpp:128-132) is not modelled, since the SDK calls it guards are parameters that cannot throw.
- CommandLine.ProcessImageFile: counts are unbounded naturals; the source's `int` totals would wrap past 2^31 - 1, which is not modelled.
- CommandLine.DirectoryStats: the totals are unbounded naturals, with no 32-bit wrap-around of the `int` fields.
- CommandLine.FileName: splits paths on '/' only; the Windows separator '\' is not modelled.
- CommandLine.Extension: inherits the '/'-only path splitting of CommandLine.FileName.
- BuildScript.FindFrom: offsets count characters, whereas Rust's `str::find` counts UTF-8 bytes; they agree on ASCII paths.
- BuildScript.Find: offsets count characters rather than UTF-8 bytes, as for BuildScript.FindFrom.
- RustCli.FirstNul: the NUL position counts characters rather than the UTF-8 bytes `NulError::nul_position` reports.
- RustCli.ProcessImage: lossy UTF-8 decoding of the returned strings is not modelled; strings are taken as given.
- Text.LowerAscii: lower-cases ASCII letters only. That is exact for `::tolower` in the default "C" locale (examples/command-line/main.cpp:154) and for Rust's ASCII folding; `QString::toLower` also folds non-ASCII letters, which is not modelled.
- BarcodeWorker.ToResult: `QString::fromUtf8` replacement characters for invalid UTF-8 are not modelled; the text is taken as given.
- CaptureReport.ReportRecoversTexts: speaks of the strings written; a decoded text holding a line break prints as several console lines and does not read back from the output (CaptureReport.PrintedReportRecoversTexts covers the single-line case).
- CaptureReport.ReportLength: counts strings written; the printed line count differs when a text or the error string holds a line break.
- MainWindow.DisplayRecoversTexts: speaks of the strings appended; a text with a line break becomes several paragraphs of the pane (MainWindow.PaneRecoversTexts covers the single-line case). Rich-text interpretation by `append` and other paragraph separators are not modelled.
- CaptureReport.Printable: the report and the Rust bridge comparison assume every item slot is non-null with a format and a text, since examples/10.x/command-line/main.cpp:114-121 dereferences them unchecked; a null item there is undefined behaviour and is not modelled.
- Bridge.DecodeBarcodeFile and BarcodeWorker.ProcessImage: only the capture's `Release` is counted. examples/rust/lib/bridge.cpp:66-99 and examples/qt_barcode_scanner/barcodeworker.cpp:107-120 never release the `CDecodedBarcodesResult` they obtain, while examples/10.x/command-line/main.cpp:124-125 and examples/command-line/main.cpp:208 do; whether the SDK needs that release is not visible here, so this difference is not modelled.
- CommandLine.CommandLineMode: the interactive branch (no arguments) of the same `main` is covered by the shared prompt loop in ConsoleInput, not by this method.

## Findings

| source | as written | input that shows it | evidently intended | confidence | as-written member | corrected member |
|---|---|---|---|---|---|---|
| litecam/examples/mrz/main.cpp:393 | the expiry-date message is built but no `DrawText` call follows it | any MRZ result: the overlay shows eight lines and never "Expiration Date(YYMMDD): …" | a ninth `DrawText` at the next 20-pixel step, matching the text layout | not executed | MrzDemo.OverlayAsWritten (shown by MrzDemo.OverlayDropsExpiry) | MrzDemo.Overlay (proved by MrzDemo.OverlayMatchesToString) |
| examples/qt_barcode_scanner/barcodeworker.cpp:73-76 | after emitting an empty list for a null image there is no `return`, so the null image is still captured and a second list is emitted | an initialised worker given a null image: two `resultsReady` signals | return after the empty emit, so every call answers once | not executed | BarcodeWorker.ProcessImageAsWritten (shown by BarcodeWorker.NullImageEmitsTwice) | BarcodeWorker.ProcessImage (proved by BarcodeWorker.ProcessImageAnswersOnce) |
