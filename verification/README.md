# A model of the observatory control system

This project models the stateful cores of an observatory control system and proves what they
keep, undo and lose. One module stands for one source file or component; what the source does step
by step is a method or a class proved against a specification function, and the properties are
lemmas about those functions.

- **Text formats.** `Decimal` is printf's and strtod's decimal text. `JsonTree`, `JsonLexer`,
  `JsonParser` and `JsonPrinter` are the expression tree, the scanner, the token-popping parser and
  the printer of the JSON files; `JsonGrammar` and `JsonNumbers` are the language they accept, and
  `JsonRoundTrip` says exactly which trees survive being written and read. `Dbases` is the bracketed
  record file.
- **Shared files.** `JsonSync` runs any number of read-write handles over one JSON file, with the
  lock, the stat before the lock and the release stamps as separate steps. `WorkQueues` is the
  length-prefixed queue file and every process's index of it.
- **The camera.** `Exposure` is the exposure server with its one-slot timer and the filter wheel's
  two legs. `Coolers` is the temperature ramp and the regulator. `Readout` is the binning readout
  loops in 32-bit arithmetic.
- **Images and stars.** `Pixels` and `Images` bin, crop and subtract; `Statistics` selects a median by
  sampling; `StarLists` is the linked star list with its array index and deferred deletion.
- **Messages.** `GenMessages` frames messages over a stream that reads and writes as much as it
  pleases; `CameraMessages` is the keyword map inside them, `CameraGrammar` the texts its scan accepts.
- **The rest.** `Wrappers`, `Sequences` and `Acyclicity` are shared. `AstroDatabase` gives out
  database identifiers and decides what replaces what; `SystemConfigs` and `ImageProfiles` resolve
  includes; `Julian` is Julian day arithmetic.

Doubles are exact reals. Bytes are characters below 256 where that matters. Where a property asked of
the code is false, the code is kept and the property is given as an if-and-only-if with the condition
under which it holds:

- a JSON tree is read back unchanged exactly when its strings hold no double quote and its floats have
  six decimals (`JsonRoundTrip.RoundTrip`);
- a reactivated JSON handle that skips the reload is current exactly when nobody wrote between its
  stat and its flock; `JsonSync.LostUpdateRun` is a run with a ticking clock that loses an update;
- in every run the queue file stays a queue exactly when no deletion hits a task of fewer than three
  characters (`WorkQueues.RunExact`), and an appended line is a record exactly while its numbers fit
  their columns (`WorkQueues.AppendedRecord`);
- a message goes out as a whole frame exactly when no write fails before its last byte; an interrupted
  first write loses the magic byte although send reports success (`GenMessages.SendExact`,
  `GenMessages.MagicDropped`);
- the selected "median" is sorted position k, or k-1 exactly when the search slips, which it never does
  for k up to 25 or for up to fifty elements (`Statistics.SlipsOnlyBeyond`); `MedianCanSlip` is a list
  of 52 numbers on which it does;
- the star list's `last` is right after a deletion pass exactly when the pass keeps the tail or
  empties the list (`StarLists.NextStarKept`);
- a camera message fits its buffer exactly while its value lengths have at most eight digits more than
  three for each (`CameraMessages.FitsExactly`);
- measurements survive a call to AddInstMags exactly when the exposure is in the database and is not the
  very entry being replaced (`AstroDatabase.MeasurementsSurvive`), and an identifier is found exactly
  while its list has not run into the next million (`AstroDatabase.FindExact`);
- an appended database record is found by its number exactly when no older record has that number,
  and an updated one exactly when it was the last (`Dbases.AppendFound`, `Dbases.UpdateFound`);
- a Julian day is right exactly in the years of `Julian.Right`, and comes back to the same Unix time
  exactly from the reference time in August 2002 to the end of 2100 (`Julian.RoundTrip`).

The failing inputs themselves are stated too: `JsonRoundTrip.NotRestored`, `JsonSync.LostUpdateRun`,
`WorkQueues.TwoCharacterTask`, `GenMessages.MagicDropped`, `Statistics.MedianCanSlip`,
`CameraMessages.OverflowingMap`, `AstroDatabase.MissingExposure`, `Dbases.UpdatedFirst` and
`Dbases.AppendedTwice`.

Includes and base profiles are resolved on every file in which nothing reachable from the loaded name
leads back to itself; `Acyclicity` defines that by paths, derives the measure that ends the recursion,
and shows that a falling rank exists exactly then.

Where documentation and code disagree, the code is followed: `GetLine` of the work queue returns the
task with its newline; `SortByBrightness` reorders only the array index, so the brightness order is
gone with the next addition or deletion pass; `HistogramPoint` is documented up to and including the
number of elements, but there is no element at that place; `update` of a database record moves the
record to the end under another number.

## Model

| member | source | states |
|---|---|---|
| JsonLexer.Tokenize | DATA_LIB/json.cc:264-367 | the scanner loop appends exactly the tokens of the text, garbage token and naked numbers included |
| JsonLexer.ScanToken | DATA_LIB/json.cc:271-363 | one token and how far the scanner moves for it |
| JsonLexer.SkipNumber | DATA_LIB/json.cc:285-326 | where the walk over digits, point, fraction and exponent stops |
| JsonNumbers.ScanNumeral | DATA_LIB/json.cc:285-326 | a numeral is taken whole, and is a float exactly if it has a point or a power of ten, else a long kept within its limits |
| JsonNumbers.AtofNumeral | DATA_LIB/json.cc:285-326 | the value of any numeral: its digits as one number, shifted by its power of ten and its places behind the point |
| JsonLexer.LexQuoteFree | DATA_LIB/json.cc:327-337 | no string the scanner makes holds a double quote, whatever the text |
| JsonParser.TokenList.InitializeFromTokens | DATA_LIB/json.cc:469-591 | what is built and what is left on the shared token list, or the exit, agree with the grammar on every token list |
| JsonParser.TokenList.SeqItems | DATA_LIB/json.cc:493-538 | the loop over assignments up to the closing brace |
| JsonParser.TokenList.ListItems | DATA_LIB/json.cc:540-550 | the loop over elements up to the closing square bracket |
| JsonGrammar.ParseExact | DATA_LIB/json.cc:469-591 | the parser takes a tree from the front of any token list if and only if the front spells the tree: commas are needed between assignments, optional in lists, and allowed before a closing bracket |
| JsonPrinter.WriteJSON | DATA_LIB/json.cc:871-950 | the bytes appended to the file for any tree |
| JsonPrinter.WriteItems | DATA_LIB/json.cc:882-906 | items separated by commas, none before the first |
| JsonTree.RoundedFixed | DATA_LIB/json.cc:911-917 | six-decimal printing changes no float of a tree exactly when all are six-decimal |
| JsonRoundTrip.LoadText | DATA_LIB/json.cc:449-455 | scanning and parsing a text |
| JsonRoundTrip.LexText | DATA_LIB/json.cc:871-950 | printed text scans to the tree's tokens, followed by those of whatever comes next |
| JsonRoundTrip.ParseTokens | DATA_LIB/json.cc:469-591 | the parser takes exactly a tree's tokens from any list that goes on with no colon |
| JsonRoundTrip.LoadsRounded | DATA_LIB/json.cc:161-262 | every tree that Validate accepts and that holds no quote comes back with its floats rounded |
| JsonRoundTrip.RoundTrip | DATA_LIB/json.cc:449-950 | a valid tree comes back unchanged if and only if it is quote-free and six-decimal |
| JsonRoundTrip.NotRestored | DATA_LIB/json.cc:871-917 | a quoted string and a seven-decimal float that do not come back |
| JsonSync.ExclusiveNext | DATA_LIB/json.cc:63-151 | every step keeps the lock with the one active handle |
| JsonSync.MutualExclusion | DATA_LIB/json.cc:953-1040 | in every run at most one handle is active |
| JsonSync.ConsistentNext | DATA_LIB/json.cc:953-1040 | every step under a ticking clock keeps trees, stamps and versions consistent |
| JsonSync.LockFreshness | DATA_LIB/json.cc:991-1040 | a handle that gets the lock is up to date exactly if it reloads or the file's time has not passed its stamp, that is, if nobody wrote between its stat and its flock |
| JsonSync.ReactivatedTree | DATA_LIB/json.cc:991-1040 | an up to date reactivated handle holds the tree of the file |
| JsonSync.FetchedTree | DATA_LIB/json.cc:63-151 | while the lock is free, opening a file or reloading it succeeds and leaves the handle active with the very tree whose text the file holds |
| JsonSync.FetchedAlways | DATA_LIB/json.cc:97-151 | the tree fetched is what the file loads as, and nothing is fetched exactly from files that do not load as a valid tree |
| JsonSync.NoLostUpdate | DATA_LIB/json.cc:953-1040 | in undisturbed runs each release builds on the one before it |
| JsonSync.AcquiredTree | DATA_LIB/json.cc:991-1040 | whatever the trees, a handle that becomes active undisturbed holds what the file loads as or has kept the tree whose text the file holds |
| JsonSync.OneTree | DATA_LIB/json.cc:63-1040 | in undisturbed ticking runs all handles together are one tree behind one lock: the file loads as the last tree released, and the active handle holds it with its own edits |
| JsonSync.LostUpdateRun | DATA_LIB/json.cc:991-1040 | a ticking run in which an update is overwritten unseen |
| WorkQueues.HeaderWidth | DATA_LIB/work_queue.cc:176-180 | the header has twelve bytes exactly up to length 999999 and uid 99999 |
| WorkQueues.HeaderScans | DATA_LIB/work_queue.cc:98-103 | the header scans back to its two numbers |
| WorkQueues.RecordAt | DATA_LIB/work_queue.cc:79-127 | every record stands at its offset with its header and payload |
| WorkQueues.AppendedRecord | DATA_LIB/work_queue.cc:165-188 | what AddToQueue writes is a record exactly while its numbers fit their columns |
| WorkQueues.DeleteExact | DATA_LIB/work_queue.cc:190-208 | overwriting with DONE leaves all other records intact exactly for tasks of at least three characters |
| WorkQueues.DoneBytes | DATA_LIB/work_queue.cc:199-206 | a record marked done leaves the file well formed and its index unchanged |
| WorkQueues.DeleteKeepsQueue | DATA_LIB/work_queue.cc:199-206 | after one deletion the file is any list of well-formed records at all exactly for tasks of at least three characters |
| WorkQueues.TwoCharacterTask | DATA_LIB/work_queue.cc:199-206 | a two-character task whose deletion spoils the file |
| WorkQueues.CallsWellFormed | DATA_LIB/work_queue.cc:165-208 | the records that any interleaving of calls puts into the file are well formed and numbered 1000, 1007, ..., whatever the lengths of the tasks |
| WorkQueues.WrittenExact | DATA_LIB/work_queue.cc:165-208 | what one call writes is a queue again exactly if the call is harmless |
| WorkQueues.RunExact | DATA_LIB/work_queue.cc:165-208 | in every run the file is a queue after each call if and only if no deletion hits a record of a task under three characters, and then holds exactly the records put into it |
| WorkQueues.WorkQueue.SyncFile | DATA_LIB/work_queue.cc:79-127 | after it the index lists exactly the records of the file |
| WorkQueues.WorkQueue.FindUID | DATA_LIB/work_queue.cc:157-163 | the first known record with a uid |
| WorkQueues.WorkQueue.GetLine | DATA_LIB/work_queue.cc:136-155 | the stored task with its newline, or nothing for an unknown uid |
| WorkQueues.WorkQueue.AddToQueue | DATA_LIB/work_queue.cc:165-188 | the bytes appended always, and within the column bounds one new record with everything before it kept |
| WorkQueues.WorkQueue.DeleteLine | DATA_LIB/work_queue.cc:190-208 | the overwritten bytes, and for tasks of three characters the records afterwards |
| WorkQueues.WorkQueue.NextUID | DATA_LIB/work_queue.cc:225-246 | one round of the wait: the uid behind a known one |
| WorkQueues.Interleave | DATA_LIB/work_queue.cc:57-208 | processes taking turns, deleting no task under three characters, all keep correct prefixes of the file the calls add up to |
| Exposure.ExposureServer.USBMoveFilterWheel | CCD_SERVER/usb_cfw.cc:233-245 | what a move command does to the wheel globals |
| Exposure.ExposureServer.RefreshCFWPosition | CCD_SERVER/usb_cfw.cc:247-253 | after a move command the position is taken from the first character the wheel has sent and the buffer is emptied; without a character the position stays |
| Exposure.ExposureServer.ScheduleFilterTimeout | CCD_SERVER/ccd_message_handler.cc:213-221 | the pending timer and the counter |
| Exposure.ExposureServer.ScheduleExposureTimeout | CCD_SERVER/ccd_message_handler.cc:228-267 | first call and polling calls, with the counter and its end |
| Exposure.ExposureServer.FilterTimeout | CCD_SERVER/ccd_message_handler.cc:269-302 | the two legs, the poll and the fatal timeout |
| Exposure.ExposureServer.ExposureTimeout | CCD_SERVER/ccd_message_handler.cc:304-333 | poll for the end of the exposure |
| Exposure.ExposureServer.ExposureFinished | CCD_SERVER/ccd_message_handler.cc:343-358 | readout and back to idle |
| Exposure.ExposureServer.StartExposure | CCD_SERVER/ccd_message_handler.cc:360-520 | the transitions of an exposure's start |
| Exposure.ExposureServer.ReadoutExposure | CCD_SERVER/ccd_message_handler.cc:690-707 | back to idle with a readout, or without one for a frame of another depth |
| Exposure.ExposureServer.ProcessAll | CCD_SERVER/ccd_message_handler.cc:1113-1162 | what each state calls for |
| Exposure.ExposureServer.HandleExposeMessage | CCD_SERVER/ccd_message_handler.cc:1285-1379 | the start of a request |
| Exposure.ExposureServer.SendStatusMessage | CCD_SERVER/ccd_message_handler.cc:1235-1239 | a status query takes the wheel position up |
| Exposure.ExposureServer.Dispatch | CCD_SERVER/ccd_server.cc:193-197 | the one pending timeout runs once |
| Exposure.RequestActs | CCD_SERVER/ccd_message_handler.cc:1113-1132 | a request opens the shutter at once if and only if the wheel stands at its slot, and else sends it to the neighbouring slot first |
| Exposure.TickActs | CCD_SERVER/ccd_message_handler.cc:269-302 | an expiry opens the shutter only if the wheel has reached the desired slot on its second leg |
| Exposure.WheelKnown | CCD_SERVER/usb_cfw.cc:247-253 | in every run the wheel is taken to stand where it was at power-on or where it has said it is |
| Exposure.EveryOpeningExplained | CCD_SERVER/ccd_message_handler.cc:1113-1162 | in every run each opening of the shutter at a slot follows a request that found the wheel there, or both move commands and a word of the wheel naming the slot since |
| Exposure.WheelAnswers | CCD_SERVER/ccd_message_handler.cc:269-302 | a wheel that reports each slot it is sent to gets the shutter opened at the slot asked for |
| Exposure.SilentWheel | CCD_SERVER/ccd_message_handler.cc:269-302 | a wheel that stays silent is given up at the 250th expiry of a leg and not before |
| Exposure.BusyCamera | CCD_SERVER/ccd_message_handler.cc:228-267 | a camera that is not done is polled as often as its counter says, and then given up |
| Exposure.ReadOutWhenDone | CCD_SERVER/ccd_message_handler.cc:304-358 | the frame is read out at the first poll at which no time remains |
| Exposure.InvAfter | CCD_SERVER/ccd_message_handler.cc:213-358 | every event keeps the invariant, and every expiry brings the request strictly nearer to its end |
| Exposure.RunsAreSafe | CCD_SERVER/ccd_message_handler.cc:1113-1162 | in every run, status queries included, exposures start only with the wheel reported in place, the move commands are exactly staging then desired position, and the leg counter is 0 outside ExposureRequested |
| Exposure.ExpiriesBounded | CCD_SERVER/ccd_message_handler.cc:213-358 | the measure bounds the expiries still to come |
| Exposure.EveryRequestEnds | CCD_SERVER/ccd_message_handler.cc:269-358 | every request is over after at most 551 expiries, read out exactly once or stopped at a declared timeout |
| Statistics.MedianSmall | IMAGE_LIB/Statistics.cc:27-35 | sorts a stretch in place and points into it |
| Statistics.ThreeWayCount | IMAGE_LIB/Statistics.cc:59-70 | the three counts against the trial value |
| Statistics.CopyPart | IMAGE_LIB/Statistics.cc:76-88 | the copied part below or above the trial value fits the allocated size |
| Statistics.FindEqual | IMAGE_LIB/Statistics.cc:94-100 | an equal element of the array is found |
| Statistics.MedianSelect | IMAGE_LIB/Statistics.cc:37-143 | terminates, never reaches the logic flaw, only permutes, and returns an element at position k, or k-1 exactly when the search slips |
| Statistics.SelectBySampling | IMAGE_LIB/Statistics.cc:50-142 | the same for more than fifty elements |
| Statistics.Median | IMAGE_LIB/Statistics.cc:145-155 | selection at half the number of elements |
| Statistics.HistogramPoint | IMAGE_LIB/Statistics.cc:157-171 | selection at any place below the number of elements |
| Statistics.SelectedPosition | IMAGE_LIB/Statistics.cc:72-73 | the counts mean sorted position k, or k-1 with a strictly greater element at k |
| Statistics.SelectedFromPart | IMAGE_LIB/Statistics.cc:75-134 | what is selected in a part at its rank is selected in the whole |
| Statistics.SlipsOnlyBeyond | IMAGE_LIB/Statistics.cc:51-73 | the search slips only among more than fifty elements and for places above 25 |
| Statistics.MedianCanSlip | IMAGE_LIB/Statistics.cc:72-73 | a list of 52 numbers whose median comes out one place low, whatever qsort does |
| Pixels.BinConserves | IMAGE_LIB/Image.cc:2683-2692 | binning conserves the pixel total of the usable area |
| Pixels.BinBin | IMAGE_LIB/Image.cc:2665-2714 | binning by a and then b is binning by a times b |
| Pixels.BinMinusCrop | IMAGE_LIB/Image.cc:252-305 | binning commutes with subtracting a crop that starts at multiples of the factor |
| Images.Image.Bin | IMAGE_LIB/Image.cc:2665-2714 | the binned image and its header, or nullptr exactly for a bad factor or no header |
| Images.Image.BinPixels | IMAGE_LIB/Image.cc:2683-2692 | each pixel is the sum of its block |
| Images.Image.CreateSubImage | IMAGE_LIB/Image.cc:1693-1707 | the cropped pixels, without a header |
| Images.Image.Aligned | IMAGE_LIB/Image.cc:266-297 | the part of the reference that lies over the image, or none exactly when the two do not match |
| Images.Image.SubtractImage | IMAGE_LIB/Image.cc:232-309 | every pixel loses what the reference has in its place exactly when the binnings match or can be made to and the reference has the size or surrounds the image; else the image is left as it was, or the program ends on a null pointer |
| Images.SubtractExact | IMAGE_LIB/Image.cc:232-309 | for any two frames: subtraction happens if and only if the reference has the binning of the frame or can be given it, and has its size or surrounds it; each pixel then loses the block of the reference in its place |
| Images.CalibrationCommutes | IMAGE_LIB/Image.cc:232-309 | the binned difference is the difference of the binned light frame, for which subtract bins and crops the reference itself; the cover test succeeds |
| Images.BinnedFirst | IMAGE_LIB/Image.cc:240-250 | an image without the keyword counts as unbinned, in bin and in subtract |
| Images.BinnedTwice | IMAGE_LIB/Image.cc:2665-2714 | binning twice is binning once, header included |
| Readout.SumBlock | CCD_SERVER/ccd_message_handler.cc:575-586 | a block's sum in 32-bit arithmetic, which does not wrap up to a factor of 256 |
| Readout.BlockFits | CCD_SERVER/ccd_message_handler.cc:575-586 | up to a factor of 256 no frame makes a sum exceed 32 bits |
| Readout.ReadoutBinTo16 | CCD_SERVER/ccd_message_handler.cc:564-604 | the rows written to the file |
| Readout.ReadoutBinTo32 | CCD_SERVER/ccd_message_handler.cc:606-646 | the rows written to the file |
| Readout.Readout16to16 | CCD_SERVER/ccd_message_handler.cc:522-557 | the rows written to the file |
| Readout.BinnedReadout | CCD_SERVER/ccd_message_handler.cc:564-646 | without nearly saturated pixels the 32-bit readout is bin of the raw frame exactly where that fits 32 bits, the 16-bit one is then cut off at 65535, and up to a factor of 256 it always fits |
| Readout.FilesAgree | CCD_SERVER/ccd_message_handler.cc:522-646 | the same between the files: every element of a binned file is a binned pixel of the unbinned file |
| Readout.PlainRoundTrip | CCD_SERVER/ccd_message_handler.cc:522-557 | an unbinned readout writes exactly the pixels that a camera sending low bytes first has sent |
| Readout.SaturatedPixel | CCD_SERVER/ccd_message_handler.cc:575-646 | one pixel above 65530 saturates the binned pixel it falls into |
| Readout.Pixel32Fits | CCD_SERVER/ccd_message_handler.cc:606-646 | no frame makes the 32-bit readout exceed 32 bits |
| GenMessages.PackGet | REMOTE_LIB/gen_message.cc:199-216 | every 32-bit int survives packing, widening and storing back |
| GenMessages.GetPack | REMOTE_LIB/gen_message.cc:199-216 | and every four bytes survive the other way |
| GenMessages.Send | REMOTE_LIB/gen_message.cc:65-91 | status, bytes and pace left for every pace of the writes, and success with a whole frame exactly when no write fails before |
| GenMessages.SendExact | REMOTE_LIB/gen_message.cc:65-91 | the frame goes out if and only if the first call that does anything writes and those behind it carry the content; the status says only the latter |
| GenMessages.MagicDropped | REMOTE_LIB/gen_message.cc:70-72 | an interrupted first write: status 0 and no magic byte |
| GenMessages.MagiclessRefused | REMOTE_LIB/gen_message.cc:123-132 | the receiver of such a message gives up, five bytes further |
| GenMessages.FetchBytes | REMOTE_LIB/gen_message.cc:93-117 | bytes, what is left and the pace left for every pace of the reads, errors included |
| GenMessages.FetchExact | REMOTE_LIB/gen_message.cc:93-117 | all bytes come if and only if they are on the stream and no read fails before |
| GenMessages.ReceiveMessage | REMOTE_LIB/gen_message.cc:119-157 | the outcome and what is left on the stream, for every inbound stream and every pace, read errors included |
| GenMessages.ReceiveWithExact | REMOTE_LIB/gen_message.cc:119-157 | a message is received if and only if the stream starts with its frame and no read fails before the frame has come |
| GenMessages.ReceiveClean | REMOTE_LIB/gen_message.cc:119-157 | without read errors the pace makes no difference |
| GenMessages.ReceiveExact | REMOTE_LIB/gen_message.cc:119-157 | a message is received exactly when the stream starts with its frame |
| GenMessages.SendAll | REMOTE_LIB/gen_message.cc:65-91 | what goes out for a list of messages for every pace, and its frames in order exactly when no message is broken |
| GenMessages.SendAllExact | REMOTE_LIB/gen_message.cc:65-91 | the frames go out if and only if no write fails before its message is out |
| GenMessages.ReceiveAll | REMOTE_LIB/gen_message.cc:119-182 | receiving gives back the messages sent, in order, and stops at the frame boundary behind the last |
| CameraMessages.SkipToEntry | REMOTE_LIB/camera_message.cc:70-80 | what the head of an entry is found to be |
| CameraMessages.SkipKeyword | REMOTE_LIB/camera_message.cc:100-103 | the keyword ends at the first slash or NUL |
| CameraMessages.ReadValue | REMOTE_LIB/camera_message.cc:109-137 | the counted value, or why there is none |
| CameraMessages.CameraMessage.Encode | REMOTE_LIB/camera_message.cc:144-182 | the buffer carries header and entries for any map order, and whether they fit is known beforehand |
| CameraMessages.CameraMessage.PutEntry | REMOTE_LIB/camera_message.cc:158-177 | the text of one entry |
| CameraMessages.CameraMessage.TotalSize | REMOTE_LIB/camera_message.cc:149-153 | the size computed for the buffer |
| CameraMessages.CameraMessage.Read | REMOTE_LIB/camera_message.cc:82-142 | command, id and keyword map of any message, and how the scan ends |
| CameraMessages.CameraMessage.SetKeywordValue | REMOTE_LIB/camera_message.cc:223-226 | one entry of the map is set |
| CameraMessages.DecodedClean | REMOTE_LIB/camera_message.cc:82-142 | no keyword with a slash and no value over 65535 bytes ever comes out |
| CameraMessages.MapRoundTrip | REMOTE_LIB/camera_message.cc:82-182 | for any map order and any slack the map comes back if and only if it is clean |
| CameraGrammar.DecodeExact | REMOTE_LIB/camera_message.cc:69-142 | any text is scanned to its end mark with a map if and only if it is a list of well spelled entries with that meaning and the end mark |
| CameraGrammar.DecodeReads | REMOTE_LIB/camera_message.cc:82-142 | whatever the text, the map is that of the well spelled entries at its front |
| CameraGrammar.LengthRefused | REMOTE_LIB/camera_message.cc:109-122 | when a length throws, and when it is refused |
| CameraMessages.MessageRoundTrip | REMOTE_LIB/camera_message.cc:144-194 | end to end through the framing: content, command, id, and the map exactly when it is clean |
| CameraMessages.FitsExactly | REMOTE_LIB/camera_message.cc:144-182 | the encoding fits if and only if the extra digits are at most eight |
| CameraMessages.ShortValuesFit | REMOTE_LIB/camera_message.cc:144-182 | values under 1000 bytes always fit |
| CameraMessages.OverflowingMap | REMOTE_LIB/camera_message.cc:144-182 | nine values of a thousand bytes that do not fit |
| StarLists.StarList.Add | IMAGE_LIB/IStarList.cc:41-56 | the star is appended and numbered by its place, or lost when last is not at the tail |
| StarLists.StarList.MarkForDeletion | IMAGE_LIB/IStarList.cc:91-94 | the indexed star is marked, nothing else changes |
| StarLists.StarList.Unlink | IMAGE_LIB/IStarList.cc:100-109 | the pointer-to-pointer loop leaves a chain of exactly the survivors |
| StarLists.StarList.ExecuteDeletions | IMAGE_LIB/IStarList.cc:96-111 | survivors stay in order, numbered and indexed by place; last is not updated |
| StarLists.StarList.FixStarArray | IMAGE_LIB/IStarList.cc:150-169 | StarArray[i] is the i-th star, its index_no is i, NumStars is the length |
| StarLists.StarList.FindByIndex | IMAGE_LIB/IStarList.cc:203-212 | the indexed star, also through the shortcut for the last, and what the shortcut gives while last is stale |
| StarLists.StarList.SortByBrightness | IMAGE_LIB/IStarList.cc:673-681 | the array is the list's stars in descending brightness; the list itself is unchanged |
| StarLists.KeptInOrder | IMAGE_LIB/IStarList.cc:96-111 | each survivor stands behind exactly the survivors that stood before it |
| StarLists.RunKeepsOrder | IMAGE_LIB/IStarList.cc:41-111 | in every run whose passes keep the tail or empty the list, the list holds all stars added and not removed, in order, with last at the tail |
| StarLists.RemovedExactly | IMAGE_LIB/IStarList.cc:91-111 | a star is removed in a run if and only if it is marked and a deletion pass comes after |
| StarLists.NextStarKept | IMAGE_LIB/IStarList.cc:96-111 | the next star is kept if and only if the pass kept the tail or emptied the list |
| StarLists.LostStars | IMAGE_LIB/IStarList.cc:41-56 | after any other pass everything added is lost |
| AstroDatabase.AstroDB.Initialize | DATA_LIB/astro_db.cc:682-729 | the next number of each kind is one past its largest, or its root |
| AstroDatabase.AstroDB.GetNextJuid | DATA_LIB/astro_db.cc:731-734 | a number is given out and counted |
| AstroDatabase.FindLargest | DATA_LIB/astro_db.cc:641-680 | the largest identifier of a list |
| AstroDatabase.AstroDB.FindMaybeDelete | DATA_LIB/astro_db.cc:1059-1095 | the entry found through its million, and the list without it |
| AstroDatabase.AstroDB.JuidFor | DATA_LIB/astro_db.cc:1249-1287 | the entry that belongs to an exposure or set |
| AstroDatabase.AstroDB.AddExposure | DATA_LIB/astro_db.cc:325-419 | an entry under the canonical file name, or a number used up in vain when the name as given is outside the image directory |
| AstroDatabase.AstroDB.AddSet | DATA_LIB/astro_db.cc:203-323 | a new set of one of three kinds |
| AstroDatabase.AstroDB.AddRefreshStack | DATA_LIB/astro_db.cc:447-578 | the stack of a file is updated in place or added, planned and actual inputs apart |
| AstroDatabase.AstroDB.AddInstMags | DATA_LIB/astro_db.cc:775-876 | replaces the measurements of an exposure under their number, or loses them when the exposure is missing |
| AstroDatabase.AstroDB.AddDiffMags | DATA_LIB/astro_db.cc:915-1048 | replaces the analysis of a set under its number |
| AstroDatabase.AstroDB.CreateNewTarget | DATA_LIB/astro_db.cc:1336-1380 | the target's set, new or existing |
| AstroDatabase.AstroDB.CreateEmptyDirective | DATA_LIB/astro_db.cc:1115-1133 | a new directive under the next or a chosen number |
| AstroDatabase.ChosenDirective | DATA_LIB/astro_db.cc:1125 | a chosen number keeps the invariant if and only if it is free and already given out |
| AstroDatabase.AstroDB.ReactivateFrom | DATA_LIB/astro_db.cc:189-193 | the lists of the file, and numbers initialised from them |
| AstroDatabase.StartsWith | DATA_LIB/astro_db.cc:195-201 | the prefix test of the path |
| AstroDatabase.FindExact | DATA_LIB/astro_db.cc:1059-1095 | an entry is found under its own number if and only if the number is below the next million |
| AstroDatabase.StepEffect | DATA_LIB/astro_db.cc:203-1380 | every operation that gives out no number beyond its million keeps the invariant, writes what it says under one number, and changes what is found under no other |
| AstroDatabase.ExposureExact | DATA_LIB/astro_db.cc:325-419 | an exposure is added under the next image number if and only if the name as given lies in /home/IMAGES/, and else -1 is returned and no entry made |
| AstroDatabase.ExposurePaths | DATA_LIB/astro_db.cc:378-381 | one file name of each kind |
| AstroDatabase.InitializedExact | DATA_LIB/astro_db.cc:682-729 | the next number of a list is its root, or one past a number in it that none exceeds |
| AstroDatabase.MeasurementsSurvive | DATA_LIB/astro_db.cc:790-830 | measurements are there afterwards if and only if the exposure is found and is not the entry replaced |
| AstroDatabase.MissingExposure | DATA_LIB/astro_db.cc:793-829 | a database in which new measurements are refused and the old ones lost |
| AstroDatabase.IssuesOnce | DATA_LIB/astro_db.cc:731-734 | an operation gives out at most one number, and none when it takes over an entry |
| AstroDatabase.RunKeepsInv | DATA_LIB/astro_db.cc:189-193 | every run of processes taking turns that gives out no number beyond a million keeps the invariant, however long it is |
| AstroDatabase.LiveJuids | DATA_LIB/astro_db.cc:608-734 | after any run that gives out at most a million numbers of each kind, numbers are unique across all lists, in their million and findable, with one entry per exposure, analysed set, stack file and target |
| AstroDatabase.NewDatabase | DATA_LIB/astro_db.cc:608-616 | a new database has room for a million of each kind |
| Coolers.RampShape | CCD_SERVER/cooler.cc:384-401 | a ramp has at least seven points, goes strictly one way in even steps, stays strictly between start and command, below two degrees a minute |
| Coolers.Cycled | CCD_SERVER/cooler.cc:357-506 | the power is 0 to 255, and a saturated cycle leaves the integral alone |
| Coolers.ControlLaw | CCD_SERVER/cooler.cc:413-470 | every power follows, to within two and a half, the feed-forward plus 15 a degree of excess heat, minus the summed error, plus 400 for each degree a second of warming; the sum becomes the integral unless the power is cut off |
| Coolers.IntegralExact | CCD_SERVER/cooler.cc:461-470 | the integral takes over the sum exactly while the power worked out lies from 0 to 255 |
| Coolers.PowerOrdered | CCD_SERVER/cooler.cc:413-470 | more ambient heat, a lower setpoint, a warmer chip, faster warming and a smaller summed error never lower the power |
| Coolers.FeedForward | CCD_SERVER/cooler.cc:417 | with nothing summed up and a steady chip the power is the rounded feed-forward, at least it above the setpoint and at most it below |
| Coolers.FirstPower | CCD_SERVER/cooler.cc:454-456 | the power of a first cycle two degrees above the setpoint |
| Coolers.SlopeExact | CCD_SERVER/cooler.cc:427-437 | the slope times the time between the ends of the history is the change between them |
| Coolers.LastEight | CCD_SERVER/cooler.cc:421-424 | cycle by cycle the history is the last eight chip temperatures |
| Coolers.CycleOnPlan | CCD_SERVER/cooler.cc:371-411 | one point a cycle at most; a new plan exactly when there is none and the chip is far off; else the command |
| Coolers.OnSchedule | CCD_SERVER/cooler.cc:403-411 | a running ramp goes on to its next point at the first cycle after that is due, and stays until then |
| Coolers.NeverAhead | CCD_SERVER/cooler.cc:403-411 | the working setpoint is strictly between start and command and never further along than its schedule |
| Coolers.RunOnPlan | CCD_SERVER/cooler.cc:252-506 | in every run, however the modes change, the regulator is at a due point of some plan or without a ramp |
| Coolers.UnsaturatedIntegral | CCD_SERVER/cooler.cc:439-470 | a power the camera can take bounds the integral by the temperatures seen |
| Coolers.CycleBounded | CCD_SERVER/cooler.cc:439-470 | so no cycle winds the integral up |
| Coolers.RunBounded | CCD_SERVER/cooler.cc:252-506 | nor does any run |
| Coolers.PowerByMode | CCD_SERVER/cooler.cc:260-305 | what each mode writes to the camera and turns into |
| Coolers.OffIsOff | CCD_SERVER/cooler.cc:252-309 | in every run a cooler that counts as off runs at no power |
| Coolers.FreshStart | CCD_SERVER/cooler.cc:265-271 | regulation taken up again depends on nothing before but the temperature last asked for and the working setpoint |
| Coolers.Regulator.Cycle | CCD_SERVER/cooler.cc:357-506 | the new state and the power written |
| Coolers.Regulator.FollowRamp | CCD_SERVER/cooler.cc:371-411 | the ramp and the working setpoint |
| Coolers.Regulator.LayOutRamp | CCD_SERVER/cooler.cc:385-399 | the points of a new ramp |
| Coolers.Regulator.MeasureSlope | CCD_SERVER/cooler.cc:421-437 | the history and its slope |
| Coolers.Regulator.Reset | CCD_SERVER/cooler.cc:348-354 | integral, ramp and history are cleared |
| Coolers.Cooler.ControlCooler | CCD_SERVER/cooler.cc:252-309 | mode changes and what is written to the camera |
| SystemConfigs.SystemConfig.BuildSynonymList | DATA_LIB/system_config.cc:32-57 | the synonyms, or the exception exactly when a root does not list words |
| SystemConfigs.SynonymsAt | DATA_LIB/system_config.cc:36-50 | a word stands for the last name that lists it |
| SystemConfigs.SystemConfig.RecursiveLoad | DATA_LIB/system_config.cc:59-102 | terminates whenever nothing reachable includes itself again, and overrides data with the merged configuration, or throws |
| SystemConfigs.SystemConfig.Load | DATA_LIB/system_config.cc:104-138 | the constructor on a parsed file: names, synonyms and the current configuration, or an exception |
| SystemConfigs.Children | DATA_LIB/system_config.cc:73-92 | what a configuration includes has shorter chains of includes |
| Acyclicity.AcyclicExactly | DATA_LIB/system_config.cc:73-92 | no path of includes repeats a name if and only if a rank falls along all of them |
| SystemConfigs.SystemConfig.LoadIncludes | DATA_LIB/system_config.cc:79-91 | the includes in order, or the exception of one of them |
| SystemConfigs.SystemConfig.LoadItems | DATA_LIB/system_config.cc:94-100 | the configuration's own entries over all others |
| SystemConfigs.MergedLookup | DATA_LIB/system_config.cc:59-102 | merging agrees on every key with a lookup that walks the includes backwards |
| SystemConfigs.IncludesExact | DATA_LIB/system_config.cc:73-92 | the first include entry of a configuration gives its names, one or a list |
| SystemConfigs.LoadedEntry | DATA_LIB/system_config.cc:59-102 | an entry of a loaded configuration is its own last assignment or else that of the last include that has one, each include taken by the name its word stands for |
| SystemConfigs.ThrowsExactly | DATA_LIB/system_config.cc:68-71 | the load throws if and only if a chain of includes leads to a missing or malformed one |
| ImageProfiles.ImageProfile.Load | REMOTE_LIB/image_profile.cc:100-166 | on every chain of bases that does not come back to itself, each keyword has its nearest definition; it exits exactly when the chain is incomplete |
| ImageProfiles.BaseOf | REMOTE_LIB/image_profile.cc:125-128 | the base of a profile has a shorter chain |
| ImageProfiles.NearestExact | REMOTE_LIB/image_profile.cc:125-160 | a keyword gets a value if and only if it is a known one and the chain of bases leads to a profile that gives it, past none that does |
| ImageProfiles.CompleteExact | REMOTE_LIB/image_profile.cc:118-166 | the load goes through if and only if every profile the chain leads to is there and has a content |
| ImageProfiles.ImageProfile.LoadContent | REMOTE_LIB/image_profile.cc:143-159 | known keywords are overridden in place or added |
| ImageProfiles.ImageProfile.FindByKeyword | REMOTE_LIB/image_profile.cc:54-60 | the first pair with the keyword |
| ImageProfiles.KnownKeywords | REMOTE_LIB/image_profile.cc:131-142 | the eleven keywords a profile can set |
| ImageProfiles.ContentLookup | REMOTE_LIB/image_profile.cc:143-159 | content wins over what was inherited, for known keywords only |
| Dbases.Dbase.constructor | DATA_LIB/dbase.cc:100-171 | the records of the file's text, or that a line was met on which the source goes on with unset pointers |
| Dbases.Dbase.TakeLine | DATA_LIB/dbase.cc:121-166 | what any one line adds |
| Dbases.LineTaken | DATA_LIB/dbase.cc:121-166 | which lines start a record and which are passed over, with or without a newline |
| Dbases.WordsTaken | DATA_LIB/dbase.cc:136-166 | which element a line of three words is |
| Dbases.Fgets | DATA_LIB/dbase.cc:116-120 | how much one read takes |
| Dbases.BracketSplit | DATA_LIB/dbase.cc:51-93 | the three words of a line |
| Dbases.Dbase.Append | DATA_LIB/dbase.cc:264-277 | the record at the end, numbered by the size |
| Dbases.Dbase.Erase | DATA_LIB/dbase.cc:190-229 | exactly the records that hold the element go |
| Dbases.Dbase.GetReference | DATA_LIB/dbase.cc:282-302 | the first record with a number |
| Dbases.Dbase.Update | DATA_LIB/dbase.cc:307-326 | the first record with the number goes and the new one is appended |
| Dbases.Dbase.Close | DATA_LIB/dbase.cc:350-403 | written whole if changed and writable, else untouched; what a later open reads |
| Dbases.LoadText | DATA_LIB/dbase.cc:100-171 | reading what close wrote: records in order, each with exactly its bracket-free elements, rounded |
| Dbases.RoundTrip | DATA_LIB/dbase.cc:350-403 | close and reopen restore everything, renumbered, if and only if text is bracket-free and doubles six-decimal |
| Dbases.ErasedInOrder | DATA_LIB/dbase.cc:190-229 | what stays keeps its order |
| Dbases.FindByPlace | DATA_LIB/dbase.cc:292-302 | with numbers by place, get(i) is the i-th record |
| Dbases.RenumberedByPlace | DATA_LIB/dbase.cc:130-134 | after reopening numbers are places |
| Dbases.AppendFound | DATA_LIB/dbase.cc:264-302 | the appended record is found if and only if no older record has its number |
| Dbases.AppendedTwice | DATA_LIB/dbase.cc:264-302 | an appended record hidden by an older one of its number |
| Dbases.UpdateFound | DATA_LIB/dbase.cc:307-326 | an updated record is found under its number if and only if it was the last |
| Dbases.UpdatedInOrder | DATA_LIB/dbase.cc:307-326 | an update leaves all other records as they were, in order, and puts the record at the end |
| Dbases.UpdatedOthers | DATA_LIB/dbase.cc:282-326 | every other record is still found under its number |
| Dbases.UpdatedFirst | DATA_LIB/dbase.cc:307-326 | the first of two records, updated and not found again |
| Julian.PosixDays | REMOTE_LIB/julian.cc:48-49 | the calendar counts days as the POSIX formula does |
| Julian.GmtimeUnique | REMOTE_LIB/julian.cc:48-49 | a time has one broken-down time |
| Julian.FromUnixExact | REMOTE_LIB/julian.cc:43-56 | for every time, the Julian date is exact if and only if its noon-shifted year is one of the right ones |
| Julian.Increasing | REMOTE_LIB/julian.cc:43-56 | strictly increasing within the right years, and exactly when elsewhere |
| Julian.ToUnixOfDate | REMOTE_LIB/julian.cc:192-201 | the time itself from the reference on, one second more before it |
| Julian.RoundTrip | REMOTE_LIB/julian.cc:43-201 | there and back is the identity if and only if the time is between the reference and the end of 2100 |

## Left out

- Rounding of doubles everywhere: values are exact reals, and printed floats are rounded to six decimals only.
- JSON: the accessors and mutators (GetValue, InsertAssignmentIntoSeq, ReplaceAssignment), read-only handles, and trees with stray sub-content, which the datatype cannot express and Validate aborts on.
- JSON: short writes in safe_write; the model's write takes the whole buffer. Numbers longer than the 32-character print buffer are taken to fit.
- JsonLexer.Tokenize: an unterminated string makes the scanner run past its memory; the model marks it and stops.
- JsonSync.NoLostUpdate: aborts of the program are steps that are not enabled, and release times are taken to increase strictly.
- JsonSync.OneTree: edits that put in trees the format cannot read back; what a handle holds after those is `AcquiredTree`.
- Work queue: inotify waiting and the lock that GetFirstLineUID and NextUIDWait still hold when they return; DeleteLine and the constructor, which take no lock, are treated as calls that run undisturbed.
- WorkQueues.Interleave: processes that go on with a file spoiled by a deletion; `RunExact` says when that happens.
- WorkQueues.WorkQueue.AddToQueue: beyond 999999 bytes or uid 99999 only the bytes written are stated, because they are no longer a record.
- Exposure server: wheel initialisation, readout details behind the pixel depth, expose messages that arrive during a request, and the SDK calls themselves, which are replies from outside. The poll count is 50 because (5.0 + 0.1) / 0.1 truncates to it in doubles.
- Statistics: qsort is any function that sorts, and allocation never fails.
- Statistics.HistogramPoint: the place equal to the number of elements, where there is no element.
- Images: the text keywords that bin rewrites other than BINNING, Image::add and subtractKeepPositive, which repeat subtract.
- Readout: ReadoutBinToFloat, which writes every row at the same place; for the 32-bit readout binning factors above 181, whose value for saturated blocks passes an int.
- GenMessages.ReceiveMessage: dispatch on the message id; a size below five, which overflows the buffer, and a stream that ends inside a message are outcomes of their own.
- CameraMessages.CameraMessage.Encode: total sizes over 2147483647, where the size wraps around; bytes beyond a buffer that is too small are dropped rather than written over other memory.
- Star list: the FITS table, names longer than the name field, and what freed memory does; a deleted star that last still points to is an object nobody else sees.
- StarLists.StarList.SortByBrightness: qsort is any descending order of the array.
- Astro database: entries are records of the fields the rules look at, not JSON trees; sessions carry no identifier; images are not read.
- Cooler: the linear fitter, which nothing reads, the pressure and humidity readings, and conversions of doubles outside the int range.
- SystemConfigs.SystemConfig.RecursiveLoad: files in which something reachable from the loaded name includes itself again, where the source does not terminate unless it throws first.
- ImageProfiles.ImageProfile.Load: chains of bases that come back to themselves, on which the source does not terminate; only the first value of a repeated keyword is kept.
- Dbases.RoundTrip: text with a newline, and lines over 4096 bytes, of which a later piece can pass for a line of its own.
- Dbases.Dbase.constructor: what becomes of a file with an element before the first record or with malformed words, where the source goes on with pointers it has not set.
- Julian: str_to_time_t and the printing functions, which depend on the time zone of the process.
