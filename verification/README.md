# Smart dustbin sorting logic, modelled in Dafny

The sorting software of the smart dustbin does the following:

- watches a camera for a new object;
- asks a classifier what the object is;
- logs the classification as one `Key: value, …` line at the top of a text log;
- drives two serial controllers:
  - a stepper that compacts the waste;
  - a mechanism that opens one of four compartments (BR, BNR, NBR, NBNR), reports fill levels, flushes and resets.

A dashboard reads the newest log line back and warns about compartments that are more than 80 % full.

This project models the decision logic of that software as immutable datatypes and pure functions. Hardware, time and remote services become inputs. It proves what each piece promises.

| file | module | models |
|---|---|---|
| `values.dfy` | `Values` | `None`-or-value and raise-or-return wrappers |
| `text.dfy` | `Text` | the `str` operations used: `strip`, `in`, `split`, `split(sep, 1)`, `join`, `replace`, and the first-occurrence search behind `in` and `split(sep, 1)` |
| `decimal.dfy` | `Decimal` | `str(n)` and `int(s)` in base 10 |
| `bins.dfy` | `Bins` | the four compartments and their dashboard order |
| `app_classifier.dfy` | `ClassifierOutput` | `get_bin_code` and `clean_json_string` |
| `record_format.dfy` | `RecordFormat` | the `Key: value, …` line and the mapping it denotes |
| `app_record.dfy` | `Records` | the record `update_database` prepends to the log |
| `log_parser.dfy` | `LogParser` | the dashboard's `parse_line` |
| `dashboard_view.dfy` | `DashboardView` | `get_type_description` and the sidebar alerts |
| `port_finder.dfy` | `PortFinder` | controller discovery, `verify_port`, the saved-configuration gate |
| `command_manager.dfy` | `Commands` | framing, routing, `get_sensor_data`, `__init__`, `close` |
| `change_detection.dfy` | `ChangeDetection` | the frame-differencing trigger and camera ownership |
| `app_cycle.dfy` | `Cycle` | one pass of the sorting loop of `main` |
| `app_main.dfy` | `Supervisor` | `main`'s retry counter, re-initialisation and shutdown |

How things outside the code enter the model:

- **Serial links:**
  - `Commands.Exchange` is how one write-then-read went.
  - `Commands.Incoming` is what one turn of the sensor wait loop saw.
  - The wall-clock budget is the finite list of turns that fit in it.
- **Camera and OpenCV:**
  - `cameraFound` stands for `find_camera`.
  - `CameraRead` stands for `cap.read()`.
  - `prepare: Image -> Image` stands for grey conversion plus blur.
  - `contourAreas` stands for `findContours` plus `contourArea`.
- **Classifier and `json.loads`:** `Cycle.Classification` and `parse: string -> Parsed`.
- **Clock:** the timestamp is a parameter.
- **Log file:** the log is a `string` holding the file's characters; `update_database` returns the new one. Reading it with `'r'` goes through `Records.Universal`. Writing adds no translation, as on a system whose line separator is `"\n"`.
- **Safe record texts:** the read-back lemmas take the texts a record copies in as safe (`Records.RecordTextsSafe`). These are the timestamp and the four classifier values written. Each must hold no line end of either kind, and no `", "`-piece after its first may hold `": "`. A value such as `"Tip: rinse it"` is safe; `"rinse, Tip: dry"` is not, because `parse_line` would read `Tip` as a new key.
- **Port enumeration:** `list_all_ports` takes the enumerated ports, the OS test and the `/dev/tty.*` listing as parameters.
- **Port-finder script run inside `CommandManager()`:** the flag `finderOk` in `Commands.InitManager`. `Commands.StartManager` derives that flag and the file read afterwards from `PortFinder.RunPortFinder`.

## Model

| member | source | states |
|---|---|---|
| ClassifierOutput.GetBinCode | SDM_logic/app.py:75-85 | the code is `b` exactly when the stripped category equals `b`'s label, and `None` for every other text |
| ClassifierOutput.TableHoldsLabels | SDM_logic/app.py:77-82 | the table maps each of the four labels to its own compartment and holds no other key |
| ClassifierOutput.CanonicalLabelsRoute | SDM_logic/app.py:77-85 | each canonical label routes to its own compartment |
| ClassifierOutput.PaddedLabelsRoute | SDM_logic/app.py:85 | a label surrounded by whitespace still routes, because only surrounding whitespace is trimmed |
| ClassifierOutput.LowerCaseDoesNotRoute | SDM_logic/app.py:84-85 | a category starting with lower-case `b` or `n` gives `None`: matching is exact, with no case folding |
| ClassifierOutput.CleanJsonString | SDM_logic/app.py:88-92 | the cleaned text holds no "```" and has no whitespace at either end |
| ClassifierOutput.FencesStayRemoved | SDM_logic/app.py:91 | removing every "```" cannot leave or create one |
| ClassifierOutput.CleanIdempotent | SDM_logic/app.py:88-92 | cleaning twice gives the same text as cleaning once |
| Records.LevelTexts | SDM_logic/app.py:27-37 | four level texts: `str` of each value when the poll gave exactly four, otherwise `'00'` for each |
| Records.LevelTextsReadBack | SDM_logic/app.py:28-37 | each level text reads back through `int()` as the polled value, or as 0 for `'00'` |
| Records.RecordFields | SDM_logic/app.py:46-60 | eleven entries in the written order with their keys, the fixed bin id and location, the levels, the timestamp, and the four classifier fields with their defaults |
| Records.UpdateDatabase | SDM_logic/app.py:18-71 | the log is unchanged when building the command manager raises; otherwise the new record line comes first and the old log follows as `readlines()` gave it, with its line ends normalised |
| Records.Universal | SDM_logic/app.py:38-41 | a file opened with `'r'` reads with no carriage return left, never longer than the file, and empty only when the file is |
| Records.UniversalPlain | SDM_logic/app.py:38-41 | text without a carriage return reads as it is |
| Records.UniversalAppend | SDM_logic/app.py:38-41 | two texts read as the two readings joined, when the first does not end in a carriage return |
| Records.UniversalIdempotent | SDM_logic/app.py:38-41 | reading already-read text changes nothing |
| Records.CrLfReads | SDM_logic/app.py:38-41 | a carriage return followed by a newline reads as one newline |
| Records.CrReads | SDM_logic/app.py:38-41 | a lone carriage return reads as a newline |
| Records.UpdateKeepsPlainLog | SDM_logic/app.py:38-64 | an old log without carriage returns follows the new record unchanged |
| Records.UpdateWritesPlain | SDM_logic/app.py:46-64 | a log rewritten from safe texts holds no carriage return, so the next update keeps all of it verbatim |
| Records.FirstLine | SDM_logic/dashboard.py:109-114 | `readlines()[0]`: `None` only for an empty log; otherwise a prefix of the log as read (line ends normalised), with no line end before its own end, and ending in a newline unless it is all of the log |
| Records.CarriageReturnEndsLine | SDM_logic/dashboard.py:109-114 | a carriage return, alone or before a newline, ends the first line and reads as a newline, so a value holding one cuts the record short |
| Records.RecordLine | SDM_logic/app.py:46-60 | the `new_data` line: no contract of its own; `Records.RecordLineParses` shows it parses back as its fields and `Records.RecordComesFirst` that it is the first line after an update |
| Records.RecordComesFirst | SDM_logic/app.py:62-65 | after an update, the first line of the log is exactly the new record line |
| Records.SurvivesNewline | SDM_logic/app.py:59 | a value that reads back as written still does with the record's newline after it, so a safe "Category" keeps its entry |
| Records.RecordLineParses | SDM_logic/app.py:46-60 | the record line parses back as its fields, with the line's newline kept at the end of "Category" |
| Records.NewestRecordReadBack | SDM_logic/dashboard.py:109-127 | what the dashboard reads right after an update is the new record, and it parses back to the written fields |
| Records.NewestRecordFields | SDM_logic/dashboard.py:114-127 | the parsed newest record has exactly the eleven keys, the first ten with the values written and "Category" with a trailing newline |
| Records.LastEntryWins | SDM_logic/dashboard.py:81-82 | a key that is not written again later maps to the value of its entry |
| LogParser.Feed | SDM_logic/dashboard.py:78-91 | a part containing ": " stores the pending entry and starts a new one, whose key is the text before the first ": "; any other part is appended to the pending value |
| LogParser.FeedPlain | SDM_logic/dashboard.py:89-91 | parts without ": " only extend the pending value |
| LogParser.ParseRender | SDM_logic/dashboard.py:71-97 | round trip: a rendered record whose keys are non-empty and free of both separators, and whose values have no ": " in a later ", " piece, parses to the mapping its entries assign |
| LogParser.NoKeySeparator | SDM_logic/dashboard.py:73-97 | a line with no ": " parses to the empty mapping |
| LogParser.RepeatedKeyLastWins | SDM_logic/dashboard.py:78-95 | a key written twice keeps its second value |
| LogParser.EmptyKeyLeaks | SDM_logic/dashboard.py:81-88 | an entry with an empty key is dropped, and its value is glued in front of the next entry's value |
| LogParser.LeadingTextLeaks | SDM_logic/dashboard.py:89-95 | text before the first entry is glued in front of that entry's value |
| DashboardView.GetTypeDescription | SDM_logic/dashboard.py:145-153 | each of the four codes maps to its description, and any other text is returned unchanged |
| DashboardView.DescriptionOfCode | SDM_logic/dashboard.py:147-153 | each code gets its own description, and two codes never share one |
| DashboardView.CategoryShownVerbatim | SDM_logic/dashboard.py:169 | the stored category label, which is not a code, is shown untranslated |
| DashboardView.Alerts | SDM_logic/dashboard.py:327-328 | every alert carries its compartment's label and level, which is above 80, and each compartment above 80 has an alert |
| DashboardView.AlertsInPanelOrder | SDM_logic/dashboard.py:195-197 | alerts appear in the order BR, BNR, NBR, NBNR, each compartment at most once |
| DashboardView.SafeMessageWhenNoneFull | SDM_logic/dashboard.py:331-332 | the "safe levels" message shows exactly when no compartment is above 80 |
| PortFinder.ListAllPorts | SDM_logic/arduino_port_finder.py:10-38 | the enumerated ports, reversed; with none enumerated, off Windows and a listing found, the `/dev/tty.*` listing reversed |
| PortFinder.TtyProbedAscending | SDM_logic/arduino_port_finder.py:20-31 | a `/dev/tty.*` listing sorted in reverse is probed in ascending order |
| PortFinder.Bind | SDM_logic/arduino_port_finder.py:120-128 | an `ARDUINO1` answer binds the stepper if it is still unbound, and likewise `ARDUINO2` the mechanism; anything else changes nothing, including a Bluetooth port or a probe that raised |
| PortFinder.Search | SDM_logic/arduino_port_finder.py:99-147 | the early-stopping loop binds exactly what the plain fold binds over the ports it went through |
| PortFinder.StopsAtFirstBoth | SDM_logic/arduino_port_finder.py:144-147 | the loop ends early only when both roles are bound, and not before the first port after which they are |
| PortFinder.NonBluetooth | SDM_logic/arduino_port_finder.py:100-103 | no device kept has "Bluetooth" in its name |
| PortFinder.NonBluetoothExactly | SDM_logic/arduino_port_finder.py:100-103 | a device is kept iff some non-Bluetooth entry of the list has that name |
| PortFinder.OpenedExactly | SDM_logic/arduino_port_finder.py:99-147 | the loop opens a device iff it is a non-Bluetooth port placed before the point where the loop breaks |
| PortFinder.LaterPortsNotOpened | SDM_logic/arduino_port_finder.py:144-147 | among distinctly named ports, no port after the break is opened |
| PortFinder.StopsBeforeThirdPort | SDM_logic/arduino_port_finder.py:99-168 | for ports answering ARDUINO1, ARDUINO2 and something else, the loop stops after two, opens only the first two, and saves them as the pair |
| PortFinder.GetArduinoPorts | SDM_logic/arduino_port_finder.py:79-168 | an empty port list gives `(None, None)` and nothing saved; the pair is saved iff both roles are truthily bound |
| PortFinder.DetectPorts | SDM_logic/arduino_port_finder.py:79-96 | with enumerated ports present, the search runs over them reversed |
| PortFinder.LastEnumeratedWins | SDM_logic/arduino_port_finder.py:13-31 | each role goes to the last enumerated port answering its token, and to none iff no port answers it |
| PortFinder.ReverseAnswers | SDM_logic/arduino_port_finder.py:30-31 | reversing the list changes nothing about whether some port answers |
| PortFinder.LastAnswering | SDM_logic/arduino_port_finder.py:30-31 | the first answer of the reversed list is the last answer of the list |
| PortFinder.FirstAnsweringSome | SDM_logic/arduino_port_finder.py:120-128 | a port is found for a token iff some non-Bluetooth probe answered with that token |
| PortFinder.FirstMatchWins | SDM_logic/arduino_port_finder.py:120-128 | each role is bound to the first named port whose stripped answer is its token; later matches are ignored |
| PortFinder.OnePortOneRole | SDM_logic/arduino_port_finder.py:123-128 | among distinct devices, one port never takes both roles |
| PortFinder.VerifyPortExamples | SDM_logic/arduino_port_finder.py:62-76 | a handshake answer ending in "\r\n" verifies; a lower-case answer and a raised probe do not |
| PortFinder.LoadPortConfig | SDM_logic/arduino_port_finder.py:52-59 | a missing or non-JSON file gives `(None, None)`, a saved file gives its pair, and any other loading error (a missing key, JSON that is not an object, bytes that are not UTF-8) raises |
| PortFinder.RunPortFinder | SDM_logic/arduino_port_finder.py:171-191 | the saved pair is reused iff both entries are truthy and each port verifies with its own token; otherwise the script searches afresh (or crashes on any other loading error) |
| PortFinder.StaleConfigSearches | SDM_logic/arduino_port_finder.py:184-191 | a saved stepper port that no longer answers leads to a fresh search |
| Commands.Route | SDM_logic/command_manager.py:53-128 | only COMPRESS goes to the stepper link; every other verb goes to the mechanism link |
| Commands.WireReadsBack | SDM_logic/command_manager.py:53-128 | every command word reads back as its own verb, so no two verbs share a word |
| Commands.WireInjective | SDM_logic/command_manager.py:53-128 | distinct verbs send distinct words |
| Commands.Frame | SDM_logic/command_manager.py:44 | the bytes written are the command followed by exactly one line feed |
| Commands.SendCommand | SDM_logic/command_manager.py:41-50 | the frame is written and the reply is returned stripped; a `SerialException` gives `None`; any other exception propagates |
| Commands.FrameRoundTrip | SDM_logic/command_manager.py:44-46 | a framed command word, stripped by the receiver, reads back as its verb |
| Commands.Issue | SDM_logic/command_manager.py:53-128 | a verb goes out on its routed link as its own word, and a reply is present iff the exchange replied |
| Commands.ParseFields | SDM_logic/command_manager.py:91 | a list comes back iff every comma-separated field parses with `int()`, and it holds those values, one per field |
| Commands.TurnOf | SDM_logic/command_manager.py:86-95 | a turn yields a reading iff a non-empty stripped line arrived whose fields all parse; a read that raises ends the loop; everything else waits |
| Commands.AwaitReading | SDM_logic/command_manager.py:85-96 | the waiting loop: no contract of its own; `Commands.AwaitFirst`, `Commands.AwaitNone` and `Commands.AwaitDelivered` state that it returns the first all-integer line after waited turns, and `None` at the budget's end or a raise |
| Commands.AwaitFirst | SDM_logic/command_manager.py:85-93 | the loop returns the first reading after any number of waiting turns |
| Commands.AwaitNone | SDM_logic/command_manager.py:85-104 | without a reading the loop gives `None`, at the end of the budget or at a raise |
| Commands.AwaitDelivered | SDM_logic/command_manager.py:85-93 | any returned reading is the reading of one turn, and every earlier turn waited |
| Commands.GetSensorData | SDM_logic/command_manager.py:73-107 | the timeout is set to 1 before the request and left at 1; a GETD send that raises gives `None`; otherwise the result is the wait loop's result over later lines |
| Commands.FirstReadingWins | SDM_logic/command_manager.py:85-93 | the first line that is all integers is returned, after any number of empty or bad lines |
| Commands.NoReadingNone | SDM_logic/command_manager.py:85-104 | with no good line before the budget runs out or a read raises, the result is `None` |
| Commands.ReadingDelivered | SDM_logic/command_manager.py:85-93 | a returned reading is the parse of one arrived line, and every earlier turn waited |
| Commands.ReadingRoundTrip | SDM_logic/command_manager.py:91 | a comma-joined line of integers reads back as those integers |
| Commands.FirstReplySwallowed | SDM_logic/command_manager.py:79-87 | a valid reading sent as the immediate reply to GETD is consumed by `send_command` and lost: whatever arrives later, the result is the same as when that reply was lost to a serial fault, and `None` when nothing arrives |
| Commands.AnyCountAccepted | SDM_logic/command_manager.py:91-93 | a line with any number of integers, line ending included, is accepted as it is; there is no check for four values |
| Commands.InitManager | SDM_logic/command_manager.py:9-39 | the manager connects iff the finder ran, the saved file holds two truthy ports, and both links open; an empty port raises the not-found error; on failure every opened link is closed |
| Commands.ConfigAfter | SDM_logic/arduino_port_finder.py:149-168 | a search that found both controllers overwrites the saved pair; every other finder run leaves the file as it was |
| Commands.StartManager | SDM_logic/command_manager.py:11-21 | `__init__` with its finder run fails with the finder error iff loading the saved file raises an error other than a missing file or bad JSON, which crashes the script |
| Commands.StaleConfigUsed | SDM_logic/command_manager.py:11-27 | a saved pair that no longer answers, followed by a search that finds nothing, stays in the file, and the manager connects to it |
| Commands.StartManagerPorts | SDM_logic/command_manager.py:11-27 | the manager connects to the freshly found pair, or to the verified saved pair when the script reuses it |
| Commands.Close | SDM_logic/command_manager.py:130-138 | `close()` reaches the stepper link whenever it exists; it reaches the mechanism link only when the stepper link's close did not raise |
| ChangeDetection.Mask | SDM_logic/change_detection.py:81-85 | the threshold mask has the frames' shape, and a pixel is 255 iff the grey levels differ by more than 25, otherwise 0 |
| ChangeDetection.CountNonZero | SDM_logic/change_detection.py:88-89 | the non-zero count never exceeds the pixel count |
| ChangeDetection.CountRowAppend | SDM_logic/change_detection.py:88-89 | counting a row split in two adds the counts of the halves |
| ChangeDetection.CountRowPixel | SDM_logic/change_detection.py:88-89 | a one-pixel row counts one iff the pixel is non-zero |
| ChangeDetection.CountNonZeroAppend | SDM_logic/change_detection.py:88-89 | counting a picture split into upper and lower parts adds the counts of the parts |
| ChangeDetection.CountNonZeroRow | SDM_logic/change_detection.py:88-89 | a one-row picture counts as its row |
| ChangeDetection.CountAllSet | SDM_logic/change_detection.py:88-89 | a picture with every pixel set counts all of them |
| ChangeDetection.ChangedCount | SDM_logic/change_detection.py:81-89 | the number of changed pixels is at most h·w |
| ChangeDetection.ChangedPixel | SDM_logic/change_detection.py:81-89 | one pixel counts as changed iff its grey levels differ by more than 25 |
| ChangeDetection.ChangedSideBySide | SDM_logic/change_detection.py:81-89 | the changed pixels of a row split in two add up |
| ChangeDetection.ChangedStacked | SDM_logic/change_detection.py:81-89 | the changed pixels of a picture split into upper and lower parts add up; with the two lemmas above this makes the count the number of changed pixels |
| ChangeDetection.DefaultThresholdOnePercent | SDM_logic/app.py:111 | with the threshold `main` passes, 0.01, a frame triggers on its ratio iff more than one pixel in a hundred changed |
| ChangeDetection.RatioInUnitRange | SDM_logic/change_detection.py:88-89 | the change factor lies in [0, 1] |
| ChangeDetection.CrossMultiplication | SDM_logic/change_detection.py:88-103 | comparing `changed·den > num·pixels` gives the same answer as comparing the divided ratio with the threshold |
| ChangeDetection.InitCamera | SDM_logic/change_detection.py:29-35 | a camera is opened only when none is held; finding none raises and changes nothing |
| ChangeDetection.ReleaseCamera | SDM_logic/change_detection.py:115-122 | the camera is given up and the reference frame kept |
| ChangeDetection.CaptureReferenceFrame | SDM_logic/change_detection.py:38-53 | it succeeds iff a camera is available and the read works; it then stores the prepared frame and holds the camera; a failed read keeps the old reference |
| ChangeDetection.DetectNewObject | SDM_logic/change_detection.py:56-112 | it raises exactly without a reference, without a camera, or on a captured frame whose shape differs from the reference's or which is empty; a failed read gives False with the camera held; the result is True iff the change ratio exceeds the threshold and some contour is larger than 500; True releases the camera and keeps the reference |
| ChangeDetection.IdenticalFramesUnchanged | SDM_logic/change_detection.py:81-89 | a frame equal to the reference changes no pixel |
| ChangeDetection.IdenticalFramesNeverTrigger | SDM_logic/change_detection.py:103-112 | with a non-negative threshold, a frame equal to the reference never triggers |
| ChangeDetection.ChangeSymmetric | SDM_logic/change_detection.py:81 | swapping the reference and the current frame changes nothing |
| ChangeDetection.TriggerReleasesCamera | SDM_logic/change_detection.py:103-112 | a detection releases the camera and keeps the reference; a miss changes nothing |
| ChangeDetection.FullChangeTriggers | SDM_logic/change_detection.py:103-110 | when every pixel changed, a threshold below one and a large contour trigger |
| Cycle.Max | SDM_logic/app.py:169 | `max` is an element of the list and bounds every element |
| Cycle.NeedsFlushIff | SDM_logic/app.py:165-171 | a flush is needed iff the reading is present and some value exceeds 10 |
| Cycle.Actuation | SDM_logic/app.py:144-175 | exactly three commands plus one for a found bin and one for a needed flush: compaction first; then the bin opening exactly when a bin code was found; then the sensor read; then the flush exactly when a level is over the limit; the reset last |
| Cycle.SendAll | SDM_logic/app.py:146-175 | commands go out in order until one raises; that one is the last sent; the run is complete iff no command raises, and then it sends all |
| Cycle.Actuate | SDM_logic/app.py:146-175 | a pass sends the whole actuation sequence, or a prefix of it that ends at the command that raised; it completes iff no command of the sequence other than the sensor poll raises |
| Cycle.FrontOf | SDM_logic/app.py:109-138 | a JSON error skips the pass; a pass is logged iff an object was seen, the classifier gave text, and the parse is an object holding "Item" and "Category" |
| Cycle.RunPass | SDM_logic/app.py:107-179 | a watch or classifier that raises, or a result that is not text, faults before anything is logged or sent; an abandoned pass leaves the log alone |
| Cycle.CompletedPass | SDM_logic/app.py:119-175 | a completed pass logged the parsed object and sent the full actuation for its category and fill levels |
| Cycle.OpensOnlyItsCompartment | SDM_logic/app.py:149-161 | at most one compartment is opened, right after compaction, and it is the one the category names |
| Cycle.FlushIffFull | SDM_logic/app.py:163-171 | FLUSH is sent iff a reading is present and some level exceeds 10 |
| Cycle.StepperGetsOnlyCompaction | SDM_logic/app.py:146-175 | of the commands `main`'s own manager sends, only the first of a pass goes to the stepper link |
| Cycle.MalformedAbandons | SDM_logic/app.py:124-135 | a JSON error abandons the pass: nothing is logged and nothing is sent |
| Cycle.MissingKeyFaults | SDM_logic/app.py:137-138 | a missing "Item" or "Category" faults before anything is logged or sent |
| Cycle.NonTextCategoryLoggedThenFaults | SDM_logic/app.py:140-144 | a category that is not a string is logged first, then faults in `get_bin_code` before any command |
| Cycle.UnknownCategoryOpensNothing | SDM_logic/app.py:149-161 | an unrecognised category opens no compartment, raises no error, and still compacts, polls and resets |
| Cycle.RaisingCommandFaults | SDM_logic/app.py:146-182 | once the object is logged with a text category, an actuation command that raises faults the pass, which the retry counter counts |
| Cycle.FaultStopsActuation | SDM_logic/app.py:146-187 | a pass that faults after sending commands sent a prefix of its actuation sequence, ending at the command that raised |
| Supervisor.Step | SDM_logic/app.py:95-199 | a stopped loop stays put; an interrupt stops and closes iff a manager was ever bound; only a successful initialisation lowers the counter, to 0; every close leaves the sorting loop |
| Supervisor.StepValid | SDM_logic/app.py:181-187 | each event keeps the counter at most 3, and the sorting loop runs only with a manager and fewer than 3 faults |
| Supervisor.Run | SDM_logic/app.py:99-198 | `main`'s loop over a run of events: no contract of its own; `Supervisor.RunValid` shows it keeps the counter and phase invariant, `Supervisor.StoppedStays` that an interrupt ends it, and `Supervisor.RunAppend` that it is `Step` applied event by event |
| Supervisor.RunValid | SDM_logic/app.py:96-187 | any run of events keeps that invariant |
| Supervisor.RetriesBounded | SDM_logic/app.py:96-97 | from the start, the counter never exceeds 3 |
| Supervisor.FaultsAccumulate | SDM_logic/app.py:181-187 | inside the sorting loop, faults add up across completed and abandoned passes; nothing but initialisation resets them |
| Supervisor.ThirdFaultRestarts | SDM_logic/app.py:181-198 | the pass that brings the count to 3 closes the controllers and returns to initialisation, however many good passes came between the faults |
| Supervisor.FewFaultsKeepSorting | SDM_logic/app.py:181-187 | fewer than 3 faults keep the sorting loop running |
| Supervisor.AbandonedPassIsNoOp | SDM_logic/app.py:132-135 | a pass abandoned on a JSON error changes nothing |
| Supervisor.ResetOnlyByInit | SDM_logic/app.py:100-105 | from initialisation, only a successful init enters the sorting loop; every other event keeps the count |
| Supervisor.StoppedStays | SDM_logic/app.py:189-191 | after an interrupt nothing changes |
| Supervisor.ClosesIff | SDM_logic/app.py:195-198 | the controllers are closed iff an initialisation round ends (an interrupt, a failed init, or the third fault) and `cmd` has ever been bound |
| Supervisor.FirstInitFailureClosesNothing | SDM_logic/app.py:195-198 | a `CommandManager()` that raises on the very first round closes nothing |
| Text.Strip | SDM_logic/app.py:85 | `strip()` is the infix of the text left after whitespace is removed at both ends; it has none left at either end |
| Text.StripSurrounded | SDM_logic/app.py:85 | stripping removes exactly the whitespace around a trimmed text |
| Text.StripTrimmed | SDM_logic/app.py:91 | stripping a trimmed text changes nothing |
| Text.IndexOf | SDM_logic/dashboard.py:79-86 | the first-occurrence search behind `': ' in part` and `part.split(': ', 1)`: `None` iff the pattern does not occur; otherwise the first position where it occurs |
| Text.Split | SDM_logic/dashboard.py:76 | `split(", ")`: at least one piece, none holding the separator, and joining them gives the text back |
| Text.Join | SDM_logic/dashboard.py:82-95 | `', '.join(current_value)`: no contract of its own; `Text.Split` states that joining the pieces gives the text back and `Text.SplitJoin` that splitting a join gives the pieces back |
| Text.SplitJoin | SDM_logic/dashboard.py:76-82 | splitting a join gives back the pieces, when no piece holds the separator and it cannot overlap itself |
| Text.SplitAround | SDM_logic/dashboard.py:76 | splitting around one separator splits each side on its own |
| Text.SplitOnce | SDM_logic/dashboard.py:86 | `split(": ", 1)`: the part before the first separator, which holds none, and the rest |
| Text.SplitOnceOf | SDM_logic/dashboard.py:86 | with a separator that cannot overlap itself, `split(sep, 1)` recovers the two sides |
| Text.Replace | SDM_logic/app.py:91 | `replace`: no contract of its own; `Text.ReplaceAbsent`, `Text.ReplaceFirst` and `Text.ReplaceIsSplitJoin` state what it keeps and what it substitutes |
| Text.ReplaceAbsent | SDM_logic/app.py:91 | `replace` leaves a text without the pattern unchanged |
| Text.ReplaceFirst | SDM_logic/app.py:91 | `replace` keeps the text before the first occurrence, substitutes the occurrence, and goes on after it |
| Text.ReplaceIsSplitJoin | SDM_logic/app.py:91 | `replace` agrees with split-then-join on every text |
| Decimal.IntToString | SDM_logic/app.py:29-32 | `str(n)`: a minus sign exactly when `n` is negative, then digits; `Decimal.ParseIntOfIntToString` shows `int()` reads it back as `n` |
| Decimal.ParseInt | SDM_logic/command_manager.py:91 | `int(x)`: no contract of its own; `Decimal.ParseIntOfIntToString` shows it inverts `str()` with any whitespace around, and `Decimal.ParseIntEmpty` that it rejects a blank field |
| Decimal.NatToStringValue | SDM_logic/app.py:29-32 | the digits of `str(n)` spell `n` |
| Decimal.ParseIntOfIntToString | SDM_logic/command_manager.py:91 | `int(str(n)) == n`, also with whitespace around the text |
| Decimal.ParseIntEmpty | SDM_logic/command_manager.py:91 | an empty or blank field is rejected by `int()` |

## Left out

- Serial I/O, port enumeration and `time.sleep` are left out. The model has:
  - one outcome per exchange;
  - the turns that fit in the 5-second budget as a finite list;
  - the enumeration results as parameters.
- The camera, `find_camera`, `cvtColor`, `GaussianBlur`, `findContours`, `contourArea`, `imshow` and `destroyAllWindows` are left out. They are parameters or booleans. Only the pixel threshold and the counting are modelled.
- The classifier (`SDM_logic/vision.py`, `SDM_logic/visionopenAI.py` and `SDM_vision/`) is not part of this model. It is an input: text, non-text, or an exception. `get_trash_classification` as shipped (SDM_logic/vision.py:121-136) catches every `Exception` and returns `"Error: …"` text instead. A classifier failure therefore reaches `json.loads` as text that does not parse, and abandons the pass without counting a retry (`Cycle.MalformedAbandons`). `Cycle.ClassifierRaised` and `Cycle.NotText` are kept for a classifier that behaves otherwise; the shipped one never produces them.
- `json.loads` is a parameter. `json.dump` and `json.load` are modelled only by their outcomes:
  - the port-config file as `PortFinder.ConfigFile`;
  - the `saved` flag of `get_arduino_ports`.
- The Streamlit, plotly and HTML rendering of the dashboard is left out. So are its file read, the refresh loop and `get_base64_encoded_image`. Only the pure helpers are modelled.
- `restart_program`, `main.py`, and the test scripts `test.py`, `port_test.py`, `cd_test.py` and `command_manager_test.py` are left out: `main` never calls `restart_program`, and the rest are interactive or random hardware probes.
- `print` output is left out.
- The polling of `detect_new_object` in `main` is left out. It repeats until it sees an object or raises, and its misses only sleep. It is summarised as `Cycle.Watch`.
- An exception raised by `cmd.close()` inside `main`'s `finally` is left out. It would end `main`. `Supervisor.Step` records only whether `close()` is called.
- Cycle.RunPass: the `sent` verbs are only those of `main`'s manager. The `CommandManager()` that `update_database` builds for its poll (SDM_logic/app.py:24-25) is summarised as its reading. That manager reruns the port-finder script, which sends HANDSHAKE to every port, controllers included. It opens both links a second time while `main`'s manager still holds them, sends its own GETD, and is never closed. None of that traffic is in the pass, and neither is the open manager it leaves behind.
- `update_database` swallows every exception. Its file-read and file-write failures are left out. Only the failure of its own `CommandManager()` is modelled, as `Records.Poll.ManagerFailed`.
- On Windows, a text-mode write turns each `'\n'` into `"\r\n"`. This is left out: the log is taken as written on a system whose line separator is `"\n"`. `Records.Universal` reads both kinds of line end back as `'\n'`, so what the dashboard parses is the same either way.
- `str()` of a JSON value that is not a string is left out. `Records.JsonValue.JOther` carries the printed text as given.
- Decimal.ParseInt: accepts only ASCII digits. Python's `int()` also accepts other Unicode decimal digits. The controllers send ASCII, so the model does not cover those.
- DashboardView.Levels: holds integers. The dashboard applies `float()` to the level texts. Those texts come from `str()` of integers or `'00'`, so the numeric values agree. Float formatting of the displayed level is not modelled.
- ChangeDetection.DetectNewObject: takes the threshold as an exact fraction `num/den` with `den > 0` rather than a float. The change factor is compared by cross-multiplication. `ChangeDetection.CrossMultiplication` proves this agrees with real division.
- PortFinder.Search: takes `ser.close()` (SDM_logic/arduino_port_finder.py:131) never to fail. If it raised after a port answered, the handler at :133-137 would keep the new binding, and its `continue` would skip the both-found check at :145. The real loop would then probe one more port than the model does.
- Supervisor.Step: events that cannot happen in a phase leave the state unchanged. Examples are a pass ending while initialising, or an initialisation event while sorting. A `KeyboardInterrupt` is modelled only between events.

## Behaviour worth knowing

Some things the code does that a reader might not expect; the model keeps each of them:

- **Retry counter.** A good pass does not clear it. `retry_count` is reset only after a successful initialisation (SDM_logic/app.py:105). Faults therefore accumulate across good passes (`Supervisor.FaultsAccumulate`, `Supervisor.ThirdFaultRestarts`).
- **Actuation order.** COMPRESS goes out first, before the compartment is opened (SDM_logic/app.py:147-161).
- **Bluetooth ports.** These are recognised by "Bluetooth" in the device name (SDM_logic/arduino_port_finder.py:100), not by port metadata.
- **Sensor replies.** A reply with any number of integers is accepted (SDM_logic/command_manager.py:91). Only `update_database` insists on exactly four, and it falls back to `'00'` otherwise.
- **Re-initialisation after a failure.** When `CommandManager()` raises on a later round, `'cmd' in locals()` still sees the previous, already closed, manager. It is closed again (`Supervisor.ClosesIff`).
