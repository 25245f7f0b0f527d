# Verified model of the gate reader's core

The repository runs an access gate: it reads RFID cards, looks the holder up in a locally cached
employee list, sends time sheets with a photograph to a web service, and writes a log. This project
models the parts of it whose correctness depends on state, and proves what they promise:

- **INI files** (`IniSpec`, `IniScanner`, `IniReader`, `IniProperties`, `IniLines`, `IniMarks`). The scanner of
  `ini.c` works in one 200-byte line buffer, into which it writes NULs, and in two 50-byte buffers. It
  is proved to make the calls and report the error of a pure fold over lines, for every file and every
  callback. About the fold: printed documents are read back, the first refused line is the one
  reported, and it is stated exactly when an appended comment or a byte order mark changes nothing.
- **Employee records** (`EmployeeXml`, `EmployeeScanner`, `EmployeeRoundTrip`, `EmployeeInfoMgr`). The
  extraction cuts one shared buffer up in place while a cursor hops over the pieces; it is proved to
  append exactly the records of a function on strings, which in turn gives back every printed list.
  The cache agrees with the last document downloaded, over any run of updates.
- **Queue, condition and log thread** (`Conditions`, `BlockingQueue`, `LogService`). The code of each
  critical section is a method, and a state machine takes those sections as its steps, in any order
  and with any number of threads: nothing is lost or reordered, no wake-up is missed by a single
  consumer (and one can be missed by two), and the log thread drains the queue before it ends.
- **Timer and blinking LED** (`Timer`, `SwitchGpio`). The thread's steps are interleaved with `stop()`
  at every point where it does not hold the lock.
- **Base64** (`Base64`, `Base64Laws`). Two encoders, one of them with two alphabets, and the decoder,
  against sections 3.5 and 4 of RFC 4648.
- **Time sheets** (`TimeSheetMgr`). Delivery to a server whose answers are arbitrary.
- **Requests and responses** (`WebRequest`, `WebForm`, `WebResponse`). A header printed backwards from a fixed
  offset so that it abuts the body, and bodies put together from any number of receives.
- **Duplicate reads** (`RfidFilter`).

What the code writes or reads as text is also stated by readers and printers that spell the text out and
share no definition with the model of the code: white space, INI lines, element names, request lines, form
fields, digits and alphabets are literals there.

`CStrings` holds what these share: strings inside buffers, `strstr`, `atoi` and numerals. A C string in
a buffer is written `Holds(buffer, position, string)`.

Methods that change objects or buffers are specified by functions on values; the properties are lemmas
about those functions. The concurrent parts are specified by a function `Next` over steps; `IsRun`
says that each step was possible, and `After` gives the state reached.

Some properties one might expect are false of the code. They are stated with the exact condition under
which they hold: wake-ups (`OneConsumerIsSharp`), the agreement of the encoders (`EncodersAgree`),
encoding after decoding (`EncodeDecode`), the size of the image buffer (`ImageBufferSuffices`), the
alternation of the LED (`BlinksEvenly`) and its being dark after `off()` (`DarkAfterOff`), deadlines
(`AcceptedMilliseconds`), empty first lines of INI values (`IniProperties.RoundTrip`), comments behind
INI pairs (`CommentChangesNoLine`), byte order marks (`BomChangesNothing`), a body saved to a file
(`SavedIsBody`), the checksum of RFID frames (`AcceptsGoodFrames`).

Verify with `dafny verify dfyconfig.toml`.

## Model

| member | source | states |
|---|---|---|
| IniScanner.Rstrip | inih_r29/ini.c:24-30 | The string in the buffer becomes its longest prefix not ending in white space; every cell outside the string is untouched. |
| IniScanner.Lskip | inih_r29/ini.c:33-38 | Returns the position of the first character that is not white space (or of the terminator), where the rest of the string stands. |
| IniScanner.FindCharOrComment | inih_r29/ini.c:43-51 | Stops at the first wanted character, or at the first ';' that follows white space, or at the terminator, whichever comes first. |
| IniScanner.Strncpy0 | inih_r29/ini.c:54-59 | The destination holds the source string, cut to one less than its own size. |
| IniScanner.Fgets | inih_r29/ini.c:91 | One call reads up to and including the first newline, the end of the file or 199 characters, and leaves a terminated string that ends early at a NUL in the file. |
| IniScanner.TrimLine | inih_r29/ini.c:94-102 | Skips a byte order mark on line 1 only and trims both ends; the start has moved exactly when the text is shorter than the line trimmed on the right, which is what a continuation is recognised by. |
| IniScanner.ScanSection | inih_r29/ini.c:115-127 | Accepts the line exactly if ']' comes before any comment; then the section buffer holds the title cut to 49 characters and the remembered name is empty, otherwise both buffers keep their strings. |
| IniScanner.ScanPair | inih_r29/ini.c:128-152 | Accepts the line exactly if '=' (or failing that ':') comes before any comment; gives the trimmed name and the trimmed value without its comment, and remembers the name cut to 49 characters. |
| IniScanner.CutPair | inih_r29/ini.c:136-145 | Cutting name and value apart inside one buffer leaves both intact, although each is trimmed in place. |
| IniScanner.CutValue | inih_r29/ini.c:137-142 | The value in the buffer is skipped to, loses its comment and is trimmed, and the name in front of it is not disturbed. |
| IniScanner.ScanLine | inih_r29/ini.c:91-152 | One line of the in-place scanner leaves section, remembered name, error and calls as one step of the fold does. |
| IniScanner.IniParseFile | inih_r29/ini.c:62-165 | For every file and every callback, the in-place scanner returns the error and makes the calls of the fold over lines; every index stays inside its buffer. |
| IniLines.ReportsFirstRefusedLine | inih_r29/ini.c:91-165 | The result is the number of the first line that is malformed or whose pair the callback rejects, counted from 1, or 0 if there is none. |
| IniLines.ParseSplit | inih_r29/ini.c:91-152 | A file cut behind a newline can be parsed in two halves, the second continuing from the state of the first. |
| IniLines.CommentChangesNoLine | inih_r29/ini.c:128-147 | White space, ';' and any text behind a pair leave it a pair of the same name; it keeps its value if and only if that is not empty, and otherwise the appended text becomes the value. |
| IniLines.CommentChangesNothing | inih_r29/ini.c:91-152 | The same inside any file, as long as the lines fit the buffer: the parse has the same state, calls and error if and only if the pair has a value. |
| IniLines.NoteChangesNothing | inih_r29/ini.c:104-106 | A line of blanks, tabs and '\r', or of such and a ';' or '#' comment, may be put anywhere in a file, also between a name and its continuation lines: the calls stay the same, and an error further on is reported one line later. |
| IniLines.SaysTooLittle | inih_r29/ini.c:115-152 | A line is malformed if neither '=' nor ':' comes in front of a comment, or if it starts with '[' and no ']' does. |
| IniLines.TooLittleStep | inih_r29/ini.c:115-152 | A malformed line only counts as an error: no call is made, and the section and the open name stay. |
| IniLines.TitleCloses | inih_r29/ini.c:115-122 | An indented pair behind a section line is a pair of that section, whatever name was open before. |
| IniMarks.MarkChangesNoLine | inih_r29/ini.c:94-101 | A byte order mark in front of the first line leaves what it says unchanged if and only if the line has no mark of its own, or is malformed and has no separator. |
| IniMarks.MarkLaterIsText | inih_r29/ini.c:96-102 | On any line but the first a byte order mark is text. |
| IniMarks.BomChangesNothing | inih_r29/ini.c:91-158 | For every file whose first line leaves room for the mark, and every callback: a mark in front keeps the error and the calls if and only if the first line is such a line; otherwise the error or the calls differ whatever the rest of the file says. |
| IniMarks.DoubleBomFails | inih_r29/ini.c:94-101 | A file that such a mark breaks: "[a]" behind one mark is read, behind two marks it is malformed. |
| IniProperties.ReadLines | inih_r29/ini.c:91-152 | A file of newline-ended lines of at most 198 characters is read line by line. |
| IniProperties.EntryStep | inih_r29/ini.c:128-152 | Under any callback, a printed pair line makes one call with its name and value, whatever white space stands around its '=' or ':' and at its end, a '\r' in front of the newline included; it remembers the name, and counts as an error exactly if the callback refuses it. |
| IniProperties.MoreStep | inih_r29/ini.c:108-113 | Under any callback, a printed continuation line sends its text to the name remembered. |
| IniProperties.TitleStep | inih_r29/ini.c:115-122 | A printed section line sets the section, cut to 49 characters, and forgets the name. |
| IniProperties.ReadParts | inih_r29/ini.c:91-158 | Parsing a printed document makes exactly the calls its entries say, in order and without error: titles over 49 characters are cut for every call of the section, names over 49 characters only for the calls of continuation lines. |
| IniProperties.RoundTrip | inih_r29/ini.c:91-158 | Any printed document with distinct keys, with line ends "\n" or "\r\n" and any white space inside the lines, is read without error, and looking a key up gives back the value of its entry: split at its newlines it is the list of lines printed, if and only if the first of them is not empty or is the only one. |
| IniProperties.DistinctNamesHaveKeys | inih_r29/INIReader.cpp:59-65 | Keys are distinct if no two entries agree in section and name up to letter case, and no section contains a dot. |
| IniReader.INIReader.constructor | inih_r29/INIReader.cpp:11-14 | The error is the parser's, or -1 for a file that cannot be opened, and the values are those of all calls delivered in order. |
| IniReader.INIReader.ValueHandler | inih_r29/INIReader.cpp:67-76 | Appends to the value of the lower-cased key, behind a newline if something is there; other keys stay. |
| IniReader.INIReader.Get | inih_r29/INIReader.cpp:21-25 | Returns the stored value of the key, or the default if the key was never sent anything. |
| IniReader.INIReader.GetBoolean | inih_r29/INIReader.cpp:46-57 | True for the four true words, false for the four false ones in any letter case, the default for anything else. |
| IniReader.StoredValue | inih_r29/INIReader.cpp:67-76 | Over any sequence of calls, the value under a key is the newline-joined list of the values sent to that key, without the leading empty ones; the key is present exactly if something was sent to it. |
| IniReader.GetDependsOnKeyOnly | inih_r29/INIReader.cpp:21-25 | Looking up in any mixture of upper and lower case letters gives the same as if no call for another key had been made. |
| IniReader.SameKey | inih_r29/INIReader.cpp:59-65 | Two sections without a dot and two names share a key if and only if both pairs agree up to the case of letters. |
| IniReader.GetReturns | inih_r29/INIReader.cpp:21-25 | A lookup gives the default if and only if nothing was sent to the key, and otherwise what was sent, joined. |
| EmployeeScanner.GetElementData | tools/utils.cpp:48-67 | Finds the element's text, and changes one cell of the buffer: the '<' behind the text becomes its terminator, so that the cursor's string, the text and the remainder all stand in the buffer. Not found means nothing was written. |
| EmployeeScanner.FillField | employeeinfomgr.cpp:192-241 | One search sets one field and moves the cursor behind its text, or changes nothing; it writes nowhere outside the record. A date is made of the eight cells from the start of its text, which lie inside the buffer however short the text is. |
| EmployeeScanner.FillRecord | employeeinfomgr.cpp:190-241 | The ten searches together extract the record as it stands in the text, and write nowhere outside the record. |
| EmployeeScanner.FillNext | employeeinfomgr.cpp:186-245 | One turn of the loop appends the next record and leaves a strictly shorter remainder intact behind it. |
| EmployeeScanner.FillEmployeeInfoes | employeeinfomgr.cpp:179-249 | The destructive extraction terminates and appends exactly the records of the document, in order, short dates included. |
| EmployeeRoundTrip.PresentElement | tools/utils.cpp:56-66 | A printed element is found with exactly its data, whatever else is printed behind it. |
| EmployeeRoundTrip.AbsentElement | employeeinfomgr.cpp:192-241 | An element that is not printed is not found among those printed later in the same record. |
| EmployeeRoundTrip.RoundTrip | employeeinfomgr.cpp:179-249 | Any list of records, printed with each element under its literal name, is extracted again: the same records, in order, each element in its own field, absent elements unset, no search straying into a neighbour; a date is read as far as its text goes, and the first 15 characters of a serial number count. |
| EmployeeRoundTrip.PrintedDate | tools/date.cpp:35-46 | A date text of any length is read as the numbers in its first four, next two and next two characters as far as it goes; the neighbouring cells that the code reads behind a short one add nothing. |
| EmployeeRoundTrip.DateRoundTrip | tools/date.cpp:35-46 | Eight digits are read back as the year, month and day they print. |
| EmployeeInfoMgr.EmployeeInfoMgr.UpdateLocalDB | employeeinfomgr.cpp:70-120 | The new files, flag and cache for every combination of force, existing file and download outcome. |
| EmployeeInfoMgr.EmployeeInfoMgr.LoadCache | employeeinfomgr.cpp:103-116 | The cache becomes exactly the records of the database file, and nothing of the old one stays. |
| EmployeeInfoMgr.CacheAgrees | employeeinfomgr.cpp:70-120 | Over any run of updates the cache is what the last document downloaded says, that document is the database file, and the flag is set exactly if the last attempt succeeded; unforced updates are attempts only if the flag is down. Until a download succeeds an old database file is kept as it is, and a success leaves no temporary file over one. |
| EmployeeInfoMgr.FirstWith | employeeinfomgr.cpp:333-343 | The index found carries the serial number and no earlier record does; none is found only if no record does. |
| EmployeeInfoMgr.EmployeeInfoMgr.SearchDB | employeeinfomgr.cpp:329-344 | The search loop returns the first record with the serial number. |
| EmployeeInfoMgr.EmployeeInfoMgr.GetInfo | employeeinfomgr.cpp:157-175 | A known serial number copies the first record that has it, except that dates it lacks leave the caller's; an unknown one copies nothing. |
| Conditions.Condition.TimedWait | tools/condition.h:62-85 | The deadline is exactly the given seconds and milliseconds from now, and is normalised exactly if the microseconds add up to less than two seconds. |
| Conditions.Condition.NotifyOne | tools/condition.h:88-99 | Signals exactly if the flag was up, and leaves it down. |
| Conditions.AcceptedMilliseconds | tools/condition.h:71-81 | The deadline is valid at every time of the clock exactly for 0 to 1000 milliseconds, so that a wait does not fail at once with a status other than 0 and ETIMEDOUT. |
| Conditions.SplitDelay | tools/timer.cpp:97-103 | A delay split into seconds and milliseconds is always accepted and is waited for in full. |
| BlockingQueue.Queue.Push | tools/queue.h:29-43 | The new buffer and flag, and whether a sleeper is signalled; after exit() nothing changes. |
| BlockingQueue.Queue.Look | tools/queue.h:46-56 | One turn of the wait loop: takes the front, or raises the flag and sleeps. |
| BlockingQueue.Queue.Exit | tools/queue.h:58-65 | Closes the queue and appends a null pointer. |
| BlockingQueue.Conservation | tools/queue.h:29-65 | In every run, with any number of producers and consumers, what was popped followed by what is buffered is exactly what was accepted, in order, and then one null for each exit(); all other pushed elements were deleted, after an exit(). |
| BlockingQueue.NoLostWakeup | tools/queue.h:29-65 | In every run with at most one consumer, a consumer that sleeps and was not signalled has its flag up and the buffer is empty, spurious wake-ups and exit() included. |
| BlockingQueue.TwoConsumersLose | tools/queue.h:29-56 | For two or more consumers there is a run after which an element is buffered, a consumer sleeps, and nobody is on the way to fetch it. |
| BlockingQueue.OneConsumerIsSharp | tools/queue.h:29-65 | No run loses a wake-up if and only if there is at most one consumer. |
| LogService.LogWriter.Handle | tools/logservice.cpp:184-195 | One item goes to each open output whose level it reaches, the null writes the farewell and ends the thread. |
| LogService.AlwaysSound | tools/logservice.cpp:177-197 | In every run of senders, destructor, spurious wake-ups and log thread, from the start or any such state, what was popped is what was handled and what is in hand, and the thread is gone exactly if it has handled a null. |
| LogService.DrainedOnExit | tools/logservice.cpp:140-197 | When the thread is gone, each output holds every entry accepted before exit() that passes its level, in order and nothing else, and then the farewell. |
| LogService.KeepsMoving | tools/logservice.cpp:140-183 | After exit() a thread that is not gone is never stuck asleep. |
| LogService.ThreadEnds | tools/logservice.cpp:140-143 | The destructor's join returns in every run: whatever senders and further calls of exit() do meanwhile, the thread is gone exactly when it has taken two turns for each item up to the first null, and it can move until then. |
| Timer.Timer.StartArray | tools/timer.cpp:29-42 | The delays are copied up to and including the terminator, inside the array, and the timer starts at index 0, whether or not it was used before. |
| Timer.Timer.Stop | tools/timer.cpp:50-58 | Active, repeat and flag are down, and the thread is signalled exactly if the flag was up. |
| Timer.Timer.Turn | tools/timer.cpp:105-114 | A wait that was signalled ends the loop without a callback; one that timed out makes one callback with the current index; one that failed makes none; the last two advance the index cyclically and go on exactly as the state machine does. |
| Timer.Timer.Run | tools/timer.cpp:61-120 | An activation of the thread, for any sequence of outcomes of its waits, errors included, and with stop() before or after each timeout, goes through the states of the machine. |
| Timer.PlainRun | tools/timer.cpp:61-85 | A plain timer in any run without a stop() or a spurious wake-up: if it repeats it never ends, otherwise it ends exactly with the first wait that is over. |
| Timer.PlainRepeats | tools/timer.cpp:68-83 | A repeated plain timer makes any number of callbacks. |
| Timer.CallbacksAreTimeouts | tools/timer.cpp:74-79 | In every run of either kind of timer there is one callback for each wait that expired, and none for a wait that failed or was signalled. |
| Timer.ActiveUntilTheEnd | tools/timer.cpp:19-85 | A timer that is not stopped is active until its thread has ended, and not afterwards. |
| Timer.StopBound | tools/timer.cpp:50-85 | For every run before and after a stop(): at most one more plain callback, at most n - i array callbacks from index i, none if the thread was in its wait, and the timer stays inactive. |
| Timer.StopCanBeLate | tools/timer.cpp:50-119 | The bound is reached: a stop() that comes just behind a timeout can be followed by one plain callback, and at every index i of a pattern by n - i array callbacks. |
| Timer.StoppedThreadEnds | tools/timer.cpp:68-119 | A stopped thread ends, in every run: a plain one as soon as its current wait is over, an array one after at most n - i waits, a signalled one at once. |
| SwitchGpio.Schedule | tools/timer.cpp:87-120 | In every run in which no wait fails, callback k gets index k mod n; without repetition there are at most n callbacks. |
| SwitchGpio.TurnIndex | tools/timer.cpp:87-114 | In every run, also where waits fail, each turn has the index of its place in the cycle. |
| SwitchGpio.UndisturbedRun | tools/timer.cpp:105-114 | Without a stop() or a spurious wake-up, a repeated pattern never ends, and the other kind ends after exactly n callbacks. |
| SwitchGpio.SwitchGpio.CbOnArrayTimer | hardware/switchgpio.cpp:28-35 | The LED is lit exactly by odd indices. |
| SwitchGpio.SwitchGpio.OnArray | hardware/switchgpio.cpp:46-53 | The LED is lit and a new timer holds the pattern, about to start. |
| SwitchGpio.SwitchGpio.Off | hardware/switchgpio.cpp:55-62 | The LED is dark, and a timer that was active is stopped. |
| SwitchGpio.BlinksEvenly | hardware/switchgpio.cpp:28-53 | The LED is lit exactly after an even number of callbacks, in every run of the timer in which no wait fails, if and only if the pattern has an even number of delays or is not repeated. |
| SwitchGpio.LedInRun | hardware/switchgpio.cpp:28-53 | In any run of an even or an unrepeated pattern, stopped or not, the LED is lit exactly after an even number of callbacks. |
| SwitchGpio.DarkAfterOff | hardware/switchgpio.cpp:55-62 | Once the thread is gone after off(), the LED is lit if and only if callbacks were left when off() wrote the level and the pattern is even; it is dark if the stop reached the wait or the thread had ended or been signalled before. |
| Base64.EncodedLength | tools/base64.cpp:114-118 | The size function is the length of the encoding plus one, and the length is a multiple of four. |
| Base64.Base64e2 | tools/base64.cpp:119-157 | Writes the encoding of the input and a terminator at the given place, returns its length, and touches nothing else. |
| Base64.FieldsOf | tools/base64.cpp:52-59 | The four 6-bit fields over three bytes are the sextets of the byte string in order. |
| Base64.Base64e | tools/base64.cpp:61-80 | Writes one group for every three bytes begun; the last group depends on the byte behind the input, and there is no terminator. |
| Base64.Base64d | tools/base64.cpp:82-106 | Writes exactly three bytes for each group of four characters, and returns that count less the number of padding characters. |
| Base64Laws.DecodeEncode | tools/base64.cpp:82-157 | Decoding an encoding gives back every byte string, with its length. |
| Base64Laws.EncodeDecode | tools/base64.cpp:82-157 | Encoding a decoded string gives it back if and only if it is canonical: in the alphabet, padded only at its end, with zero pad bits. |
| Base64Laws.DecodeEncodeUnion | tools/base64.cpp:61-106 | What the other encoder writes is decoded to the input as well, whatever byte lies behind the input. |
| Base64Laws.EncodersAgree | tools/base64.cpp:61-157 | The encoders write the same exactly if the length is a multiple of three, or the byte behind the input is below 16 (remainder 1) or below 64 (remainder 2). |
| Base64Laws.HttpEncoding | tools/base64.cpp:159-197 | The HTTP variant writes what the other writes, with '-' for '+' and the same '/' and '='. |
| Base64Laws.AlphabetSpeltOut | tools/base64.cpp:10-30 | Both alphabets, character by character (table 1 of RFC 4648, and with '-' for '+'). |
| Base64Laws.EncodingSpeltOut | tools/base64.cpp:119-157 | Each three bytes, as a number with the most significant first, are the number that the four characters of their group stand for; the end is filled up with zero bits and '=' (section 4 of RFC 4648). |
| Base64Laws.DecodeSplits | tools/base64.cpp:89-105 | Groups are decoded on their own, and padding characters count wherever they stand. |
| Base64Laws.ForeignReads | tools/base64.cpp:90-99 | A character outside the alphabet decodes like '/', and '=' like 'A' in the last two places of a group. |
| Base64Laws.ImageBufferSuffices | employeeinfomgr.cpp:303-305 | A buffer of as many bytes as there are characters is large enough for the decoder, except for 1, 2 or 5 characters. |
| TimeSheetMgr.TimeSheetMgr.Insert | timesheetmgr.cpp:55-61 | The sheet goes to the end of the list, as an object of its own. |
| TimeSheetMgr.TimeSheetMgr.SendFiles | timesheetmgr.cpp:75-99 | The spool after the listed files were sent until a request threw, and whether none did. |
| TimeSheetMgr.TimeSheetMgr.SendSheets | timesheetmgr.cpp:107-119 | Collects the acknowledged sheets in order, and leaves a file for each request that threw. |
| TimeSheetMgr.TimeSheetMgr.Erase | timesheetmgr.cpp:121-124 | Removes the collected sheets from the list one by one. |
| TimeSheetMgr.TimeSheetMgr.Upload | timesheetmgr.cpp:63-127 | The new list and spool for every listing and all answers: a failed stage of files leaves the list as it was, a passed one leaves exactly the sheets not acknowledged, in their order. |
| TimeSheetMgr.RemovingKeeps | timesheetmgr.cpp:107-124 | Removing the acknowledged sheets one by one leaves the others, in their order. |
| TimeSheetMgr.FilesGoOnlyAfterYes | timesheetmgr.cpp:75-99 | A file disappears if and only if a true reply to it comes before the first request that throws; all others keep their contents. |
| TimeSheetMgr.ThrowsAreSpooled | web/webservice.cpp:520-530 | After the list was sent there is a file for each time at which a request threw, holding the last such sheet; all other files are as before. |
| TimeSheetMgr.AtLeastOnce | timesheetmgr.cpp:55-127 | In every run of insertions and uploads, each inserted sheet is listed if and only if no request for it was answered by true, and the list keeps the order of insertion. |
| WebRequest.Itoa | tools/utils.cpp:13-30 | The numeral in the given base, or its last 30 digits, stands at the position returned. |
| CStrings.NumeralSpeltOut | tools/utils.cpp:25-26 | A numeral is the numeral of the quotient followed by the digit of the remainder. |
| CStrings.AtoiSpeltOut | web/webservice.cpp:71-82 | Reading one more decimal digit counts it once and the number before it ten times. |
| WebRequest.PrependHeader | web/webservice.cpp:499-505 | The header ends exactly where the body starts, at offset 200, and the buffer holds header and body as one string. |
| WebRequest.RequestRfidInfoSelect | web/webservice.cpp:384-399 | The string sent is header and body without a gap, and all writes fit the 400 bytes allocated. |
| WebRequest.RequestTimeSheetInsert | web/webservice.cpp:479-505 | The string sent is header, fields and encoded image without a gap, for every image and for none, and all writes fit the allocation. |
| WebRequest.FitsExactly | web/webservice.cpp:487-497 | The condition on the fields is exact: it holds if and only if the fields and the encoded image fit the allocation. |
| WebRequest.HeaderAnnouncesBody | web/webservice.cpp:499-502 | A reader of the request that looks for the length as the client itself does finds the exact length of the body that follows, and where it starts (section 3.3.2 of RFC 7230). |
| WebForm.HeaderLines | web/webservice.cpp:499-502 | Read line by line, a request is its request line, host, content type and content length, an empty line, and the body. |
| WebForm.FieldsReadBack | web/webservice.cpp:488-497 | A reader that splits the body at '&' and '=' finds each field under its key, and the image in the HTTP encoding, for all fields without '&'. |
| WebForm.SerialReadBack | web/webservice.cpp:390-391 | The same for the request that asks for one serial number. |
| WebResponse.ParsingHeader | web/webservice.cpp:54-87 | Accepts exactly a non-empty receive with status 200; then the content's length and place are those in the header, and no cell of the content was written. The string it searches may end inside the content or run on behind it. |
| WebResponse.ReceiveBody | web/webservice.cpp:125-144 | The buffer holds the part from the first receive and then everything received; the loop is done, with exactly the announced number of characters and a terminator, if and only if that many arrived, and otherwise goes on. |
| WebResponse.SaveBody | web/webservice.cpp:158-176 | The file gets the content receive by receive, each up to its first NUL. |
| WebResponse.Parsing | web/webservice.cpp:115-145 | Header and receive loop together return what the reassembly function says, in a terminated buffer of exactly that content. |
| WebResponse.ParsingToFile | web/webservice.cpp:147-179 | The same for the response that is saved to a file. |
| WebResponse.ReassemblyIgnoresCuts | web/webservice.cpp:54-145 | For every body, every part of it that comes with the header, whatever the buffer held before, and every way to cut the rest: parsing() returns exactly the body if the status is 200 and all of it has arrived, does not return while some is missing, and returns nothing for another status. |
| WebResponse.SavedIsBody | web/webservice.cpp:147-179 | The file gets exactly the body if and only if there is no NUL in the body. |
| RfidFilter.SerialInjective | serialRfid1356.cpp:43 | Two cards have the same serial number if and only if all four bytes agree. |
| RfidFilter.SerialDigits | serialRfid1356.cpp:43 | Characters 3i to 3i + 2 of a serial number are decimal digits, and the number they make is byte i of the card. |
| RfidFilter.SerialRfid1356.RequestData | serialRfid1356.cpp:31-54 | A frame that is not accepted changes nothing that is remembered; an accepted one is judged against the serial number and time last reported as new. |
| RfidFilter.SerialRfid1356.RequestReversed | serialRfid1356.cpp:77-99 | The same for five-byte frames, whose card bytes come in the opposite order; a frame is accepted by the condition as it is written. |
| RfidFilter.AcceptsGoodFrames | serialRfid1356.cpp:86 | Every frame with a right checksum is accepted; a frame is refused if and only if its checksum is wrong and its first three bytes cancel out, or come to 1 while the last two are equal. |
| RfidFilter.AnswersRight | serialRfid1356.cpp:44-50 | A read is reported as the same if and only if its card was the last one accepted, less than six units before. |
| RfidFilter.FiltersDuplicates | serialRfid1356.cpp:44-50 | In every run all answers are right, and two accepted reads in a row of one card are at least six units apart. |

## Left out

- Camera, sound, GPIO writes, serial ports, Qt: calls into libraries that the repository does not contain. The LED is a level, a card is the bytes of a frame.
- Sockets and pthreads: what a socket delivers, how a wait ends, which sleeper a signal wakes, and who takes the lock next are parameters or arbitrary steps. Code under one lock is one step; a `pop()` that waits is several.
- Strings of the INI callback: the calls made are recorded in a list, and the reader delivers them after the parse; it always accepts, so the parse cannot depend on it.
- `GetInteger`, `GetReal`, `Settings`, `Property`, comparisons of dates, the plain `Timer::start`, `fillEmployeeInfo` for a single record, `ServerTimeGet` and the yes-or-no response: members that only repeat what is modelled.
- One-shot `SwitchGpio::on(int)`: its callback deletes the timer that is running it, and `off` takes the locks in the opposite order; freedom from deadlock and the ownership of timers are not claimed.
- SwitchGpio.Schedule: runs in which a wait fails are excluded, as an error advances the index without a callback; `Conditions.SplitDelay` shows that the deadlines of a pattern cannot cause one. A spurious wake-up ends a timer like a stop(), as in the code.
- Timer.Timer.StartArray: patterns of 100 delays or more, for which the code leaves its array, are excluded, and so is the empty pattern. The state machine has one thread: starting a timer that is still active is not modelled.
- Conditions.Condition.TimedWait: the product `msec * 1000` is not reduced to the width of an int; the second-only overload is left out, as its nanoseconds are those of the clock.
- EmployeeScanner.FillEmployeeInfoes: documents on which the code follows a null pointer or runs over the end of a record are excluded (`Records` gives None for them: an element or a record without its end).
- EmployeeInfoMgr.EmployeeInfoMgr.UpdateLocalDB: the buffer of the database file is taken to be terminated, although the code allocates no room for the terminator; renaming and deleting files succeed. A database file from an earlier run is not read until a download has succeeded, as in the code.
- EmployeeInfoMgr.EmployeeInfoMgr.GetInfo: only the local path. A record without a serial number has an uninitialised one in the code, here it matches nothing; the last character of a serial number of 15 or more counts as followed by a terminator. A lookup between the clearing and the refilling of the cache is not modelled: updates are single steps.
- Base64.Base64d: characters index the table as unsigned values; entries outside the alphabet read as 63, as the 6-bit fields make them.
- TimeSheetMgr.TimeSheetMgr.Upload: sheets are values with an identity in place of pointers; the program's own text of a file is represented by its sheet; a file's name is the time of the sheet, so a later sheet of the same time replaces it, as in the code. A status that is neither an answer nor an exception (`RET_FCNTL_FAIL`) is taken not to occur.
- WebRequest.RequestTimeSheetInsert: fields with a NUL in them are excluded, as C strings have none; the loop that sends the request piece by piece (web/webservice.cpp:626-637) is left out, as it is right for at most one partial send.
- WebRequest.Itoa: negative numbers, which would index the digits with a negative remainder, are excluded; lengths are never negative.
- WebResponse.ParsingHeader: headers on which the code follows a null pointer are excluded, and so is a header buffer without any NUL, behind which the code would search on.
- WebResponse.ReceiveBody: more content than announced, and a receive that fails with -1, which the code adds to what is left, are excluded.
- RfidFilter.SerialRfid1356.RequestReversed: one class carries both readers, and the time last remembered, a static variable of each method, is a field.
- IniMarks.BomChangesNothing: a first line of 197 to 199 characters with its newline, which the mark would push over the end of the line buffer, is not covered.
- `network::isIPv4`, zone and validity checks, the reboot timer: not modelled.
