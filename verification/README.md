# Mashroom: verified models of its core machines

Mashroom indexes GRIB1 weather files, decodes values from them, extracts time series and writes these out as text, JSON
or binary files. Its server runs requests one by one on a worker thread. This project models the parts of it in which
loops, state and arithmetic decide whether data are kept, lost or doubled, and proves what each part guarantees. Code
that changes state is modelled by methods, loops and classes that are proved against functions; the lemmas are about
those functions.

| files | part |
|---|---|
| `Bits`, `Unpack`, `Packing` | packed integers: streams of bits, the 32-bit accumulator, the packer it undoes |
| `GribFile`, `MessageLayout` | messages in a file, their sections, the cursor; messages put together by the standard |
| `Calendar`, `ReferenceTime` | valid dates and day numbers; time increments and the verification time |
| `Series`, `Extraction`, `Index`, `IndexedExtraction`, `ScanLaw`, `Sorting` | the scan, the inverted indices, extraction by positions and from an index |
| `Merge`, `TextWriter`, `WrittenRows`, `Coverage`, `TextReader`, `RoundTrip` | the text files, written and read back |
| `Windows` | the JSON and binary files |
| `WorkerQueue`, `WorkerStop` | the queue of the worker thread, as interleaved steps; what becomes of a stop request |
| `WorkerProcess` | its procedures as the threads run them, with others going on in between |
| `ParameterSearch` | search for parameters by several tokens |
| `Transfer` | sending and receiving over a stream |

## Where the code differs from what one would expect

Each of these is proved with its exact condition, and the code is modelled as it stands.

* The accumulator of `extract_all` is exact for all buffers if and only if the width is at most 26 bits, or 28 (of the
  widths up to 30). For 27, 29 and 30 bits the top bit of the third value at the latest is shifted out.
* `extract_value` moves two octets a value whatever the width, so it finds the n-th value only for n = 1 or 16 bits.
* `open_grib` refuses a file if four octets do read `7777`, and it looks one octet too early: a sound file is refused
  exactly if the last octet of its first message's data is a `7`. The scan and the indexer heed this, the extraction by
  positions does not.
* Adding months and then taking them away restores every date exactly if the day is at most 28; bare year units can
  leave 29 February in a common year, and a time unit of seconds or minutes is cut to whole hours.
* Indexing a file again files its messages twice in the four indices, though `positions_` starts anew. A merge of two
  indices that share files can leave keys behind that the newer side no longer has.
* The text writer stops after as many rows as the longest column has values, so it loses the end of other columns unless
  the longest column has all their times. Empty columns are named in the header but have no cells, and such files
  cannot be read. Times are cut to whole seconds.
* The JSON and binary writers bound their windows by the latest *first* value of a column, so later values may be lost,
  and a value on the boundary of two windows is written twice.
* The index leaves out messages whose lengths do not add up, while the scan takes values from them all the same. Both
  agree exactly if the scan takes a value from no such message.
* A stop request notifies before it sets the flag, so it can be lost: from every reachable state without a stop and with
  a worker that has not left, a run leads to the flag set and the worker asleep with no notification on its way, even if
  it was awake at the request. It then sleeps until there is a new enqueue, a new stop or a spurious wake-up. From the
  other states no run does so, unless the worker sleeps there already with the flag set and no notification on its way.

## Model

| member | source | states |
|---|---|---|
| Unpack.ExtractAll | API/grib1/src/message.cpp:109-125 | for any octets, start, count and width from 1 to 30, value i is the big-endian bit field i of the stream, less only the top bits that no longer fit beside the unread bits in 32; the octets used are the least number that hold all bits |
| Unpack.Refill | API/grib1/src/message.cpp:113-121 | a refill keeps the place in the bit stream, ends with at least a value and less than a value and an octet unread, and the accumulator equals the last 32 bits read, modulo 2^32 |
| Unpack.ShiftHolds | API/grib1/src/message.cpp:119-120 | shifting an octet in with wrap-around keeps "the accumulator is the last 32 bits read" |
| Unpack.Shift16 | API/grib1/src/message.cpp:113-117 | two octets taken at once leave the accumulator as two taken singly, wrap-around included |
| Unpack.TakeValue | API/grib1/src/message.cpp:122-123 | shift and mask give the next bit field, less the bits that have left the word |
| Unpack.ExtractValue | API/grib1/src/message.cpp:46-62 | the raw integer is the bit field that begins 2(n-1) octets after the start of the data |
| Packing.PackThenSlice | API/grib1/src/message.cpp:109-125 | the bit fields of the packed form of any list of values are the values, for every width |
| Packing.NothingLost | API/grib1/src/message.cpp:109-125 | with a safe width no bit ever leaves the accumulator before its value is taken |
| Packing.SomethingLost | API/grib1/src/message.cpp:109-125 | with every other width up to 30 some value loses a bit |
| Packing.StreamExactIff | API/grib1/src/message.cpp:109-125 | the unpacker equals the bit-field definition on every buffer and index if and only if the width is at most 26, or 28 |
| Packing.PackThenUnpack | API/grib1/src/message.cpp:109-125 | unpacking undoes packing for every list of values that fit a safe width |
| Packing.RandomAccessExactIff | API/grib1/src/message.cpp:49-50 | the single-value reader finds value n of the stream, on all buffers, if and only if n is 1 or the width is 16 |
| GribFile.Cursor.Open | API/grib1/src/message.cpp:184-216 | the cursor stands on the first message whatever the result, and the file is refused exactly if the four compared octets are sevens |
| GribFile.Cursor.NextMessage | API/grib1/src/message.cpp:146-156 | the cursor moves on by the message length if and only if that stays inside the file, and stays otherwise |
| GribFile.Cursor.SetMessage | API/grib1/src/message.cpp:217-225 | a position is accepted if and only if it is neither negative nor past the end, under the unsigned comparison; otherwise nothing changes |
| MessageLayout.LayoutIsRead | API/grib1/include/message.h:29-46 | a message put together as FM 92 GRIB edition 1 lays it out, with sections 2 and 3 present just as the first two bits of its flags say, passes the check of the lengths, and each section and the trailer is found exactly where it was put, with the octets that were put there |
| MessageLayout.LengthIsField | API/grib1/include/sections/product/def.h:27 | a length inside the file is the 24 bits there, the most significant first |
| GribFile.PartsTile | API/grib1/include/message.h:29-46 | if the sum check passes, sections 0 to 4 and the trailer cover exactly the octets of the message, and no two of them overlap |
| GribFile.OffsetsRise | API/grib1/src/message.cpp:146-156 | the visited offsets rise by at least the length of each message, lie in the file, and each passes the sum check |
| GribFile.OctetsArePartitioned | API/grib1/include/message.h:29-46 | every octet of a well-formed file lies in exactly one section or trailer of exactly one visited message |
| GribFile.ConcatIsChain | API/grib1/src/message.cpp:146-156 | following the lengths through a concatenation of blocks visits exactly the beginnings of the blocks |
| GribFile.ConcatIsWellFormed | API/grib1/include/message.h:29-46 | every concatenation of messages whose lengths add up, however short, is well formed, and its messages are found where they were put |
| GribFile.VisitedRise | API/grib1/src/message.cpp:146-156 | also in a file that is not well formed the visited offsets rise by the length of each message and lie in the file |
| GribFile.SoundFileIsRefused | API/grib1/src/message.cpp:204-209 | there is a well-formed file, its trailer in place, that is refused |
| GribFile.RefusedIsText | API/grib1/src/message.cpp:207 | the octets compared are the last but four to the last but one of the first message, and it is refused if and only if they read 7777 |
| GribFile.RefusedIff | API/grib1/src/message.cpp:204-209 | a file whose first message ends in sevens is refused if and only if the octet before them is a seven too |
| Calendar.Leap | API/grib1/src/sections/section_1.cpp:208-212 | one in the Gregorian leap years and zero in all others |
| Calendar.MonthLength | API/grib1/include/sections/product/def.h:108-110 | the cumulative table and the leap day together give the usual lengths of the twelve months |
| Calendar.MonthsByRule | API/grib1/include/sections/product/def.h:108-110 | the table, leap day included, is that of the rule of 153 days in five months from March on |
| Calendar.YearLength | API/grib1/src/sections/section_1.cpp:297-303 | the closed form for the days before a year grows by 365 days and the leap day, for every year, negative ones included |
| Calendar.DayNumberIsUnique | API/grib1/src/sections/section_1.cpp:290-322 | two valid dates with the same day number are the same |
| Calendar.StepDaysNumber | API/grib1/src/sections/section_1.cpp:290-322 | stepping k days along the calendar, one at a time and in either direction, adds k to the day number |
| Calendar.DaysOnIsStep | API/grib1/src/sections/section_1.cpp:291-294 | counting from the beginning of the month, which may be a thirteenth, is stepping from the date, if that is valid |
| Calendar.DaysAct | API/grib1/src/sections/section_1.cpp:290-323 | steps of a and b days are steps of a+b days, and -a undoes a |
| ReferenceTime.InHours | API/grib1/src/sections/section_1.cpp:256-276 | the small units become hours: seconds and minutes truncated towards zero in one division, the multiples multiplied |
| ReferenceTime.HourBranch | API/grib1/src/sections/section_1.cpp:278-288 | the clock and the days to carry are the floored remainder and quotient by 24, for increments of either sign |
| ReferenceTime.DayBranch | API/grib1/src/sections/section_1.cpp:290-323 | both year loops and the month search end, and the result is the date reached by stepping day by day; a day too large or too small for its month counts on into the neighbouring ones |
| ReferenceTime.MonthAndDay | API/grib1/src/sections/section_1.cpp:307-318 | the search in the table ends and gives the one valid date of the year with that day number, 29 February and the days after it in leap years included |
| ReferenceTime.MonthBranch | API/grib1/src/sections/section_1.cpp:236-254 | adds exactly the increment to 12*year+month and cuts the day to the new month, for increments of either sign |
| ReferenceTime.AddMonths | API/grib1/src/sections/section_1.cpp:236-254 | the result has exactly that many months more, its day is the smaller of the old day and the length of the month, and it is valid |
| ReferenceTime.AddTime | API/grib1/src/sections/section_1.cpp:214-326 | in every unit the time is shifted as that unit means, and status 1 is returned, with nothing changed, exactly for unknown units; months are only asked to be such that the table of months is read inside its bounds |
| ReferenceTime.AddHoursNumber | API/grib1/src/sections/section_1.cpp:278-322 | the result of adding k hours is the one valid time on the clock whose absolute hour count is k more |
| ReferenceTime.HoursAct | API/grib1/src/sections/section_1.cpp:278-322 | adding a and then b hours is adding a+b, and -a undoes a |
| ReferenceTime.FixedUnits | API/grib1/src/sections/section_1.cpp:265-323 | days, hours and the 3-, 6- and 12-hour units keep a time valid and lie 24, 1, 3, 6 and 12 hours apart for each unit |
| ReferenceTime.CutUnits | API/grib1/src/sections/section_1.cpp:256-263 | seconds and minutes add the whole hours in them, cut towards zero |
| ReferenceTime.MonthUnit | API/grib1/src/sections/section_1.cpp:236-254 | months leave the clock alone, add exactly as many months, and keep the day as far as the new month has it |
| ReferenceTime.YearUnits | API/grib1/src/sections/section_1.cpp:220-235 | years, decades, normals and centuries add 12, 120, 360 and 1200 months each and leave clock, month and day alone |
| ReferenceTime.MonthsBack | API/grib1/src/sections/section_1.cpp:236-254 | k months and back restore the date if and only if the month between has that day |
| ReferenceTime.MonthsAlwaysBack | API/grib1/src/sections/section_1.cpp:236-254 | they do so for every k if and only if the day is at most 28 |
| ReferenceTime.MonthsAct | API/grib1/src/sections/section_1.cpp:236-254 | a and then b months are a+b months if and only if the month between does not cut the day below that of the end |
| ReferenceTime.YearsValid | API/grib1/src/sections/section_1.cpp:220-235 | a bare year addition leaves the calendar exactly when it carries 29 February into a common year |
| ReferenceTime.VerfTime | API/grib1/src/sections/section_1.cpp:328-349 | the verification time is the reference time shifted by the increment of the time range indicator |
| ReferenceTime.VerifiedFrom | API/grib1/src/sections/section_1.cpp:328-349 | from the octets of a section with a valid reference time: it lies as many hours from that, or as many months with the clock as it was, as P1, P2, the time range indicator and the code of the unit say |
| Series.CollectByKey | src/proc/extract.cpp:116-122 | collecting values gives each key its own values, in order, after what it had, and touches no other key |
| Extraction.ProcessFile | src/proc/index.cpp:56-74 | if no length on the way is zero, the walk ends and records exactly the messages that the lengths lead to, in file order, whether their sections add up or not |
| Extraction.IndexFile | src/proc/index.cpp:79-89 | a refused file records nothing, any other all its messages |
| Extraction.Scan | src/proc/extract.cpp:79-125 | on the same files the scan ends and collects exactly the values of the messages that pass the filter, in file order |
| Extraction.ExtractByScan | src/proc/extract.cpp:71-126 | the same for the whole file, and nothing from a refused one |
| ScanLaw.ScanTakes | src/proc/extract.cpp:71-126 | the series that a scan adds under a key are, in file order, the dates and values of exactly those messages with these octets for centre, table version and parameter that have a grid and meet every part of the query that is given |
| ScanLaw.ScanKeepsDates | src/proc/extract.cpp:105-112 | with a grid type given, no date outside the interval is taken |
| Extraction.ExtractByPositions | src/proc/extract.cpp:128-173 | collects the values at the sorted positions, and passes over positions outside the file; no message at a position may have length zero |
| Extraction.MatchingRises | src/proc/extract.cpp:201 | the positions of the passing messages rise strictly in file order |
| Extraction.PositionsAgreeWithScan | src/proc/extract.cpp:71-201 | if the positions are, in any order, those of the recorded messages that pass the filter, extraction by positions and the full scan give the same series under the same keys in the same order |
| IndexedExtraction.IndexedPositions | src/proc/index.cpp:56-74 | the list that the index keeps for a well-formed file names all its messages, and each once |
| IndexedExtraction.PositionsMatch | include/data/datastruct/grib1.h:88-101 | the positions under a set of keys are, in some order and each once, those of the error-free messages that pass the query for these keys |
| IndexedExtraction.LookupAgreesWithScanIff | src/proc/extract.cpp:71-201 | for an exact index of any property and any set of keys, putting the lists of the keys together in any order, sorting them and extracting at the positions gives the same series as scanning the file for these keys, if and only if the scan takes no value from a message whose lengths do not add up |
| IndexedExtraction.WellFormedIsSound | API/grib1/include/message.h:44-45 | in a well-formed file there is no such message |
| IndexedExtraction.QueriesAskForKeys | src/proc/extract.cpp:99-104 | the query for one centre and a set of parameters and table versions, and that for a forecast, ask for just these keys of their index |
| Sorting.SortProperties | src/proc/extract.cpp:201 | a sorted permutation |
| Sorting.SortUndoesShuffle | src/proc/extract.cpp:201 | with distinct keys sorting any permutation restores the rising order |
| Index.FileMessage | include/data/datastruct/grib1.h:87-101 | filing one message extends exactly the list of its key and file, and none if it carries an error |
| Index.DataStruct.AddMessage | include/data/datastruct/grib1.h:87-110 | one turn of the loop keeps all four indices equal to what they held before and the messages so far |
| Index.DataStruct.AddFile | include/data/datastruct/grib1.h:78-110 | in each of the four indices the list of every key and file is the old one followed, for this file, by its error-free messages with that key in file order; the list of the file is just its error-free messages |
| Index.AddFileExactIff | include/data/datastruct/grib1.h:78-110 | an exact index stays exact under indexing a file if and only if the file had no error-free message in it before |
| Index.KeysPartition | include/data/datastruct/grib1.h:88-106 | over all keys of an index the lists of a file partition its positions |
| ScanLaw.IndicesListOctets | include/data/datastruct/grib1.h:103-106 | each of the four indices lists, in file order, exactly the error-free messages with the octets for centre, version and parameter, for the forecast, for the grid as decoded, and for the level |
| Index.DataStruct.Merge | include/data/datastruct/grib1.h:56-76 | every list of the other side replaces that under the same key and file, and all others stay |
| Index.MergePostings | include/data/datastruct/grib1.h:62-70 | the two nested loops, in whatever order they visit keys and files, give the keys of both sides and the other side's lists where both have one |
| Index.MergedLookup | include/data/datastruct/grib1.h:56-76 | a lookup in the merge is the other side's unless that is empty |
| Index.MergeExactIff | include/data/datastruct/grib1.h:56-76 | the merge of exact indices is exact if and only if, for shared files, every key of the first side is one of the second |
| Index.DisjointMerge | include/data/datastruct/grib1.h:56-76 | with disjoint files it is exact, and each lookup equals that in the side that holds the file |
| Merge.EmittedThenRest | src/proc/extract/write.cpp:217-230 | for any columns and number of rows, the cells of a column in order and what is left of it make up the column: it is consumed as a prefix, in order and once each |
| Merge.RestIsLong | src/proc/extract/write.cpp:196-202 | a column loses at most one value a row, so the longest one is unfinished at every row |
| Merge.SomeoneDue | src/proc/extract/write.cpp:199-202 | while the longest column lasts, the minimum is the time of a value and never the bare sentinel |
| Merge.TimesRise | src/proc/extract/write.cpp:196-202 | the row times strictly rise |
| Merge.TimesHaveSource | src/proc/extract/write.cpp:199-202 | each row time is a time of some column |
| Merge.CellsAreValues | src/proc/extract/write.cpp:217-230 | each cell is the column's value at the time of its row, and a hole if it has none |
| Merge.NothingSkipped | src/proc/extract/write.cpp:199-202 | each time of a column is the time of a row or comes after all rows |
| Merge.RowsAreFirstTimes | src/proc/extract/write.cpp:196-232 | a time is that of a row if and only if some column has it and it does not come after all rows: the rows are the first of the sorted union of all times, as many as the longest column has values |
| TextWriter.EarliestTime | src/proc/extract/write.cpp:199-202 | the minimum of the times at which the unfinished columns stand |
| TextWriter.EmitRow | src/proc/extract/write.cpp:217-230 | the row holds the values of all columns that are due and a hole for the others, and exactly the due columns move on by one |
| TextWriter.NotEarlier | src/proc/extract/write.cpp:199-202 | in sorted columns, repeated times included, no row comes before an earlier one |
| TextWriter.PutRow | src/proc/extract/write.cpp:203-215 | a row is added to exactly one file, so that each file keeps to the period its first row opens and later files open after it |
| TextWriter.WriteTxt | src/proc/extract/write.cpp:170-237 | all files together hold exactly the merged rows of the sorted non-empty columns, as many as the longest has values; each file covers its period and the files follow one another in time; the columns are left sorted |
| WrittenRows.SortRises | src/proc/extract/write.cpp:182 | sorting a column without repeated times makes it strictly rising |
| WrittenRows.ChosenInOrder | src/proc/extract/write.cpp:181-186 | the written columns stand in the order of the given ones |
| WrittenRows.WriterIsReady | src/proc/extract/write.cpp:181-188 | whatever columns without repeated times the writer is given, empty ones included, one of those it writes has as many values as there are rows |
| WrittenRows.FilesHaveFirstTimes | src/proc/extract/write.cpp:170-237 | the rows of all its files strictly rise in time, are as many as the longest column has values, and have exactly the first times that occur in any of the given columns |
| WrittenRows.FilesHaveValues | src/proc/extract/write.cpp:217-230 | in each of them the cell of a written column is its value at that time, or a hole if it has none |
| Coverage.ContainedEnds | src/proc/extract/write.cpp:187-202 | if the longest column has every time as often as the others, all columns end with the last row |
| Coverage.WholeIff | src/proc/extract/write.cpp:187-232 | for sorted columns, repeated times included, the rows hold the whole of every column if and only if the longest has each time at least as often as every other |
| Coverage.ContainedTimes | src/proc/extract/write.cpp:187-232 | without repeated times, that means that it has all their times |
| TextReader.WordsAre | src/proc/extract/read.cpp:23-44 | spaces and tabulators separate words, and nothing else does |
| TextReader.PadFills | src/proc/extract/write.cpp:220-229 | a text set in a column stands at its left and is filled up with spaces |
| TextReader.FindWord | src/proc/extract/read.cpp:30-31 | the next character that is no separator, or the end; what is skipped holds no word |
| TextReader.FindEnd | src/proc/extract/read.cpp:33-37 | what is cut out is the first of the remaining words, and it is empty only at the end |
| TextReader.SplitIgnore | src/proc/extract/read.cpp:23-44 | the loop ends and gives the words between the separators |
| TextReader.BodyWords | src/proc/extract/read.cpp:23-44 | splitting texts set in columns of any width, each followed by a tab, gives the texts back |
| TextReader.SomeFormatIsFaithful | src/proc/extract/read.cpp:297-319 | there are formats in which what is printed is read again, so that the laws below speak of something |
| TextReader.RowWords | src/proc/extract/write.cpp:216-231 | what is printed after the time of a row is one line, and its words are the texts of the cells |
| TextReader.RowTakenOff | src/proc/extract/read.cpp:297-308 | from the text of a row and whatever follows, the reader takes exactly the time, then the cells, and leaves the rest |
| TextReader.ReadLine | src/proc/extract/read.cpp:308-321 | one line is read cell by cell, without its holes, or refused if it has too few words or a word is no number |
| TextReader.CellsRead | src/proc/extract/read.cpp:311-321 | a line can be read if and only if each of its words is NaN or a number, and then each key gains the number in its place and no other key anything |
| TextReader.GoodLineGoesOn | src/proc/extract/read.cpp:308-321 | such a line is taken, with words to spare or not, and the next one decides |
| TextReader.BadLineSpoils | src/proc/extract/read.cpp:298-318 | after any good rows, a malformed time, a missing rest of the line, too few words or a word that is neither spoil the whole text |
| TextReader.NamesAre | src/proc/extract/read.cpp:278-295 | the line of names is accepted if and only if it has one word for the time and one for each key, and each key that the table knows has its own; one that it does not know may have any |
| TextReader.ReadData | src/proc/extract/read.cpp:266-330 | from the text of the section: succeeds if and only if its two head lines are there, whatever the first one says, the column names fit and every line after them can be read, time included, and then with the series of the lines |
| TextReader.RowsReadBack | src/proc/extract/read.cpp:296-322 | reading the printed text of rows whose numbers and times have a text succeeds and collects exactly the cells that are no holes |
| TextReader.FileReadsBack | src/proc/extract/read.cpp:296-322 | the rows of a file read back, for each key, as the series that they hold, value by value, each at the whole second that its time lies in, on the side of zero |
| RoundTrip.FilesReadBack | src/proc/extract/read.cpp:266-330 | the data sections of all files of a rollover together read back as the series of all rows, value by value, each at its whole second |
| RoundTrip.ReadsBack | src/proc/extract/read.cpp:266-330 | what the writer writes of non-empty columns reads back, value by value, as the first values of each column, each at the whole second that its time lies in |
| RoundTrip.TextRoundTripIff | src/proc/extract/write.cpp:196-232 | writing and reading restore every sorted column if and only if the longest has all times at least as often, and all times are whole seconds |
| RoundTrip.ReadableIff | src/proc/extract/read.cpp:309-310 | a file with rows can be read if and only if no column is empty |
| RoundTrip.NamesReadBackIff | src/proc/extract/read.cpp:276-295 | the reader accepts the writer's line of names if and only if each name is one word on one line |
| Windows.WindowIsFilter | src/proc/extract/write.cpp:280-281 | in a sorted column the two binary searches cut out exactly the values from the lower to the upper bound, both included |
| Windows.SortAndBound | src/proc/extract/write.cpp:245-253 | sorts the columns and finds the earliest and the latest of their first values |
| Windows.WriteJson | src/proc/extract/write.cpp:239-302 | the loop ends, each window begins where the last one ended, and its file holds of each column exactly the values between its bounds |
| Windows.WriteBin | src/proc/extract/write.cpp:304-371 | the same files, without the columns that have no value in the window |
| Windows.WindowCount | src/proc/extract/write.cpp:258-300 | a time from the first window on lies in two windows if it is an interior boundary, in none if it comes after the last window, and in one otherwise |
| Windows.SomeoneIsLatest | src/proc/extract/write.cpp:246-253 | the bound of the windows is the first time of some column, not a later one |
| Windows.FirstNotAfterLatest | src/proc/extract/write.cpp:246-253 | and no column begins after it |
| Windows.FilesCoverFirsts | src/proc/extract/write.cpp:245-300 | windows follow one another from the earliest first value of a column, and the last one is the one that the latest first value of a column lies in; there are none if all columns are empty |
| Windows.EndIsLater | src/proc/extract/write.cpp:258-300 | the last window reaches beyond the bound |
| Windows.FileCount | src/proc/extract/write.cpp:258-300 | a value is in two files if a window but the first begins at its time, in none if it comes after the last window, and in one otherwise |
| Windows.BinFilesAsMany | src/proc/extract/write.cpp:350-357 | a value is in as many binary files as JSON files: leaving columns out of a file loses none |
| Windows.PresentKeeps | src/proc/extract/write.cpp:350-357 | a binary file keeps just the columns with a value in the window, each whole, once and in order |
| Windows.WrittenIff | src/proc/extract/write.cpp:245-300 | a value is written if and only if it does not come after the end of that last window |
| WorkerQueue.StepKeepsInv | network/include/abstractqueuableprocess.h:13-27 | every step of worker, enqueuers and stoppers keeps the invariant: the queue is the end of what was pushed, each task before it has either started or been dropped, starts are in order, the worker holds the lock just where it should, and a sleeping worker with a task in the queue has a notification coming |
| WorkerQueue.RunKeepsInv | network/include/abstractqueuableprocess.h:13-27 | in every state of every run the invariant holds, so no enqueue is lost |
| WorkerQueue.ExactlyOneFate | network/include/abstractqueuableprocess.h:46-53 | each pushed task is in exactly one of pending, started and dropped, and the pending ones are the queue in order |
| WorkerQueue.AtMostOneMore | network/include/abstractqueuableprocess.h:14-26 | in every run the worker starts at most one more task once the flag is set |
| WorkerQueue.StoppedRun | network/include/abstractqueuableprocess.h:14-26 | a worker that is awake with the flag set never sleeps again, and each of its steps brings it nearer to the exit, seven at most |
| WorkerQueue.AwakeProgress | network/include/abstractqueuableprocess.h:13-27 | a worker that is awake and cannot move waits for a thread that can, and that is nearer to releasing the lock after its step |
| WorkerQueue.CanLeave | network/include/abstractqueuableprocess.h:13-27 | from every reachable state in which the flag is set and the worker awake there is a run to the exit in which only threads already under way move |
| WorkerQueue.HeadIsTaken | network/include/abstractqueuableprocess.h:98-100 | from every reachable state with a task in the queue and no stop there is such a run that starts the first task, or drops it if a stopper already holds the lock to clear the queue; a sleeping worker is woken on the way |
| WorkerQueue.HeadIsNear | network/include/abstractqueuableprocess.h:13-27 | in every run without a stop, whoever else moves, the worker takes fewer than six steps before the first task is taken out of the queue |
| WorkerStop.StopLost | network/include/abstractqueuableprocess.h:46-53 | from every state that keeps the invariant, without a stop and with a worker that has not left, a run without spurious wake-ups leads to the flag set, the worker asleep, the queue empty, the lock free and no stopper with anything left to do |
| WorkerStop.LostRun | network/include/abstractqueuableprocess.h:24-26 | once the flag is set and the worker sleeps with no notification on its way, it stays asleep in every run without a new enqueue, a new stop or a spurious wake-up |
| WorkerStop.LeavesIff | network/include/abstractqueuableprocess.h:13-27 | once the flag is set, some run without these leads the worker to the exit if and only if it is awake or a notification is on its way |
| WorkerStop.StopTakesIff | network/include/abstractqueuableprocess.h:46-53 | in terms of the state before the request: no run leads to such a loss if and only if the worker has left, or the flag is set already and it is awake or a notification is on its way |
| WorkerQueue.ReachedKeepsInv | network/include/abstractqueuableprocess.h:13-27 | the invariant holds in every state that can be reached from the start |
| WorkerQueue.RunReaches | network/include/abstractqueuableprocess.h:13-27 | and these are all states of all runs from there |
| WorkerProcess.ForeignKeeps | network/include/abstractqueuableprocess.h:13-27 | what a thread in the middle of a procedure can rely on: under the lock the queue stays and an awake worker stays awake, the log only grows, and the worker is at most woken |
| WorkerProcess.QueuableProcess.Enqueue | network/include/abstractqueuableprocess.h:67-101 | whatever others do in between, when it returns the task is the last in the queue and the worker is not asleep; otherwise somebody has kept the lock for good |
| WorkerProcess.QueuableProcess.RequestStopProtected | network/include/abstractqueuableprocess.h:46-53 | whatever others do in between, when it returns the flag is set and every task that was pushed before the call has started or been dropped |
| WorkerProcess.QueuableProcess.AfterExecution | network/include/abstractqueuableprocess.h:13-27 | whatever others do between any two of its steps, stops while it holds the lock included, the tasks it runs are exactly those marked as started, in the order in which they were pushed; it leaves only with the flag set; and if it ends up asleep with the lock free, every task that was ever pushed has started or been dropped |
| ParameterSearch.ApproxMatch | API/grib1/include/cast/parameters.h:26-42 | lists exactly the matching parameters, strictly by table version and parameter, for every match relation |
| ParameterSearch.ListIsUnique | API/grib1/include/paramtablev.h:22-26 | a set of parameters has only one strictly ordered list |
| ParameterSearch.IntersectionHas | API/grib1/include/cast/parameters.h:59 | the merge of two ordered lists keeps exactly what is in both |
| ParameterSearch.DifferenceHas | API/grib1/include/cast/parameters.h:57 | the merge of two ordered lists keeps exactly what is in the first only |
| ParameterSearch.Narrow | API/grib1/include/cast/parameters.h:53-60 | a later token keeps exactly the found parameters that match it, or that do not if it begins with '-, in order |
| ParameterSearch.MatchesIs | API/grib1/include/cast/parameters.h:31-37 | a parameter matches if and only if the table has an entry for it with the token for its name or in its comment |
| ParameterSearch.TokensNarrow | API/grib1/include/cast/parameters.h:48-68 | an empty token changes nothing, the first one given selects its matches whatever it begins with, a later one keeps its matches, and a later one that begins with '- takes out those of what follows |
| ParameterSearch.NothingWanted | API/grib1/include/cast/parameters.h:50-51 | once a parameter is out, no later token brings it back, so leaving early is right |
| ParameterSearch.MultiTokenMatch | API/grib1/include/cast/parameters.h:44-70 | lists, in strict order, exactly the parameters that match the first non-empty token, each later plain one and none of the excluded ones |
| Transfer.SendBuffer | network/include/send.h:99-113 | the loop ends; on success the whole buffer goes out in order, on an error exactly the octets that the calls before it reported |
| Transfer.Send | network/include/send.h:115-124 | on success all buffers go out one after the other, on an error a proper beginning of them |
| Transfer.Receive | network/include/receive.h:65-111 | the loop ends; on success the last n octets of the buffer are the next n of the stream, in order, and nothing else has changed; it fails only at an error or at the eleventh empty call in a row, and then fewer than n octets have been placed |
| Transfer.PatientIs | network/include/receive.h:78-108 | the receiver goes on if and only if no call has failed and no eleven calls in a row have returned nothing |
| Transfer.GaveUpIs | network/include/receive.h:80-99 | it gives up at a call that fails, or after eleven in a row that return nothing |
| Transfer.SendThenReceive | network/include/receive.h:65-111 | whatever the fragmentation, if both succeed the first n octets of what was on its way and what was sent are at the end of the buffer, and the rest of both is as before; with nothing on its way that is exactly what was sent |

## Left out

- Unpack.ExtractAll: widths of 31 and 32 bits, where the mask shifts by the whole or the sign bit of an `int`, are not modelled, and neither is width 0, which has a branch of its own that returns the reference value. The result array gets its size here; the code never sizes it in this branch. The data begin at a parameter: the code begins at the section's first octet in `extract_all` and eleven octets on in `extract_value`.
- Unpack.ExtractValue: gives the raw integer only; scaling to floating point is not modelled.
- The bitmap branches of `extract_value` and `extract_all`: they use masks and bits that are never initialised.
- ReferenceTime.AddTime: `int` is unbounded here, so overflow of very large increments is not modelled; a month for which the code would read outside its table of months is excluded.
- ReferenceTime.VerfTime: the same holds for the month in the header.
- GribFile.Cursor.Open: opening and mapping the file and their error codes are not modelled; a message shorter than five octets, for which the comparison would read before the file, is excluded.
- GribFile.Cursor.SetMessage: file sizes from 2^63 on are excluded.
- Octets behind the end of the mapped file are read as zero. `err_` is left uninitialised by the code when the lengths add up; it is modelled as "no error".
- Extraction.ProcessFile: a message without section 2, from which `define_grid` would be called on a null pointer, has no grid here, as in the scan. A message of length zero on the way, at which the walk would not end, is excluded.
- Extraction.Scan: the same messages of length zero are excluded; requests to stop and log output are left out. Reference time, decoding of the grid, place in the grid and decoded value are uninterpreted functions of the message.
- Extraction.ExtractByScan: a first message of fewer than five octets is excluded, as for `GribFile.Cursor.Open`.
- Extraction.IndexFile: the same.
- Extraction.ExtractByPositions: the same. Positions at which a message has length zero are excluded: the code then destroys the message that it goes on to read. And the loop over files and the checks of the file system around it are left out.
- Extraction.PositionsAgreeWithScan: `match_data`, which should deliver the positions, has no usable body; the lemma takes its result as given.
- Index.DataStruct.AddMessage: keys are found by their values, and grids by their decoded fields. In the code the keys are shared pointers, and only those to common properties have a hash and an equality by value (include/data/common_data_properties.h:112-175); for forecasts, grids and levels none is shown, and the model takes comparison by value for granted. The hash of a grid itself (API/grib1/include/sections/grid/grid.h:219-223) is taken of the octets at the address of the hash object and not of the grid; the model takes hashing to agree with equality.
- Index.DataStruct.AddFile: the same, and the time of the last check that is stored with a path, reserved capacity and the index by date, which is never filled, are left out. Paths are values here, so a key that outlives the text it refers to is not modelled.
- Index.DataStruct.Merge: the same, comparison of keys by value included, and the set of added paths, which nothing uses. The other index is read as it was before the call.
- TextWriter.WriteTxt: sorting, done per column in the same loop as the search for the bounds, comes first here, and `std::sort` is taken to keep equal times in order. `get_next_tp` is assumed only to be later than its argument. Names and headers of files, directories, and requests to stop are left out, and so is a number of rows beyond the range of `int`.
- TextReader.ReadData: parsing a time at the beginning of a text and printing and parsing of numbers are parameters; where the round trip is stated, what is printed is assumed to be read again, for the numbers and times that have a text. Which error is reported is not stated. The header before the data section is left out.
- Windows.WriteJson: the JSON text, file names and errors of the file system are left out, and times are unbounded integers, so the overflow of a bound is not modelled.
- Windows.WriteBin: the serialized form is left out.
- WorkerProcess.QueuableProcess.RequestStopProtected: `request_stop_protected(true)`, the future and promise of a task, exceptions, moves of the object and what the base class runs before the loop are left out. There is one worker, so at most one task runs at a time by construction. Others take finitely many steps, in any order and at any place; a procedure that would wait for ever returns and says so.
- ParameterSearch.ApproxMatch: the parameter tables and the comparisons of text are left open.
- Transfer.Send: the flags, the messages and a `::send` that returns 0 for a non-empty piece are left out.
- Transfer.Receive: the pauses between empty calls are left out. The code compares the returned number, rather than `errno`, with positive codes, so every negative number is an error here, as it is there.
- `match`, `find_all`, `by_date_`, configuration, command line, archives, images and the serialization library are left out.
