# Verified model of the MT6582 device code

This project models the hand-written logic of the MediaTek MT6582 Android device tree and proves
what it keeps and computes: the GPS HAL (`mtk/gps/hal/gps_mtk_aosp.c`), the YGPS NMEA parser, the
RIL socket reader and hex decoder, the LED arbitration, the shared-radio frequency list and the
operator-name memo. `dafny verify dfyconfig.toml` checks all of it.

## Layout

| files | what they hold |
|---|---|
| `Bytes.dfy` | octets, C's 32-bit integers, little-endian words |
| `Calendar.dfy`, `EpoTime.dfy` | GPS week and second to calendar time; hour stamps; freshness of an EPO file |
| `EpoRound.dfy`, `EpoWorker.dfy`, `EpoHal.dfy` | one piece of EPO data; the worker as a state machine; the HAL's fields and functions, proved to take its steps |
| `StartHandoff.dfy` | framework thread, gps thread and the daemon's death notices, interleaved field by field |
| `Tokenizer.dfy`, `NmeaLines.dfy`, `Satellites.dfy`, `Epochs.dfy`, `NmeaReader.dfy`, `NmeaReads.dfy` | NMEA fields, line assembly, GSA/GSV accumulation, epochs and their reports, the reader from bytes to reports, and several reads |
| `NmeaSentences.dfy`, `EpochEntries.dfy` | sentences as they are written and what is read of them; a report's entries one by one |
| `MessageCodec.dfy`, `TextChain.dfy` | message buffers; ASCII to UCS-2 to hex and back |
| `TalkerState.dfy`, `TalkerFields.dfy`, `YgpsParser.dfy` | the Java NMEA parser: one talker's sentences; what they leave, field by field and over runs; the maps of all talkers |
| `RilStream.dfy` | RIL message framing over a stream that splits reads |
| `Lights.dfy`, `SharedFreqs.dfy`, `Operators.dfy` | LED arbitration; frequency list; operator names |

Code that works by changing fields or buffers is a class or an array method, proved equal to a
specification function of the old state; the results are lemmas about those functions and about
references that do not follow the code: successive calendar days, splitting at newlines or commas,
sentences put together from fields, cutting a stream into frames, the concatenation of pieces, the
bytes of a colour, a length word or an hour stamp.

Inputs from outside are parameters: what a download brings, what the clock says, how many bytes a
read hands back, the lines of the configuration file, the elements of the operator file, whether an
interface has a BSSID. Local time is UTC moved by a constant number of seconds.

## What the code does not do

Where a promise of the code fails, the model keeps the code and the lemmas say exactly when:

- A line of exactly 128 bytes swallows the next one; the sentences are the short lines if and only
  if no short line follows an odd run of such lines (`NmeaLines.KeptLinesExact`).
- A downloaded piece shorter than one record stays in EPOHAL.DAT without being counted
  (`EpoRound.ShortPieceStays`); behind counted pieces that is exactly what spoils the file
  (`EpoRound.FileUpdateKeepsMergedIff`, `EpoWorker.RunKeepsInv`).
- The wakelock can be acquired twice without a release, exactly when a start writes `start_flag`
  while one death handler stands between releasing the wakelock and clearing `start_flag`
  (`StartHandoff.WakelockAlternates`, `StartHandoff.StraddleBreaksAlternation`,
  `StartHandoff.AStraddlingRun`).
- The wifi freshness check accepts data that has run out, exactly when its period is longer than
  the file's span (`EpoTime.WifiFreshnessSafeIff`).
- Hour stamps are multiplied out exactly up to 1193046, and to 1193040 for the end of a record
  (`EpoTime.StampSecondsExact`); the times they mean survive mktime exactly while they fit the
  32-bit time_t of the device, until January 2038 (`EpoTime.SpanExactIff`).
- Numeric configuration values lose their last character, so `DW_DAYS=30` asks for 3 days; days
  mean what they say iff they are 0 or at least 300 (`EpoWorker.ConfigDropsLastDigit`).
- Giving up after ten retries ends the attempts exactly when no request stands and the data at hand
  is less than a day old (`EpoWorker.GivingUpIsFinalIff`); then nothing is downloaded until a start or
  the wifi trigger orders it (`EpoWorker.QuietRunIff`). With stale or no data the attempts never end
  (`EpoWorker.StaleNeverGivesUp`).
- The count of satellites leaves the buffer exactly when a closing GSV message finds more counted
  than fits and allows as many (`Satellites.OvercountsIff`, `Satellites.CountStaysIff`). That cannot
  happen inside groups (`Satellites.ReportsWithinBuffer`), and can always be brought about by
  repeating a group's last message (`Satellites.RepeatedLastMessageOvercounts`,
  `Satellites.OvercountingRun`).
- An epoch without satellites leaves its GSA marks to the next one (`Epochs.EpochReport`).
- A read that ends behind a closed group reports what is closed (`NmeaReads.ReadReportsIff`). The
  satellites read so far of a group still open are then lost, and the rest is reported apart
  (`Epochs.RestReport`, `Epochs.NothingMissingIff`, `Epochs.FourMissing`). The epoch keeps its one whole
  report exactly when no satellite is announced behind the end of that read and none was caught with
  an open group, or the list was full already (`NmeaReads.EpochFromReadsIff`).
- A numeric field of zeros makes the Java parser throw (`TalkerState.ZerosThrow`), and its GSA loop
  records the fix mode as a satellite (`TalkerState.FixModeCountsAsSatellite`), so that the used ids are
  not those named exactly when the mode is a positive number that is not named as well
  (`TalkerState.UsedIdsAreNamedIff`). A field of zeros
  costs a GSA sentence its dilutions (`TalkerState.GsaDilutionsIff`).
- The LED status cache alone is stale for new delays on a blinking LED (`Lights.CacheStaleIff`), and
  a battery state hides notifications behind a dark panel exactly when it has a colour but no alpha
  (`Lights.TransparentBatteryHides`).
- The memo answers right under another table if and only if the remembered name is still right
  (`Operators.StaleIff`).

## Model

| member | source | states |
|---|---|---|
| `Bytes.Le32RoundTrip` | mtk/gps/hal/gps_mtk_aosp.c:712-744 | a C int stored as a word and read back is the same int |
| `Bytes.Le32Weights` | mtk/gps/hal/gps_mtk_aosp.c:712-744 | the stored bytes weigh 1, 256, 65536 and 16777216 |
| `Calendar.DayAfterEpochCounts` | mtk/gps/hal/gps_mtk_aosp.c:4967-4992 | the n-th day after 1980-01-06 has day number n + 5 counted from 1980-01-01 |
| `Calendar.DayNumberInjective` | mtk/gps/hal/gps_mtk_aosp.c:4995-5046 | a valid date is determined by its day number |
| `Calendar.DecideYear` | mtk/gps/hal/gps_mtk_aosp.c:4995-5017 | splits any day count into whole Gregorian years and a day of the year |
| `Calendar.DecideMonth` | mtk/gps/hal/gps_mtk_aosp.c:5020-5045 | the unique valid month and day of that day of the year, leap or not |
| `Calendar.GpsToUtcTime` | mtk/gps/hal/gps_mtk_aosp.c:4967-5059 | for every week and second: a valid calendar time, exactly that many successor days and seconds after 1980-01-06 00:00 |
| `Calendar.GpsTimeMktime` | mtk/gps/hal/gps_mtk_aosp.c:5052-5061 | that time is the GPS epoch plus every elapsed second, less the zone; mktime gives it, or -1 where it does not fit 32 bits |
| `Calendar.DaysToYearClosed` | mtk/gps/hal/gps_mtk_aosp.c:4995-5017 | days to a year are 365 a year and one for every fourth year, but of the centuries only every fourth |
| `Calendar.KnownInstants` | mtk/gps/hal/gps_mtk_aosp.c:4995-5061 | the reckoning agrees with known instants of 2000, 2020, 2038 and 2100 |
| `EpoTime.StampSecondsExact` | mtk/gps/hal/gps_mtk_aosp.c:5080-5082 | the 32-bit product is exact iff the stamp is at most 1193046, and with the six hours iff at most 1193040 (also lines 5109-5113) |
| `EpoTime.StampsDecodeInOrder` | mtk/gps/hal/gps_mtk_aosp.c:5080-5117 | within the range later stamps decode to strictly later calendar times, at the true second |
| `EpoTime.PeriodStart` | mtk/gps/hal/gps_mtk_aosp.c:5069-5088 | start of a file from its first record, -1 past the range of time_t, or failure when there is no record |
| `EpoTime.PeriodEnd` | mtk/gps/hal/gps_mtk_aosp.c:5091-5120 | end of a file, six hours past its last record, -1 past the range of time_t, or failure |
| `EpoTime.SpanExactIff` | mtk/gps/hal/gps_mtk_aosp.c:5069-5120 | a file begins at the hour written in its first three bytes and ends six hours past the one written 72 bytes before its end, read low byte first; mktime gives these times iff they fit a 32-bit time_t, until January 2038 |
| `EpoTime.EpoIsExpired` | mtk/gps/hal/gps_mtk_aosp.c:4211-4261 | the branch ladder gives the verdict that KeptHowLong describes, and data the non-wifi check accepts has not run out (given start <= end) |
| `EpoTime.KeptHowLong` | mtk/gps/hal/gps_mtk_aosp.c:4227-4261 | exactly how long data of d days is kept: not at all below 3, one day less than its whole three-day pieces below 9, seven days from 9, the period if the span reaches it; the wifi check its own period |
| `EpoTime.FreshnessSafe` | mtk/gps/hal/gps_mtk_aosp.c:4227-4261 | accepted data has not run out, expired stays expired, and the zone does not matter |
| `EpoTime.FreshFileHasData` | mtk/gps/hal/gps_mtk_aosp.c:4211-4261 | for a whole file: fresh means that the clock, counted from the GPS epoch, precedes six hours past the hour stamp written in its last record, even where mktime fails |
| `EpoTime.WifiFreshnessSafeIff` | mtk/gps/hal/gps_mtk_aosp.c:4227-4228 | the wifi check is safe iff its period is at most the file's span |
| `EpoRound.LongPiece` | mtk/gps/hal/gps_mtk_aosp.c:5580-5648 | a readable piece either restarts the round after a day's gap, or is appended and counted, or closes the round |
| `EpoRound.ShortPiece` | mtk/gps/hal/gps_mtk_aosp.c:5522-5531 | a piece below one record fails the round, uncounted, but stays appended |
| `EpoRound.FileUpdateKeepsMergedIff` | mtk/gps/hal/gps_mtk_aosp.c:5580-5648 | EPOHAL.DAT stays exactly the counted pieces iff no unreadable bytes are appended behind them; the counter stays in 0..9 (also lines 5318-5355) |
| `EpoRound.ShortPieceStays` | mtk/gps/hal/gps_mtk_aosp.c:5522-5531 | after a short piece the next one is counted behind bytes that belong to no piece (also lines 5328-5350) |
| `EpoRound.RoundClosesExactly` | mtk/gps/hal/gps_mtk_aosp.c:5599-5628 | a round closes with piece max(1, ceil(days/3)) and EPOHAL.DAT then is exactly those pieces |
| `EpoRound.UpdateLeaves` | mtk/gps/hal/gps_mtk_aosp.c:5580-5648 | what is on disk afterwards: a failure touches its own piece file only, a gap takes the round's files, the last piece those of the configured days, and EPO.DAT goes iff the round closes in a session (also lines 5318-5359, 5540-5570) |
| `EpoWorker.ConfigDropsLastDigit` | mtk/gps/hal/gps_mtk_aosp.c:2623-2637 | a decimal value is read without its last digit; exactly which days, switches and periods still mean what they say (also lines 2569-2600, 2637-2656) |
| `EpoWorker.LastLineCounts` | mtk/gps/hal/gps_mtk_aosp.c:2602-2668 | each of the five settings is what the last line of its own key says, and stays if there is none |
| `EpoWorker.StepKeepsInv` | mtk/gps/hal/gps_mtk_aosp.c:4650-4747 | a step of any thread keeps the worker's invariant iff it does not append an unreadable piece behind counted ones (also lines 5502-5648) |
| `EpoWorker.RunKeepsInv` | mtk/gps/hal/gps_mtk_aosp.c:4650-4747 | over every run, counter 0..9, days 0..30, and EPOHAL.DAT exactly the counted pieces, each within a day of the one before, all along iff no event spoils the file so (also lines 5502-5648) |
| `EpoWorker.RunFromStart` | mtk/gps/hal/gps_mtk_aosp.c:4650-4747 | the same for a HAL that starts with whatever EPO files it finds |
| `EpoWorker.RunKeepsRoundLength` | mtk/gps/hal/gps_mtk_aosp.c:5599-5605 | with constant days every run stays within a round of max(1, ceil(days/3)) pieces |
| `EpoWorker.RoundEndsExactly` | mtk/gps/hal/gps_mtk_aosp.c:5599-5628 | after any run from a start with any files, the next download meets the request iff it is a readable continuation as the last piece; the file then is exactly the round (also lines 4661-4671) |
| `EpoWorker.ResumeMeetsRequest` | mtk/gps/hal/gps_mtk_aosp.c:5599-5628 | the same for a resumed download (also lines 4673-4704) |
| `EpoWorker.RoundTakesItsLength` | mtk/gps/hal/gps_mtk_aosp.c:5599-5628 | an undisturbed round takes exactly its length of downloads and leaves their concatenation (also lines 4661-4671, 5318-5355) |
| `EpoWorker.ResumesTakeTheRest` | mtk/gps/hal/gps_mtk_aosp.c:4673-4728 | resumes with continuing pieces, the round less than a day old, are each counted with no alarm in between and close the round after exactly the missing number of pieces; EPOHAL.DAT is the old one followed by them |
| `EpoWorker.FailedDownload` | mtk/gps/hal/gps_mtk_aosp.c:4661-4671 | a download without progress drops the request, keeps the counter and the files, and leaves the failure to resume |
| `EpoWorker.ResumesAgainIff` | mtk/gps/hal/gps_mtk_aosp.c:4704-4726 | another resume can follow at once iff the counter moved and the failure stands; otherwise it waits for the alarm |
| `EpoWorker.StepSpendsBudget` | mtk/gps/hal/gps_mtk_aosp.c:4673-4726 | each resume without progress uses up one of the remaining retries, nothing gives one back |
| `EpoWorker.RetriesBounded` | mtk/gps/hal/gps_mtk_aosp.c:4673-4726 | a failing piece is resumed at most ten times with the failure standing, whatever happens in between |
| `EpoWorker.BudgetCanBeSpent` | mtk/gps/hal/gps_mtk_aosp.c:4673-4726 | the bound is met by a run |
| `EpoWorker.FailureStandsIff` | mtk/gps/hal/gps_mtk_aosp.c:4704-4726 | n failing resumes leave the failure standing iff n is at most 9 less the retries counted, or at most 10 after another piece |
| `EpoWorker.GivingUpIsFinalIff` | mtk/gps/hal/gps_mtk_aosp.c:4695-4726 | the resume that uses up the retries leaves nothing to download iff no request stands and the data is not a day old |
| `EpoWorker.QuietUntilOrdered` | mtk/gps/hal/gps_mtk_aosp.c:4650-4747 | with nothing to download, exactly a start or wifi trigger that finds data missing or past its age orders one; the wifi trigger only when the data is a day old (also lines 4288-4333) |
| `EpoWorker.QuietRunIff` | mtk/gps/hal/gps_mtk_aosp.c:4650-4747 | a quiet worker stays quiet through a run iff no event of it orders a download, and until then asks for nothing (also lines 4288-4333) |
| `EpoWorker.NothingAfterGivingUp` | mtk/gps/hal/gps_mtk_aosp.c:4695-4726 | after the last retry on data that is not stale nothing is downloaded before an event orders it |
| `EpoWorker.FutileRound` | mtk/gps/hal/gps_mtk_aosp.c:4661-4726 | with stale data a resume orders a new round whatever the retry count, and its failed download leaves the same state of affairs |
| `EpoWorker.StaleNeverGivesUp` | mtk/gps/hal/gps_mtk_aosp.c:4661-4726 | with stale data and no network each alarm brings one more attempt, for any number of them |
| `EpoWorker.StartDecides` | mtk/gps/hal/gps_mtk_aosp.c:4288-4333 | a start orders a round iff EPO is enabled, the data is missing or expired and no failed round is left to the worker; exactly then EPOHAL.DAT goes, and exactly when it is good EPO.DAT goes |
| `EpoWorker.HalRemovedIff` | mtk/gps/hal/gps_mtk_aosp.c:4650-4747 | the steps that remove EPOHAL.DAT: a day's gap, a stale resume, a wifi or start order, the daemon's confirmation between rounds (also lines 4288-4333) |
| `EpoWorker.ExpiryMeasures` | mtk/gps/hal/gps_mtk_aosp.c:4211-4261 | which file and which period a verdict is taken by (also lines 5123-5205) |
| `EpoHal.AppendFile` | mtk/gps/hal/gps_mtk_aosp.c:5332-5346 | the 256-byte copy loop appends the whole piece |
| `EpoHal.Hal.ReadConfigFile` | mtk/gps/hal/gps_mtk_aosp.c:2602-2668 | the configuration loop over the lines of the file |
| `EpoHal.Hal.DownloadFileName` | mtk/gps/hal/gps_mtk_aosp.c:2670-2743 | names pieces 0 to 9, keeps the old name otherwise |
| `EpoHal.Hal.DownloadPiece` | mtk/gps/hal/gps_mtk_aosp.c:5316-5361 | a fetched piece is stored and appended, a failed one flagged (also lines 5417-5426) |
| `EpoHal.Hal.ServerDataIsChanged` | mtk/gps/hal/gps_mtk_aosp.c:5502-5578 | the gap test, its error flags and the removal of the round's files |
| `EpoHal.Hal.UpdateFile` | mtk/gps/hal/gps_mtk_aosp.c:5580-5648 | one file update of the state machine, nothing else changed |
| `EpoHal.Hal.IsExpired` | mtk/gps/hal/gps_mtk_aosp.c:4211-4261 | the verdict on the file at hand; expiry resets the counter |
| `EpoHal.Hal.ReadSpan` | mtk/gps/hal/gps_mtk_aosp.c:5123-5205 | start and end of EPOHAL.DAT if present, else of EPO.DAT, else zeros |
| `EpoHal.Hal.RunDownload` | mtk/gps/hal/gps_mtk_aosp.c:4661-4671 | the download phase of the worker's loop |
| `EpoHal.Hal.RunResume` | mtk/gps/hal/gps_mtk_aosp.c:4673-4728 | the resume phase |
| `EpoHal.Hal.RunWifi` | mtk/gps/hal/gps_mtk_aosp.c:4730-4738 | the wifi phase |
| `EpoHal.Hal.Start` | mtk/gps/hal/gps_mtk_aosp.c:4288-4333 | what a start decides about EPO data |
| `StartHandoff.StartsBoundedByDeaths` | mtk/gps/hal/gps_mtk_aosp.c:3862-3867 | in every interleaving starts past M_START never exceed tokens released, nor one plus the deaths taken (also lines 563-598, 3458-3475, 4335) |
| `StartHandoff.StopsBoundedByDeaths` | mtk/gps/hal/gps_mtk_aosp.c:4193-4198 | cleanups past M_STOP never exceed the deaths that released it, nor the cleanups begun (also lines 3458-3475) |
| `StartHandoff.StepKeepsWakeInv` | mtk/gps/hal/gps_mtk_aosp.c:4277-4350 | a step keeps the wakelock invariant iff it is not a start that straddles a death (also lines 3458-3475) |
| `StartHandoff.WakelockAlternates` | mtk/gps/hal/gps_mtk_aosp.c:4277-4350 | without a straddling start a release lies between any two acquisitions (also lines 3458-3475) |
| `StartHandoff.StraddleBreaksAlternation` | mtk/gps/hal/gps_mtk_aosp.c:4345-4350 | every straddling start can be followed by a second acquisition without a release (also lines 3470-3471) |
| `StartHandoff.AStraddlingRun` | mtk/gps/hal/gps_mtk_aosp.c:4265-4350 | a run in which a start straddles a death (also lines 3458-3475) |
| `Tokenizer.FieldsJoin` | mtk/gps/hal/gps_mtk_aosp.c:1329-1346 | the fields joined by commas are the text, and none holds a comma |
| `Tokenizer.JoinFields` | mtk/gps/hal/gps_mtk_aosp.c:1329-1346 | there is no other such splitting |
| `Tokenizer.NmeaTokenizer.Init` | mtk/gps/hal/gps_mtk_aosp.c:1307-1351 | every token lies in the sentence and is the field of its number of the body without dollar sign, line ending and checksum; at most 24 |
| `Tokenizer.NmeaTokenizer.Scan` | mtk/gps/hal/gps_mtk_aosp.c:1329-1348 | the scan ends with the first 24 fields, a trailing empty one aside |
| `Tokenizer.NmeaTokenizer.Get` | mtk/gps/hal/gps_mtk_aosp.c:1353-1365 | the i-th field, empty outside the tokens |
| `Tokenizer.Str2Int` | mtk/gps/hal/gps_mtk_aosp.c:1368-1396 | signed decimal modulo 2^32, -1 for other text, 0 for none |
| `NmeaSentences.FieldOfWritten` | mtk/gps/hal/gps_mtk_aosp.c:1307-1365 | a written sentence is read field by field as it was written, with or without dollar sign, checksum and carriage return; nothing from field 24 on |
| `NmeaSentences.ReadsDigits` | mtk/gps/hal/gps_mtk_aosp.c:1368-1396 | reading decimal digits gives the number they write |
| `NmeaSentences.GsvDecodes` | mtk/gps/hal/gps_mtk_aosp.c:2240-2270 | a written GSV sentence decodes to its message numbers, count and satellites, BeiDou iff its talker is BD (also lines 2096-2145) |
| `NmeaSentences.GsaDecodes` | mtk/gps/hal/gps_mtk_aosp.c:2146-2182 | a written GSA sentence of GP, GL or BD decodes to its fix mode and twelve ids; of any other talker it is none (also lines 2096-2145) |
| `NmeaSentences.IgnoredIff` | mtk/gps/hal/gps_mtk_aosp.c:2096-2112 | exactly which lines are passed over |
| `NmeaLines.SplitLinesInverse` | mtk/gps/hal/gps_mtk_aosp.c:2438-2463 | the reference splitting loses nothing |
| `NmeaLines.AssembleKeepsLines` | mtk/gps/hal/gps_mtk_aosp.c:2438-2463 | for every stream: exactly the lines that fit and are not swallowed, in order; the buffer never holds more than 128 bytes |
| `NmeaLines.KeptLinesExact` | mtk/gps/hal/gps_mtk_aosp.c:2438-2463 | that is dropping long lines iff no short line follows an odd run of full ones |
| `NmeaLines.AssembleIsSplitting` | mtk/gps/hal/gps_mtk_aosp.c:2438-2463 | without full lines the sentences are the short lines (also lines 1459) |
| `NmeaLines.FullLineSwallowsNext` | mtk/gps/hal/gps_mtk_aosp.c:2446-2451 | a full line costs the next line |
| `Satellites.MarkUsedAdds` | mtk/gps/hal/gps_mtk_aosp.c:2154-2180 | a GSA sentence marks exactly the satellites it names before the first unknown or empty id |
| `Satellites.ReportsWithinBuffer` | mtk/gps/hal/gps_mtk_aosp.c:2240-2287 | no report counts more satellites than the buffer holds while GSV messages other than a first one come only inside a group, lost or renumbered as they may be (also lines 1973-2008, 2408-2415) |
| `Satellites.OvercountsIff` | mtk/gps/hal/gps_mtk_aosp.c:2240-2287 | a sentence takes the count past the buffer iff it is a closing message, not the first, that finds more counted than fits and allows as many |
| `Satellites.CountStaysIff` | mtk/gps/hal/gps_mtk_aosp.c:2240-2287 | over every run the count stays within the buffer iff no message is of that kind; then so do the reports (also lines 2408-2415) |
| `Satellites.RepeatedLastMessageOvercounts` | mtk/gps/hal/gps_mtk_aosp.c:2240-2287 | where satellites are counted, n copies of a closing message that allows a full buffer raise the reported count by at least n |
| `Satellites.OvercountingRun` | mtk/gps/hal/gps_mtk_aosp.c:2240-2287 | such a run from a clean reader, for every capacity: a group of two messages whose last one is repeated (also lines 2408-2415) |
| `Satellites.ClosingCounts` | mtk/gps/hal/gps_mtk_aosp.c:2271-2287 | a closing message counts the group in iff it allows as many as were taken, and else drops everything collected |
| `Satellites.GroupAppends` | mtk/gps/hal/gps_mtk_aosp.c:2240-2287 | a complete group appends exactly its accepted satellites in order, BeiDou ids plus 200, as far as the list has room (also lines 1973-2008) |
| `Satellites.GroupRestAppends` | mtk/gps/hal/gps_mtk_aosp.c:2240-2287 | the later messages of a group alone append exactly the accepted satellites they announce (also lines 1973-2008) |
| `Epochs.UsedAfterIsNamed` | mtk/gps/hal/gps_mtk_aosp.c:2146-2182 | marked used iff a preceding GSA sentence with a fix names it |
| `Epochs.EpochContent` | mtk/gps/hal/gps_mtk_aosp.c:2240-2287 | after any mix of groups and other sentences the list has the groups' satellites appended, as far as there is room (also lines 2146-2182) |
| `Epochs.EpochReport` | mtk/gps/hal/gps_mtk_aosp.c:2408-2415 | the report of an epoch received in one read is exactly that list, cut at the list's capacity, and nothing is left iff something was reported or nothing marked |
| `Epochs.FrontReport` | mtk/gps/hal/gps_mtk_aosp.c:2408-2415 | a chunk that ends anywhere in an epoch behind a closed group reports exactly the groups closed by then (also lines 2240-2287) |
| `Epochs.RestReport` | mtk/gps/hal/gps_mtk_aosp.c:2408-2415 | the rest of the epoch reports exactly the satellites announced behind the cut, with its own marks; those caught with an open group are dropped (also lines 2240-2287) |
| `Epochs.NothingMissingIff` | mtk/gps/hal/gps_mtk_aosp.c:2408-2415 | what an epoch expects from the cut on is what was caught and what is behind; nothing is missing iff nothing was caught |
| `Epochs.FourMissing` | mtk/gps/hal/gps_mtk_aosp.c:2408-2415 | an epoch of six satellites that loses four to a cut behind the first message of its second group |
| `EpochEntries.OriginsAre` | mtk/gps/hal/gps_mtk_aosp.c:1973-2008 | the satellites taken are exactly those with numbers 1-32, 65-96 and 200-232, each once, in the order announced |
| `EpochEntries.ReportEntries` | mtk/gps/hal/gps_mtk_aosp.c:1973-2008 | every entry of an epoch's report: number (plus 200 for BeiDou), elevation, azimuth and signal strength of its satellite, and marked used iff a GSA sentence with a fix before its group gives that number (also lines 2010-2463) |
| `NmeaReader.Reader.UpdateSvStatus` | mtk/gps/hal/gps_mtk_aosp.c:1973-2008 | writes only inside the satellite list, only accepted ids |
| `NmeaReader.Reader.ParseGsa` | mtk/gps/hal/gps_mtk_aosp.c:2146-2182 | the GSA branch on the tokens of a line |
| `NmeaReader.Reader.ParseGsv` | mtk/gps/hal/gps_mtk_aosp.c:2240-2288 | the GSV branch on the tokens of a line, 32-bit arithmetic included |
| `NmeaReader.Reader.ParseSentence` | mtk/gps/hal/gps_mtk_aosp.c:2096-2182 | which branch a line takes, and its two early returns (also lines 2240-2288) |
| `NmeaReader.Reader.Parse` | mtk/gps/hal/gps_mtk_aosp.c:2010-2415 | a line's effect, and the report at the end of a chunk |
| `NmeaReader.Reader.Addc` | mtk/gps/hal/gps_mtk_aosp.c:2438-2463 | one byte: buffer, sentence callback and parser |
| `NmeaReader.Reader.Receive` | mtk/gps/hal/gps_mtk_aosp.c:3905-3913 | one chunk, with the end tag on its last byte |
| `NmeaReader.ChunkEffect` | mtk/gps/hal/gps_mtk_aosp.c:2438-2463 | a chunk of complete short lines has the effect of its decoded sentences, the last one tagged (also lines 3905-3913) |
| `NmeaReader.EpochFromBytes` | mtk/gps/hal/gps_mtk_aosp.c:2010-2463 | from the bytes of an epoch in one read to exactly one report of exactly its satellites, and a clean reader (also lines 3905-3913) |
| `NmeaReads.ReadReportsIff` | mtk/gps/hal/gps_mtk_aosp.c:2408-2463 | a read reports, once and leaving nothing, iff it ends with a sentence behind a closed group of satellites (also lines 3905-3913) |
| `NmeaReads.QuietCutsJoin` | mtk/gps/hal/gps_mtk_aosp.c:3905-3913 | reads that do not end so have together the effect of one read of all their bytes (also lines 2438-2463) |
| `NmeaReads.ReadsAssemble` | mtk/gps/hal/gps_mtk_aosp.c:2438-2463 | however the bytes are cut into reads, the same sentences come out (also lines 3905-3913) |
| `NmeaReads.EpochFromReads` | mtk/gps/hal/gps_mtk_aosp.c:3905-3913 | an epoch cut into such reads gives its one report all the same (also lines 2010-2463) |
| `NmeaReads.FirstReportHasPlace` | mtk/gps/hal/gps_mtk_aosp.c:3905-3913 | wherever reads cut an epoch, the first that reports ends between its items or inside a group, with a satellite in a closed group before it |
| `NmeaReads.EpochFromReadsIff` | mtk/gps/hal/gps_mtk_aosp.c:2408-2463 | the effect of that cut: what both reports hold, and that the epoch gives its one whole report iff nothing is announced behind the cut and nothing was caught by it, or the list was full (also lines 2240-2287, 3905-3913) |
| `NmeaReads.EpochsReportApart` | mtk/gps/hal/gps_mtk_aosp.c:3905-3913 | epochs sent one a read report one by one, each exactly its satellites with its own marks (also lines 2010-2463) |
| `MessageCodec.PutInt` | mtk/gps/hal/gps_mtk_aosp.c:712-715 | four bytes written, the rest untouched |
| `MessageCodec.PutString` | mtk/gps/hal/gps_mtk_aosp.c:717-725 | length word, characters up to the NUL, the NUL |
| `MessageCodec.PutBinary` | mtk/gps/hal/gps_mtk_aosp.c:726-732 | length word and bytes |
| `MessageCodec.PutStruct` | mtk/gps/hal/gps_mtk_aosp.c:734-737 | the bytes alone |
| `MessageCodec.GetInt` | mtk/gps/hal/gps_mtk_aosp.c:740-744 | the word at the offset |
| `MessageCodec.GetString` | mtk/gps/hal/gps_mtk_aosp.c:746-753 | the counted bytes as a C string, the rest of the target untouched |
| `MessageCodec.GetBinary` | mtk/gps/hal/gps_mtk_aosp.c:759-766 | the counted bytes |
| `MessageCodec.GetStruct` | mtk/gps/hal/gps_mtk_aosp.c:754-757 | as many bytes as asked for |
| `MessageCodec.WriteAllSplices` | mtk/gps/hal/gps_mtk_aosp.c:712-737 | a message changes exactly its own stretch of the buffer |
| `MessageCodec.RoundTrip` | mtk/gps/hal/gps_mtk_aosp.c:712-766 | any list of fields comes back from the matching getters, at the same offset, the rest of the buffer as it was |
| `MessageCodec.Layout` | mtk/gps/hal/gps_mtk_aosp.c:712-737 | the bytes of each kind of field, length words included, low byte first |
| `TextChain.AscStrToUcs2Str` | mtk/gps/hal/gps_mtk_aosp.c:796-811 | byte order mark and big-endian characters; the terminator one byte further than the text |
| `TextChain.Ucs2Layout` | mtk/gps/hal/gps_mtk_aosp.c:796-811 | character i becomes a zero byte and itself |
| `TextChain.RawDataToHexString` | mtk/gps/hal/gps_mtk_aosp.c:813-831 | two upper-case digits a byte |
| `TextChain.HexLayout` | mtk/gps/hal/gps_mtk_aosp.c:813-831 | byte i becomes digits 2i and 2i + 1, high half first, out of 0-9 and A-F |
| `TextChain.HexStringToBytes` | ril/telephony/java/com/android/internal/telephony/MediaTekRIL.java:209-231 | returns iff the text is an even number of digits, then their bytes |
| `TextChain.UnhexHex` | mtk/gps/hal/gps_mtk_aosp.c:813-831 | decoding undoes encoding on every byte sequence |
| `TextChain.HexUnhex` | ril/telephony/java/com/android/internal/telephony/MediaTekRIL.java:209-231 | encoding undoes decoding up to the case of the digits |
| `TextChain.ChainRoundTrip` | ril/telephony/java/com/android/internal/telephony/MediaTekRIL.java:817-825 | every NUL-free string survives ASCII to UCS-2 to hex to bytes to UTF-16 |
| `TalkerState.ZerosThrow` | YGPS/src/com/mediatek/ygps/NmeaParser.java:188-197 | a number field throws iff it is zeros only (also lines 570-584) |
| `TalkerState.ParseIntReadsDecimals` | YGPS/src/com/mediatek/ygps/NmeaParser.java:570-584 | every other decimal field below 2^31 is read as its value |
| `TalkerState.GsaIdsExact` | YGPS/src/com/mediatek/ygps/NmeaParser.java:370-375 | the used ids are the positive numbers of fields 2 to 14 as far as they are read |
| `TalkerState.FixModeCountsAsSatellite` | YGPS/src/com/mediatek/ygps/NmeaParser.java:370-375 | the fix mode is recorded as a used id |
| `TalkerState.UsedIdsAreNamedIff` | YGPS/src/com/mediatek/ygps/NmeaParser.java:365-375 | the used ids are all named by the sentence iff there is no fix, the mode is no positive number, or its number is named as well |
| `TalkerState.GsaDilutionsIff` | YGPS/src/com/mediatek/ygps/NmeaParser.java:355-384 | a GSA sentence with a fix leaves its fix mode always, its dilutions iff no field from 2 to 14 is zeros only |
| `TalkerState.GsvExtendsExactly` | YGPS/src/com/mediatek/ygps/NmeaParser.java:450-492 | a GSV sentence with a readable header replaces or extends the list by exactly the satellites in front of the first unreadable one, and changes nothing else |
| `TalkerFields.GsvAddsWritten` | YGPS/src/com/mediatek/ygps/NmeaParser.java:450-492 | each satellite added is written in its four fields, has the talker's colour, and is flagged iff its number is among the used ids |
| `TalkerFields.NumberedIs` | YGPS/src/com/mediatek/ygps/NmeaParser.java:465-491 | the satellites added are exactly those with a positive number, in order |
| `TalkerState.FlagsStayHonest` | YGPS/src/com/mediatek/ygps/NmeaParser.java:482-491 | in every reachable state, across thrown sentences, a flagged satellite is in the current used ids (also lines 52-69, 133-140, 355-384) |
| `TalkerFields.FlagsSinceGsa` | YGPS/src/com/mediatek/ygps/NmeaParser.java:355-384 | since a talker's last GSA sentence: satellites from before are not flagged, one added since is flagged iff that sentence gave its number (also lines 482-491) |
| `TalkerFields.GsaFlagsNone` | YGPS/src/com/mediatek/ygps/NmeaParser.java:355-384 | a GSA sentence takes back every flag and leaves exactly the ids it gives |
| `TalkerFields.GgaFields` | YGPS/src/com/mediatek/ygps/NmeaParser.java:407-428 | which field each location value of a GGA sentence comes from, all or nothing |
| `TalkerFields.RmcFields` | YGPS/src/com/mediatek/ygps/NmeaParser.java:253-329 | the same for an RMC sentence, with its fallbacks |
| `TalkerFields.NumberReads` | YGPS/src/com/mediatek/ygps/NmeaParser.java:188-197 | a number is read from its text without leading zeros (also lines 532-568) |
| `TalkerFields.TalkerIs` | YGPS/src/com/mediatek/ygps/NmeaParser.java:162-186 | a sentence's talker by the names it contains, and each talker's colour |
| `TalkerFields.WrittenSentence` | YGPS/src/com/mediatek/ygps/NmeaParser.java:201-231 | which of the four kinds a written sentence is read as, on exactly the fields written |
| `YgpsParser.StripZeros` | YGPS/src/com/mediatek/ygps/NmeaParser.java:188-197 | leading zeros removed, an exception for zeros only |
| `YgpsParser.FindTalker` | YGPS/src/com/mediatek/ygps/NmeaParser.java:162-171 | the first talker name found anywhere in the sentence |
| `YgpsParser.NmeaParser.ParseGsa` | YGPS/src/com/mediatek/ygps/NmeaParser.java:355-384 | changes the current talker's entry only, partial updates included |
| `YgpsParser.NmeaParser.ParseGsv` | YGPS/src/com/mediatek/ygps/NmeaParser.java:450-500 | the same for GSV |
| `YgpsParser.NmeaParser.ParseRmc` | YGPS/src/com/mediatek/ygps/NmeaParser.java:253-329 | the same for RMC, all or nothing |
| `YgpsParser.NmeaParser.ParseGga` | YGPS/src/com/mediatek/ygps/NmeaParser.java:407-428 | the same for GGA, all or nothing |
| `YgpsParser.NmeaParser.Parse` | YGPS/src/com/mediatek/ygps/NmeaParser.java:201-231 | one sentence changes its own talker as specified and no other |
| `YgpsParser.NmeaParser.ParseStream` | YGPS/src/com/mediatek/ygps/NmeaParser.java:201-231 | talker isolation: after any stream each talker is where its own sentences alone take it, exceptions included (also lines 162-171) |
| `YgpsParser.ParseInterleavings` | YGPS/src/com/mediatek/ygps/NmeaParser.java:201-231 | two parsers agree on every talker after any two interleavings of the same per-talker streams (also lines 162-171) |
| `RilStream.InputStream.Fill` | ril/telephony/java/com/android/internal/telephony/MediaTekRIL.java:979-994 | fills the wanted bytes iff the stream holds them, however reads are split |
| `RilStream.ReadRilMessage` | ril/telephony/java/com/android/internal/telephony/MediaTekRIL.java:972-1016 | one message, -1, or an exception, as the reference cuts the stream |
| `RilStream.Receive` | ril/telephony/java/com/android/internal/telephony/MediaTekRIL.java:1131-1149 | the messages received are those of the reference for every split, and the loop ends |
| `RilStream.FramesOfMessages` | ril/telephony/java/com/android/internal/telephony/MediaTekRIL.java:972-1016 | messages that fit come out as sent and in order, an unfinished one never (also lines 1131-1149) |
| `RilStream.FramesAreThere` | ril/telephony/java/com/android/internal/telephony/MediaTekRIL.java:972-1016 | conversely the stream begins with exactly the messages received |
| `RilStream.FrameLayout` | ril/telephony/java/com/android/internal/telephony/MediaTekRIL.java:994-997 | a message on the wire is its length, high byte first, and itself |
| `Lights.CacheStaleIff` | liblights/lights.c:228-267 | the status cache is stale iff a blinking LED is given new delays |
| `Lights.SetSpeakerForgets` | liblights/lights.c:429-480 | going through off shows the state whatever was shown before |
| `Lights.HistoryIndependent` | liblights/lights.c:429-522 | after any calls the panel shows the latest battery state if lit, else the latest notification |
| `Lights.PanelFollowsBytes` | liblights/lights.c:429-522 | after any calls each LED is lit iff its colour's byte and the alpha of the deciding state are not zero, blinking with exactly its delays or steady at 255 (also lines 222-358) |
| `Lights.ShowsNothingIff` | liblights/lights.c:429-464 | a state lights no LED iff it has no colour or no alpha (also lines 222-226) |
| `Lights.TransparentBatteryHides` | liblights/lights.c:455-464 | after any calls, a notification that would show is hidden behind a dark panel iff the battery state has a colour but no alpha; a battery state that shows nothing lets it through iff it is not lit (also lines 222-226) |
| `Lights.Led.Blink` | liblights/lights.c:228-358 | the cache agrees with the node and the node shows the request unless the status is the same |
| `Lights.LightsDevice.SetSpeakerLight` | liblights/lights.c:429-480 | the three LEDs through their caches |
| `Lights.LightsDevice.HandleBattery` | liblights/lights.c:483-492 | battery before notification, with the workaround call |
| `Lights.LightsDevice.SetLightBattery` | liblights/lights.c:494-506 | a battery call is one step of the board, and the red, green and blue nodes then follow the bytes of the deciding state |
| `Lights.LightsDevice.SetLightNotifications` | liblights/lights.c:508-522 | a notification call is one step of the board, and the nodes then follow the bytes of the deciding state |
| `SharedFreqs.DistinctIsExact` | wpa_supplicant/mediatek_driver_cmd_nl80211.c:1319-1337 | the reference lists exactly the contributed frequencies, none twice |
| `SharedFreqs.DistinctPrefix` | wpa_supplicant/mediatek_driver_cmd_nl80211.c:1313-1337 | in first-seen order: more interfaces only add at the end |
| `SharedFreqs.ProcessedYields` | wpa_supplicant/mediatek_driver_cmd_nl80211.c:1316-1317 | leaving the loop when full yields the first len frequencies of the whole list |
| `SharedFreqs.GetSharedRadioFreqsData` | wpa_supplicant/mediatek_driver_cmd_nl80211.c:1300-1346 | the first len distinct frequencies, each with the flag of the last infrastructure interface looked at, the rest cleared, no index past the array |
| `SharedFreqs.EntriesMean` | wpa_supplicant/mediatek_driver_cmd_nl80211.c:1313-1342 | an entry for a frequency iff an interface operates on it, one only, flagged by the last infrastructure interface on it |
| `SharedFreqs.Record` | wpa_supplicant/mediatek_driver_cmd_nl80211.c:1319-1342 | one interface recorded |
| `SharedFreqs.GetSharedRadioFreqs` | wpa_supplicant/mediatek_driver_cmd_nl80211.c:1349-1368 | the plain list, or -1 and zeros without scratch memory |
| `Operators.InitList` | ril/telephony/java/com/android/internal/telephony/Operators.java:53-78 | the table maps a code to its last override before the first other element or fault |
| `Operators.Uncached.Replace` | ril/telephony/java/com/android/internal/telephony/Operators.java:117-138 | the name of a five or six character number in the table, anything else unchanged |
| `Operators.Cached.OperatorReplace` | ril/telephony/java/com/android/internal/telephony/Operators.java:84-109 | one step of the memo |
| `Operators.MemoIsTransparent` | ril/telephony/java/com/android/internal/telephony/Operators.java:80-138 | over every sequence of calls with one table the memo answers as the uncached lookup |
| `Operators.StaleIff` | ril/telephony/java/com/android/internal/telephony/Operators.java:92-94 | with another table the answers are right iff the remembered name is |
| `Operators.ReplacedIff` | ril/telephony/java/com/android/internal/telephony/Operators.java:84-138 | exactly the numeric codes of five or six characters in the table are replaced |

## Left out

- Sockets, epoll, curl, timers, file locks and the property service: their results are inputs.
- The local time zone: daylight saving is not modelled, only a constant offset.
- Races inside one phase of the EPO worker: each phase, and the EPO part of a start, is one step.
- File operations that fail inside a phase (a piece that cannot be copied, a lock not granted).
- mtk_gps_stop, which waits for start_flag and changes none of the fields modelled, and start calls from several framework threads at once.
- Leap seconds: the code counts none, so UTC and GPS seconds are the same here.
- NmeaReader.Reader.ParseSentence: the coordinates, speed, altitude and date that GGA, RMC and ACCURACY set are not modelled, since they rest on strtod and floating point.
- NmeaReader.Reader.Parse: the location callback at the end of a chunk is not modelled, for the same reason.
- YgpsParser.NmeaParser.ParseRmc: the speed in km/h and the truncation of the bearing are floating-point conversions; the text they start from is kept.
- The AT-command test mode, the disabled blocks, and the GPS-only branches and flush that the callback size never selects.
- The throttling of NMEA chunks by the report interval, which discards whole reads.
- GNSS_MAX_SVS is declared in a platform header that is not part of this model; the list's length stands for it. GPS_MAX_SVS is taken as 32.
- Tokenizer.Str2Int: signed overflow, undefined in C, is taken to wrap to 32 bits.
- Calendar.GpsToUtcTime: weeks beyond 306783378, where the day count would overflow an int, are computed without overflow.
- How get_val takes a line of the configuration file apart; a line is a key and a value.
- The EPO piece numbers stand for the file names of either constellation; MD5 files and URLs are not modelled.
- TalkerState numbers are kept as the text handed to Java's float parser; non-ASCII digits are not modelled.
- The notifications, listeners and public clear of the YGPS parser.
- RilStream: the size of the receive buffer is a parameter; its constant belongs to a class that is not part of this repository.
- TextChain: surrogate pairs and the replacement of malformed input by the UTF-16 decoder, which the chain never produces.
- The kernel's LED class is reduced to trigger, brightness and delays; writing brightness 0 removes the trigger. Failed writes, the trackball file and the backlight, keyboard, button and attention lights are not modelled.
- The values of the WPA_FREQ_USED_BY flags, which come from a header that is not part of this repository.
- Measurement and navigation structures, the big request tables of the RIL, user interface, Bluetooth, audio and configuration files: plumbing or data without properties of this kind.
