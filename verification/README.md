# A verified model of the ESP32-NUT server

The ESP32-NUT server runs a Network UPS Tools server on an ESP32: it reads NUT configuration
text, keeps the UPS variables, serves a management site, takes firmware over the network and
remembers its credentials through power loss. This project models the parts of it that have
state, formats or arithmetic of their own, in Dafny, and proves what they promise. To verify it:
`dafny verify dfyconfig.toml`.

| module | what it models |
|---|---|
| `ParseConf`, `PconfContext` | the NUT configuration parser, as a fold over characters and as the context with growing, reused buffers that refines it; the encoder |
| `ConfTokens` | configuration lines as words, quoted words and equals signs, and what the parser makes of them |
| `UpsConf` | reading `ups.conf` through the parser: sections and callbacks |
| `StateTree`, `StateNodes`, `NodeValues` | the variable tree, on values and as linked nodes; the value buffers of a node |
| `CommandList` | the instant-command list, on values and as linked items |
| `Calendar` | days and seconds since 1970 |
| `OtaImage`, `OtaStage` | the firmware image validator, and the stage / expire / install machine around it |
| `ApiTokens` | the API token store |
| `WifiCredentials` | staging, validating and promoting Wi-Fi credentials under failure and power loss |
| `AdminCredentials` | replacing and verifying the ADMIN password under failure and power loss |
| `ManagementLog` | the log line assembler and ring |
| `LoginSession` | the login throttle and the browser session |
| `FormCodec`, `JsonAppend`, `DnsReply` | form decoding, JSON building, DNS replies |
| `CBytes`, `Bits` | C strings, bytes, words |

Surroundings are parameters: clock readings, random bytes, network deliveries, the outcome of
every NVS, hash and Wi-Fi call, SHA-256 and PBKDF2 as functions, and the chip-specific checks of
the bootloader. Where the original changes things in place, a class or array method does, and is
proved to refine a function on values about which the laws are proved.

Six promises turn out not to hold everywhere. In each case the code is modelled as it is, a
lemma gives the input, and another lemma says exactly when the promise holds:

- A file whose last line is a single unterminated word loses it (`LineAndFileAgreeIff`,
  `LastLineRead`, `FileDropsLoneWord`).
- A line of `ups.conf` with a number sign inside quotes is not skipped as a whole: what stands
  behind the number sign is read as a line of its own (`ErrorTailIsRead`, `ErrorLineSilentIff`,
  `ErrorLineMakesCall`).
- `pconf_encode` leaves a one-byte buffer unterminated when the first character needs an escape
  (`BufferHoldsEncodingIff`, `OneByteIsNotEnough`).
- `days_from_epoch_1970` is one too large for most dates before shifted year zero
  (`DaysFromEpochIsCount`, `NotInjectiveBeforeYearZero`).
- Computing the seconds leaves a 32-bit `long` after 19 January 2038, 03:14:07, and before
  13 December 1901, 20:46:00 (`TimegmFitsIff`, `LongOverflowsIn2038`).
- A Wi-Fi promotion that fails between its two writes can leave a mixed record that a later
  commit makes permanent (`ActiveIsLegitimateIff`, `TornRecordCanSurvive`).

Where code and text disagree the code is followed. The setup portal tells the user that
credentials are kept for automatic retries (src/wifi-provisioning-web.c:291-293), but a pending
record is erased before its one validation attempt (src/wifi.c:681-699). A remaining time of zero
seconds does not mean the session is over: up to a second of it may be left
(src/management-session.c:322-341).

## Model

| member | source | states |
|---|---|---|
| `ParseConf.AddChar` | src/common/parseconf.c:179-215 | a character reaches the word only if it is in 0x20..0x7f and the limit allows, always at the end, and nothing else changes |
| `ParseConf.Run` | src/common/parseconf.c:463-493 | feeding stops right behind the character that finishes a line; without one everything is consumed |
| `ParseConf.RunClean` | src/common/parseconf.c:217-369 | outside a word the word buffer is empty, for every input |
| `ParseConf.FileNext` | src/common/parseconf.c:524-558 | a line is only reported when input was consumed, and an unreported rest is never a finished line |
| `ParseConf.LeftoverGoesFirst` | src/common/parseconf.c:561-595 | what a line yields depends on earlier text only through the characters left in the word buffer: they go before its first word, up to the word limit; a line without a word yields them if unfinished and else leaves them; with an empty buffer the line alone counts and the buffer is empty afterwards |
| `ParseConf.FileNextLeaksIff` | src/common/parseconf.c:547-557 | a file read that starts with an empty word buffer leaves characters in it if and only if the text is blanks and then one word, quoted or not, that nothing ends and that has a printable character; then no line is reported and the file is used up |
| `ParseConf.StepIgnoresSign` | src/common/parseconf.c:561-595 | bytes above 0x7f act the same whether char is signed or not |
| `ParseConf.CharsIsRun` | src/common/parseconf.c:634-655 | feeding single characters until a line is reported consumes and yields what the other readers do |
| `ParseConf.FeedsAgree` | src/common/parseconf.c:524-595 | on any text holding a complete logical line the string, file and character readers stop behind the same character with the same words, state and error flag |
| `ParseConf.LineAndFileAgreeIff` | src/common/parseconf.c:547-557 | on any text, with any leftover, string and file reader yield the same words, except exactly on blanks followed by a comment or one unfinished word where a printable character is written or left over: there the string reader has one word and the file reader none |
| `ParseConf.FileDropsLoneWord` | src/common/parseconf.c:547-557 | the concrete failing case: a file holding one unterminated word loses it, and its letters start the next line |
| `ParseConf.OpenRuns` | src/common/parseconf.c:237-380 | such a text, its words spelled with bare and escaped characters, runs to its end without finishing a word or a line |
| `ParseConf.SpelledText` | src/common/parseconf.c:237-380 | and every text that does so is spelled that way |
| `ParseConf.PlainLineEnds` | src/common/parseconf.c:237-380 | text without quotes and backslashes ends its logical line at its first newline |
| `ParseConf.PconfEncode` | src/common/parseconf.c:599-631 | for every source and buffer size the buffer holds the whole encoding of the longest prefix that fits, then NULs; only the one bad call shape fills it without a terminator |
| `ParseConf.LongestFitIsMaximal` | src/common/parseconf.c:612-627 | no longer prefix has an encoding that fits, so escape pairs are never split |
| `ParseConf.BufferHoldsEncodingIff` | src/common/parseconf.c:617 | the result is a C string if and only if the call is not a one-byte buffer with a character that needs escaping first, where maxlen - 1 wraps |
| `ParseConf.OneByteIsNotEnough` | src/common/parseconf.c:617 | the concrete failing case: a quotation mark into one byte |
| `ParseConf.WholeFitsIff` | src/common/parseconf.c:612-627 | the whole value is encoded if and only if its encoding fits |
| `ParseConf.ReadQuoted` | src/common/parseconf.c:291-328 | a quoted encoding is read as one word, the original one, and reading goes on behind it |
| `ParseConf.AnyLineRoundTrip` | src/common/parseconf.c:179-380 | any list of byte strings, encoded, quoted, joined by spaces and parsed, comes back as the printable characters of each up to the word limit, in order, up to the argument limit |
| `ParseConf.LineRoundTripIff` | src/common/parseconf.c:179-380 | a list of words comes back unchanged if and only if every word is printable and within the limits |
| `ParseConf.CommentHidden` | src/common/parseconf.c:237-280 | a number sign outside quotes hides the rest of the line and nothing more |
| `ParseConf.CommentEndsWord` | src/common/parseconf.c:331-369 | behind a word it ends the word first |
| `ParseConf.HashInQuotesFails` | src/common/parseconf.c:291-317 | the one parse error is an unescaped number sign inside quotes |
| `ParseConf.BackslashTakesNext` | src/common/parseconf.c:320-380 | a backslash takes the next character as it is in words and in quotes; before a newline both vanish |
| `ParseConf.LineWordsFit` | src/common/parseconf.c:179-215 | no line of any content yields a word with a character outside 0x20..0x7f, a word longer than the limit, or more words than allowed |
| `ParseConf.StoredValueRoundTripIff` | src/common/state.c:42-63 | a value encoded into a fixed buffer, quoted and parsed comes back if and only if it is printable, within the word limit, and its whole encoding fits |
| `ConfTokens.TokenWords` | src/common/parseconf.c:179-234 | one word per token, each its printable characters up to the word limit |
| `ConfTokens.SpellReads` | src/common/parseconf.c:291-380 | the bare and escaped characters of a word, in quotes or not, add exactly their printable ones to it |
| `ConfTokens.BlanksSettle` | src/common/parseconf.c:237-369 | tab, vertical tab, form feed, carriage return and space, as literal bytes, end a word and separate tokens |
| `ConfTokens.SignReads` | src/common/parseconf.c:237-369 | an equals sign is a word of its own and ends the one before it |
| `ConfTokens.QuotedReads` | src/common/parseconf.c:291-317 | a quoted token is one word, empty ones included |
| `ConfTokens.UnquotedReads` | src/common/parseconf.c:331-369 | a token outside quotes starts at its first character and stays open |
| `ConfTokens.ItemsRead` | src/common/parseconf.c:217-380 | any list of tokens yields exactly their words, in order, with the last one open only when it is unquoted |
| `ConfTokens.LineOfTokens` | src/common/parseconf.c:217-595 | a line of bare words, quoted words and equals signs, ended by a newline with or without a comment: string, file and character reader yield exactly the tokens' words in order, up to the argument limit, and stop behind the newline |
| `ConfTokens.TextOfTokens` | src/common/parseconf.c:524-595 | the same text ended by the end of the file, with an unfinished word or comment or not: both readers yield all words, the file reader nothing exactly when the unfinished word would be the only one |
| `ConfTokens.PlainReads` | src/common/parseconf.c:331-369 | a word of bytes 0x21 to 0x7f without number sign, backslash and equals sign, not beginning with a quotation mark, reads as itself |
| `ConfTokens.QuotedIsToken` | src/common/parseconf.c:599-631 | the encoder's output between quotes is a quoted word of the grammar with the encoded text as its characters |
| `PconfContext.CopyWord` | src/common/parseconf.c:121-177 | the slot holds the word and is NUL from there to its end |
| `PconfContext.Context.constructor` | src/common/parseconf.c:403-461 | a new context has terminated buffers and stands at the start of a line |
| `PconfContext.Context.AddChar` | src/common/parseconf.c:179-215 | the growing word buffer refines the pure append, keeps its terminator and overlaps no argument |
| `PconfContext.Context.GrowLists` | src/common/parseconf.c:126-145 | one more slot, all earlier buffers kept |
| `PconfContext.Context.GrowSlot` | src/common/parseconf.c:146-166 | only the one slot may move, to fresh memory large enough |
| `PconfContext.Context.PrepareSlot` | src/common/parseconf.c:121-166 | the next slot is large enough and the words before it are untouched |
| `PconfContext.Context.AddArgWord` | src/common/parseconf.c:121-177 | the list of words grows by exactly the content of the word buffer; reused longer buffers show nothing old |
| `PconfContext.Context.EndOfWord` | src/common/parseconf.c:217-234 | refines the pure step: the word is stored or dropped at the limit and the buffer emptied |
| `PconfContext.Context.FindWordStartChar` | src/common/parseconf.c:237-269 | refines the pure state function on every character |
| `PconfContext.Context.QuoteCollectChar` | src/common/parseconf.c:291-317 | refines the pure state function and raises the error flag exactly on an unescaped number sign |
| `PconfContext.Context.CollectChar` | src/common/parseconf.c:331-369 | refines the pure state function on every character, whose effect on whole lines is `ConfTokens.LineOfTokens` |
| `PconfContext.Context.LiteralChar` | src/common/parseconf.c:320-380 | takes anything but a newline blindly |
| `PconfContext.Context.NextState` | src/common/parseconf.c:463-490 | the state chosen and the words built are those of the pure step |
| `PconfContext.Context.ParseChar` | src/common/parseconf.c:463-493 | one character moves the context exactly as the pure machine |
| `PconfContext.Context.FeedLine` | src/common/parseconf.c:576-589 | the character loop refines the fold over the string |
| `PconfContext.Context.PconfLine` | src/common/parseconf.c:561-595 | the call refines the pure line function, whatever the buffers held before |
| `PconfContext.Context.FeedFile` | src/common/parseconf.c:534-545 | the reading loop refines the fold and leaves exactly the unread rest of the file |
| `PconfContext.Context.PconfFileNext` | src/common/parseconf.c:524-558 | the call refines the pure function: words, unread rest and result |
| `PconfContext.Context.PconfChar` | src/common/parseconf.c:634-655 | refines the pure step; 1, -1 or 0 for a finished line, an error or neither |
| `PconfContext.Context.PconfParseError` | src/common/parseconf.c:496-507 | an error is reported once |
| `UpsConf.TakeHeader` | src/common/upsconf.c:55-66 | the section name is the header without its brackets although the argument buffer is cut in place |
| `UpsConf.ConfArgs` | src/common/upsconf.c:49-78 | one line sets the section or makes exactly the callback its words stand for |
| `UpsConf.ReadLine` | src/common/upsconf.c:110-118 | one turn of the loop makes its callbacks and leaves exactly the rest to be read |
| `UpsConf.ReadUpsconf` | src/common/upsconf.c:91-125 | the loop makes exactly the callbacks of reading the whole file line by line, in order, going on behind a parse error where the parser stopped; which callbacks those are is `UpsConf.TokenLineRead` and `UpsConf.ConfRoundTrip` |
| `UpsConf.ReadFrom` | src/common/upsconf.c:105-118 | what was parsed before matters only through the word buffer |
| `UpsConf.TokenLineRead` | src/common/upsconf.c:49-118 | a line of tokens makes its callback by its words alone: one word is a flag, a bracketed first word names the section whatever follows, an equals sign in second place gives the first word the third as value whatever follows, anything else is ignored |
| `UpsConf.BarePairText` | src/common/upsconf.c:69-77 | an unquoted pair is printed as name, blanks, equals sign, blanks and value, and nothing else |
| `UpsConf.ReadsSetting` | src/common/upsconf.c:69-77 | a printed flag or pair, its value quoted or bare, with any blanks, comment and further tokens, makes its one callback in the current section; a remark makes none |
| `UpsConf.ReadsHeader` | src/common/upsconf.c:55-66 | a printed header makes no callback and switches the section, whatever follows it on its line |
| `UpsConf.ConfRoundTrip` | src/common/upsconf.c:49-125 | any list of remarks, flags, bare and quoted pairs, global and in sections, printed and read back, makes exactly the callbacks it stands for, each with the right section, in order, and then those of whatever text follows, read in the last section |
| `UpsConf.LastLineRead` | src/common/upsconf.c:105-118 | a last line without a newline makes the callbacks of its words, except exactly when it is one unfinished word: then none |
| `UpsConf.UnterminatedFlagIsLost` | src/common/upsconf.c:105-118 | a flag at the very end of a file without its newline makes no callback, whatever configuration stands before it |
| `UpsConf.UnterminatedPairIsRead` | src/common/upsconf.c:105-118 | a pair there makes its callback |
| `UpsConf.ErrorTailIsRead` | src/common/upsconf.c:110-118 | behind a number sign inside open quotes, everything up to and including it is without effect and the rest of the same line is read as a new line |
| `UpsConf.ErrorStopsBehindHash` | src/common/upsconf.c:110-118 | a line fails in no other way: the reader stops right behind such a number sign |
| `UpsConf.ErrorLineSilentIff` | src/common/upsconf.c:110-118 | a line with an error makes no callback and no section change if and only if the words behind the number sign make none |
| `UpsConf.ErrorLineMakesCall` | src/common/upsconf.c:110-118 | the concrete failing case: the line x="a#b" makes the callback of a flag nobody wrote |
| `Calendar.Normalise` | src/common/timegm_fallback.c:29-44 | for every integer month the result is in 0..11 and 12 * year + month is preserved |
| `Calendar.DaysFromEpochIsCount` | src/common/timegm_fallback.c:18-26 | the formula equals the day count summed year by year and month by month if and only if the shifted year is not negative or is a leap year; otherwise it is one too large |
| `Calendar.NotInjectiveBeforeYearZero` | src/common/timegm_fallback.c:21 | the concrete failing case: two neighbouring days share a number |
| `Calendar.NextDayAddsOneIff` | src/common/timegm_fallback.c:18-26 | consecutive dates get consecutive numbers exactly when both or neither carry the surplus day, always so from shifted year zero on |
| `Calendar.DaysOrderDates` | src/common/timegm_fallback.c:18-26 | the number never runs against the calendar and from shifted year zero on orders valid dates exactly |
| `Calendar.TimegmIsCount` | src/common/timegm_fallback.c:29-49 | seconds are the counted days of the normalised month plus the time of day |
| `Calendar.DaysFitInt` | src/common/timegm_fallback.c:18-26 | within five million years of zero none of the values the expressions pass through leaves a 32-bit int |
| `Calendar.DayAndTimeFitIff` | src/common/timegm_fallback.c:48 | on the day number: every step of the seconds fits a 32-bit long if and only if day and time lie between day -24856, 20:46:00, and day 24855, 03:14:07 |
| `Calendar.TimegmFitsIff` | src/common/timegm_fallback.c:29-49 | for every valid date and time of day every step of the seconds fits a 32-bit long if and only if the moment lies between 13 December 1901, 20:46:00, and 19 January 2038, 03:14:07 |
| `Calendar.LongOverflowsIn2038` | src/common/timegm_fallback.c:48 | the values at the edges: the last second that fits and the next; and at 20:45:59 on 13 December 1901 the result fits while a step on the way does not |
| `OtaImage.WordXor` | src/ota.c:312-318 | the four byte casts of a word fold the same value as its four bytes in turn |
| `OtaImage.FoldWords` | src/ota.c:312-318 | the word-wise checksum of a segment is the byte-wise exclusive or of its data |
| `OtaImage.ChecksumAt` | src/ota.c:328 | the checksum byte is the last of the 16-byte block that holds the byte behind the segments |
| `OtaImage.SegmentAtIff` | src/ota.c:268-290 | a segment is read at an offset exactly when its serialisation stands there and its length, bounds and page alignment are right |
| `OtaImage.DecodeIff` | src/ota.c:232-364 | decoding finds an image if and only if the bytes are its serialisation with nothing left over |
| `OtaImage.DecodesIff` | src/ota.c:232-364 | the bytes decode if and only if some well-formed image serialises to them |
| `OtaImage.SerialiseInjective` | src/ota.c:232-364 | no byte string is the serialisation of two images |
| `OtaImage.SomeImage` | src/ota.c:232-364 | the format is not empty: an image with one segment holding a blank descriptor exists |
| `OtaImage.CopyImageVersion` | src/ota.c:180-212 | the text up to the first NUL with unprintable characters replaced |
| `OtaImage.DescriptorAccepted` | src/ota.c:293-310 | of a serialised descriptor exactly the magic word 0xABCD5432 and the pair of efuse revisions decide whether it is accepted |
| `OtaImage.VersionShown` | src/ota.c:180-212 | the version is the text of the serialised descriptor's version field up to its first NUL, with question marks for unprintable characters, quotation marks and backslashes, and the word unavailable for an empty one |
| `OtaImage.ReadSegment` | src/ota.c:268-325 | one pass accepts exactly a well-formed segment, advances by its size, folds its data and hashes its bytes |
| `OtaImage.ScanSegment` | src/ota.c:266-326 | the first pass also demands an acceptable application descriptor |
| `OtaImage.ReadSegments` | src/ota.c:264-326 | the loop succeeds if and only if all segments decode and every hash call succeeds; the bytes hashed are exactly those before the offset reached |
| `OtaImage.CheckTail` | src/ota.c:328-363 | accepts exactly padding, checksum byte, appended hash of all bytes before it when flagged, and the end of the image |
| `OtaImage.ValidateStagedImage` | src/ota.c:232-364 | accepts if and only if the bytes are an image and the hash library does its work; every read is in bounds; the version is the descriptor's |
| `OtaStage.ReceiveStagedImage` | src/ota.c:440-465 | a complete reception is exactly the data delivered, in order; it is given up on the first error or the fifth timeout in a row |
| `OtaStage.ReceptionIff` | src/ota.c:440-465 | said without the loop: complete, timed out or failed exactly when the calls before the end hold no error and no five timeouts in a row and bring all the bytes, or the next call is the fifth timeout or the error |
| `OtaStage.UploadEnds` | src/ota.c:440-465 | the bytes of every upload come to exactly one end |
| `OtaStage.UploadReplies` | src/ota.c:576-656 | for every idle state each reply has its exact condition; checked if and only if there is a partition, 0 < length <= its size, memory, complete data, an image whose hash calls succeed, and a timer that starts |
| `OtaStage.UploadLeaves` | src/ota.c:576-656 | a checked upload leaves exactly its bytes, identifier, descriptor version and a deadline of 600000000 microseconds after the check; one that could not be timed leaves none; any other leaves the stage it found unless that had run out |
| `OtaStage.WriteChunks` | src/ota.c:704-720 | the writer is handed non-empty chunks of at most 4096 bytes whose concatenation is the image |
| `OtaStage.ApplyKeepsInv` | src/ota.c:366-433 | every event keeps: a held stage is a validated image with an armed timer due no earlier than its deadline |
| `OtaStage.StageChanges` | src/ota.c:576-758 | an event leaves the stage, drops it, or stores a freshly checked upload; a direct installation and the clock leave one that has not run out alone |
| `OtaStage.FireDropsStage` | src/ota.c:382-400 | the expiry timer, once it runs with the lock free, never leaves a stage behind |
| `OtaStage.RunSafe` | src/ota.c:366-758 | over every run of uploads, installations, direct installations, timer and clock events the invariant holds and a held stage comes from a checked upload of that run |
| `OtaStage.InstallNeedsFreshStage` | src/ota.c:658-758 | in every run from power-up each reply to an installation has its exact condition; it succeeds if and only if it names the stage held, in time, and no call fails; every attempt that names it consumes it; the stage is an image a checked upload left less than ten minutes before |
| `OtaStage.Stager.constructor` | src/ota.c:402-419 | power-up holds no stage |
| `OtaStage.Stager.TakeStageLock` | src/ota.c:421-433 | taking the lock drops a stage whose time is up |
| `OtaStage.Stager.StopTimer` | src/ota.c:671-674 | only the timer is disarmed, if there is one |
| `OtaStage.Stager.StageFromRequest` | src/ota.c:576-656 | the handler moves the machine as one upload event with the same reply; `OtaStage.UploadReplies` and `OtaStage.UploadLeaves` say which |
| `OtaStage.Stager.InstallStaged` | src/ota.c:658-758 | the handler moves the machine as one installation event, and on success what was written concatenates to the staged bytes |
| `OtaStage.Stager.ExpiryCallback` | src/ota.c:382-400 | the callback moves the machine as one timer event |
| `StateTree.CompareZero` | src/common/state.c:108-133 | strcasecmp finds two names equal exactly when they are equal up to ASCII case |
| `StateTree.CompareTransitive` | src/common/state.c:108-133 | strcasecmp is a transitive order |
| `StateTree.FindIsLookup` | src/common/state.c:718-736 | walking the tree finds exactly what the case-insensitive map holds |
| `StateTree.SetRefines` | src/common/state.c:274-328 | setting keeps the search tree and changes the map at the one key only, with the map's result; what that entry and result are is `StateTree.SetLaw` |
| `StateTree.SetLaw` | src/common/state.c:274-328 | on every search tree: after a set the name is found with that time; a new entry is mutable and holds the value, a mutable one whose value differs up to case takes it over, any other keeps its own; the result is 1 exactly when an entry was added or its value changed; no other name is affected |
| `StateTree.HangRefines` | src/common/state.c:108-133 | hanging a smaller subtree merges the two maps, keeps the order, and never reaches the duplicate branch |
| `StateTree.DeleteRefines` | src/common/state.c:198-272 | deleting removes exactly the one key or nothing, as immutability and the cutoff say |
| `StateTree.DeleteLaw` | src/common/state.c:198-272 | on every search tree: the result is 1 if and only if the name was found, mutable and, with a cutoff, last set before it, and then it is gone; otherwise the tree is unchanged and the result is 0; no other name is affected |
| `StateTree.RunRefines` | src/common/state.c:198-328 | in every run the tree stays a strict search tree and gives the results of the map |
| `StateTree.MarkRefines` | src/drivers/dstate.c:1555-1580 | setting flags keeps the search tree and makes at most the one found entry immutable |
| `StateTree.MarkLaw` | src/drivers/dstate.c:1555-1580 | on every search tree: of the one entry found only the flag changes, and it is never taken back |
| `StateTree.ImmutableSurvives` | src/common/state.c:198-328 | in every run from every search tree, flag changes included, an immutable variable is still found with its name, value and flag |
| `StateTree.OthersUntouched` | src/common/state.c:198-328 | an operation changes no other variable |
| `StateTree.StoredValueReadsBackIff` | src/common/state.c:42-63 | in any tree a run from a search tree builds, quoting and parsing val gives raw if and only if raw is printable and its encoding fits 256 bytes |
| `NodeValues.PrintString` | src/common/state.c:60 | a string that fits is the C string in the buffer afterwards |
| `NodeValues.NodeValue.constructor` | src/common/state.c:316-325 | a new variable has its value in raw and the 256-byte encoding of it as val |
| `NodeValues.NodeValue.ValEscape` | src/common/state.c:42-63 | val, in whichever of the two buffers, is the encoding of raw, and raw is untouched |
| `NodeValues.NodeValue.Change` | src/common/state.c:304-314 | the same after storing any other value into the reused buffers |
| `StateNodes.Walk` | src/common/state.c:274-328 | the pointer walk stops at the link the comparisons lead to, with the rest of the tree around it |
| `StateNodes.Store` | src/common/state.c:198-231 | writing through that link replaces the subtree there and nothing else |
| `StateNodes.HangBelow` | src/common/state.c:108-133 | on the heap, re-hanging builds the tree the value function does out of the same nodes |
| `StateNodes.SetBelow` | src/common/state.c:274-328 | setting updates the node in place or adds one fresh node |
| `StateNodes.Rehang` | src/common/state.c:216-221 | the left subtree goes below the right one without touching the rest |
| `StateNodes.DeleteBelow` | src/common/state.c:198-272 | deleting unlinks the node and keeps every other; in a search tree the duplicate branch is not taken |
| `StateNodes.VarTree.constructor` | src/common/state.c:274-328 | an empty tree |
| `StateNodes.VarTree.FindNode` | src/common/state.c:718-736 | returns the node holding what the tree value's lookup finds |
| `StateNodes.VarTree.SetInfo` | src/common/state.c:274-328 | the heap tree moves exactly as the value function, with its result, for which `StateTree.SetLaw` holds |
| `StateNodes.MarkBelow` | src/drivers/dstate.c:1555-1580 | the flag changes in place in the node found and nowhere else |
| `StateNodes.VarTree.MarkImmutable` | src/drivers/dstate.c:1555-1580 | the heap tree moves exactly as the value function |
| `StateNodes.VarTree.DeleteInfo` | src/common/state.c:198-272 | the heap tree moves exactly as the value function; no duplicate branch in a search tree |
| `CommandList.InsertRefines` | src/common/state.c:559-586 | adding keeps the order and adds exactly one folded name; a name equal up to case is refused |
| `CommandList.RemoveRefines` | src/common/state.c:612-639 | deleting keeps the order and removes exactly that folded name |
| `CommandList.RunRefines` | src/common/state.c:559-639 | any run gives the results, and ends with the members, of the same run on a set of folded names |
| `CommandList.InsertAt` | src/common/state.c:563-576 | stopping the scan at the first name not smaller decides the insertion |
| `CommandList.RemoveAt` | src/common/state.c:614-636 | and the deletion |
| `CommandList.Commands.constructor` | src/common/state.c:559-586 | an empty list |
| `CommandList.Commands.Scan` | src/common/state.c:563-576 | the pointer walk stops behind all smaller names |
| `CommandList.Commands.Link` | src/common/state.c:578-583 | the new item stands in between, all others keep their order |
| `CommandList.Commands.Unlink` | src/common/state.c:628-631 | the item is gone, all others keep their order |
| `CommandList.Commands.AddCommand` | src/common/state.c:559-586 | the linked list moves exactly as the insertion on values |
| `CommandList.Commands.DeleteCommand` | src/common/state.c:612-639 | the linked list moves exactly as the deletion on values |
| `ApiTokens.HexRoundTrip` | src/api-token-store.c:28-83 | the listed text of an identifier leads back to it |
| `ApiTokens.HexInjective` | src/api-token-store.c:50-83 | no two texts lead to the same identifier |
| `ApiTokens.NamesEqual` | src/api-token-store.c:149-162 | the loop finds two buffers of any sizes equal exactly when their C strings are equal up to ASCII case |
| `ApiTokens.ClashFound` | src/api-token-store.c:253-262 | two records clash when both are active and share an identifier or a name up to case |
| `ApiTokens.CheckRecords` | src/api-token-store.c:246-268 | the two loops accept exactly the valid record arrays without a clash |
| `ApiTokens.ShiftOut` | src/api-token-store.c:557-562 | later records move up one place and the last is wiped |
| `ApiTokens.FreeSlot` | src/api-token-store.c:457-464 | the first inactive place |
| `ApiTokens.NameExists` | src/api-token-store.c:354-367 | some active record has the name up to case |
| `ApiTokens.FindId` | src/api-token-store.c:541-548 | the place of the active record with the identifier |
| `ApiTokens.DrawId` | src/api-token-store.c:472-485 | the first drawn identifier that is neither zero nor taken |
| `ApiTokens.NewRecordValid` | src/api-token-store.c:173-203 | a created record passes the check of the next load |
| `ApiTokens.LoadBack` | src/api-token-store.c:205-290 | every array saved is what the next load returns |
| `ApiTokens.AppendKeepsValid` | src/api-token-store.c:431-516 | filling the first free place keeps the array valid and active records in front |
| `ApiTokens.ShiftKeepsPacked` | src/api-token-store.c:557-562 | shifting out a record keeps active records in front and the order of the others |
| `ApiTokens.CreateAppends` | src/api-token-store.c:431-516 | creating appends exactly the returned record, or leaves the list as it was, or, when the save fails after the write, appends the record made from the name, time and draws; the store stays loadable |
| `ApiTokens.DeleteRemoves` | src/api-token-store.c:518-566 | a successful deletion takes out exactly the record listed under that text and keeps the order; not found means nobody is listed under it |
| `ApiTokens.ListedIdDeletes` | src/api-token-store.c:392-429 | every listed record can be deleted by its listed text |
| `ApiTokens.TokensUnique` | src/api-token-store.c:246-268 | identifiers and case-folded names are unique |
| `ApiTokens.ErasedStore` | src/api-token-store.c:164-171 | an erased store loads as empty |
| `ApiTokens.ForeignStoreIsInert` | src/api-token-store.c:205-269 | a blob of another layout or version, or with records no creation leaves, is left as it is by every operation and lets nobody in |
| `ApiTokens.RunOk` | src/api-token-store.c:205-566 | every store any run of creations, deletions and failing saves leaves is accepted by the next load and within capacity |
| `ApiTokens.RecordSurvivesRun` | src/api-token-store.c:431-566 | a record outlives every run that does not delete its identifier |
| `ApiTokens.CreateSucceedsIff` | src/api-token-store.c:431-516 | in terms of the list, a creation succeeds if and only if name, time, a free place, a free name, a free identifier, the hash and the save are all good |
| `ApiTokens.CreateErrors` | src/api-token-store.c:431-516 | in terms of the list, when a creation is refused for its arguments, for want of room or for a taken name, and that a refused one changes nothing |
| `ApiTokens.CreatedRecord` | src/api-token-store.c:494-512 | the record carries the name, time and scopes asked for, the drawn salt, the hash of domain, salt and token, and the last four characters of the token, which is the prefix and the secret in hexadecimal |
| `ApiTokens.TokenFormIff` | src/api-token-store.c:97-114 | a text has the form of a token if and only if it is the prefix and the lower-case hexadecimal of some 32-byte secret |
| `ApiTokens.AuthorizedIffListed` | src/api-token-store.c:568-607 | a token is let in if and only if its form and scopes are good and some listed record has its verifier; whose token that is, is `ApiTokens.LetInHoldsTokenOrCollision` |
| `ApiTokens.LetInHoldsTokenOrCollision` | src/api-token-store.c:431-607 | in every run from an erased store, whoever is let in holds the very token a creation of the run made a still listed record for, or a different text with the same hash behind that record's 16-byte salt: a collision of two named inputs |
| `ApiTokens.AuthorizedAfterDeletionIff` | src/api-token-store.c:518-607 | after a successful deletion a token is let in if and only if another listed record has its verifier |
| `ApiTokens.TokenAuthorizedUntilDeleted` | src/api-token-store.c:568-607 | a token handed out is authorized for the store's scopes after any run, until its identifier is deleted |
| `ApiTokens.TokenStore.constructor` | src/api-token-store.c:164-171 | starts from an erased store |
| `ApiTokens.TokenStore.LoadRecords` | src/api-token-store.c:205-269 | returns the records or the error the load function gives, and a read error when NVS cannot be read |
| `ApiTokens.TokenStore.SaveRecords` | src/api-token-store.c:271-290 | the blob is replaced as a whole or not at all |
| `ApiTokens.TokenStore.CreateToken` | src/api-token-store.c:431-516 | store and result are those of the create function; an unreadable store is left alone |
| `ApiTokens.TokenStore.DeleteToken` | src/api-token-store.c:518-566 | store and result are those of the delete function; an unreadable store is left alone |
| `ApiTokens.TokenStore.Authorize` | src/api-token-store.c:568-607 | true exactly when the store can be read and some active record with the scopes has the token's verifier |
| `WifiCredentials.StepBooks` | src/wifi.c:543-791 | every event, torn record or not, keeps what is known about pending records and attempts |
| `WifiCredentials.StepKeepsInv` | src/wifi.c:543-791 | every event but a commit of a torn pair keeps the whole invariant |
| `WifiCredentials.ActiveIsLegitimateIff` | src/wifi.c:543-791 | over every run of boots, stagings, failures, resets and power losses the active record is at all times absent, initial, or a staged record that obtained an address, if and only if no commit follows, before a power loss or reset, a failed password write of a promotion that changes both name and password and whose pair of new name and old password was neither initial nor ever validated |
| `WifiCredentials.NoCommitAfterFailedWrite` | src/wifi.c:681-714 | in particular it is as long as no commit follows a failed password write before a power loss or reset |
| `WifiCredentials.FailedPasswordWrite` | src/wifi-credentials.c:58-79 | the pair a failed password write leaves is foreign exactly when name and password both change and the pair is neither initial nor validated |
| `WifiCredentials.TornComesFromFailedWrite` | src/wifi-credentials.c:58-79 | in every run the working copy holds a torn pair if and only if some earlier password write failed leaving one and no power loss or reset came since |
| `WifiCredentials.TornPairMixes` | src/wifi-credentials.c:58-79 | the pair left is the new name with the password of the committed record, which itself is untouched |
| `WifiCredentials.TornRecordCanSurvive` | src/wifi-credentials.c:58-89 | the concrete failing run: a lost write, then the commit of the next staging |
| `WifiCredentials.StagingCommits` | src/wifi-credentials.c:58-89 | staging commits whatever else the working copy holds |
| `WifiCredentials.OneValidationPerStaging` | src/wifi.c:681-714 | in every run no staging is validated twice and only staged records are validated |
| `WifiCredentials.OnlyPromotionTouchesActive` | src/wifi-credentials.c:58-137 | nothing but a promotion, a reset or a power loss changes the active record in the working copy |
| `WifiCredentials.FailedValidationKeepsActive` | src/wifi.c:681-791 | a whole boot whose validation fails leaves the active record and the validated set as they were, removes the pending record, counts one attempt and ends with the saved network or the portal |
| `WifiCredentials.Device.constructor` | src/wifi.c:743-760 | a device that is off, with what is stored |
| `WifiCredentials.Device.Crash` | src/wifi-credentials.c:58-137 | power loss keeps exactly what was committed |
| `WifiCredentials.Device.SavePending` | src/wifi-credentials.c:58-89 | a stretch of a machine run; on success the record is committed, and the active one is untouched either way |
| `WifiCredentials.Device.ErasePending` | src/wifi-credentials.c:91-119 | a stretch of a machine run; on success both pending keys are gone for good |
| `WifiCredentials.Device.SaveActive` | src/wifi-credentials.c:58-84 | a stretch of a machine run; on success the record is the committed active one, on failure the committed store is unchanged |
| `WifiCredentials.Device.Unstage` | src/wifi-credentials.c:91-119 | taking a staged record back, result ignored |
| `WifiCredentials.Device.Boot` | src/wifi.c:681-791 | a boot is a stretch of a machine run; the committed store changes only by the erasure and, when every call succeeds, the promotion of the pending record; otherwise it ends online if and only if the saved record could be read and connects |
| `WifiCredentials.Device.StageCredentials` | src/wifi.c:543-594 | staging is a stretch of a machine run; it succeeds if and only if the lengths are right, a connected device's own network would not lose its password, and every call succeeds; a refused one changes nothing |
| `AdminCredentials.PackUnpack` | src/management-credentials.c:41-57 | a record written in the current format reads back as itself |
| `AdminCredentials.LegacyAcceptsIff` | src/management-credentials.c:278-345 | without a current record a password is accepted if and only if 100000 iterations over the legacy salt give the legacy hash |
| `AdminCredentials.CurrentAcceptsIff` | src/management-credentials.c:278-345 | a current record decides alone, by its own iteration count, and only for version 1 and 1000 to 1000000 iterations |
| `AdminCredentials.NewRecordAccepts` | src/management-credentials.c:174-345 | what a completed password change accepts is what 12500 iterations over the drawn salt cannot tell from the password |
| `AdminCredentials.PrefixLoads` | src/management-credentials.c:174-276 | after any prefix of the five writes verification uses the old secret or exactly the new one; the second write decides |
| `AdminCredentials.NeverAMixture` | src/management-credentials.c:174-345 | cut anywhere, exactly the passwords of the old record or exactly those of the new one are accepted, and a configured device stays configured |
| `AdminCredentials.CompleteWrites` | src/management-credentials.c:228-276 | a complete sequence leaves the new record and nothing of the staged or legacy keys |
| `AdminCredentials.LastPromoted` | src/management-credentials.c:174-276 | the last attempt that got past its second write |
| `AdminCredentials.RunLoads` | src/management-credentials.c:174-345 | after any sequence of interrupted attempts the secret is that of the last promoted attempt, or the original |
| `AdminCredentials.ConfiguredStaysConfigured` | src/management-credentials.c:77-116 | and the device stays configured, accepting the last promoted password |
| `AdminCredentials.MigrationKeepsPassword` | src/management-auth-routes.c:84-97 | migrating at login keeps the password just accepted, wherever the migration is cut |
| `AdminCredentials.ConstantTimeEqual` | src/management-credentials.c:59-69 | the accumulated difference is zero exactly when the byte strings are equal |
| `AdminCredentials.CredentialStore.constructor` | src/management-credentials.c:71-75 | a store with what is in flash |
| `AdminCredentials.CredentialStore.SetAdminPassword` | src/management-credentials.c:174-276 | succeeds exactly when the password has 12 to 128 bytes and every call succeeds; the store is always one a prefix of the writes leaves |
| `AdminCredentials.CredentialStore.Promote` | src/management-credentials.c:236-271 | from the staged record on, the store is one a prefix of the writes leaves |
| `AdminCredentials.CredentialStore.VerifyAdminPassword` | src/management-credentials.c:278-345 | accepts only what the stored record accepts, all of it when reads succeed, and asks for migration exactly for legacy matches |
| `AdminCredentials.CredentialStore.IsConfigured` | src/management-credentials.c:77-116 | never claims a record that could not be verified against, and with good reads finds every one that can |
| `ManagementLog.LevelOf` | src/management-log.c:44-61 | the level is always one of the five letters |
| `ManagementLog.UsualLine` | src/management-log.c:44-80 | a line of level, time, tag and message yields that level and that message, whatever the message holds |
| `ManagementLog.OtherLine` | src/management-log.c:44-80 | a line without a tag keeps its level letter, if it has one, and is all message behind it |
| `ManagementLog.Truncated` | src/management-log.c:124 | what is kept is exactly the first 191 bytes, or all of a shorter message |
| `ManagementLog.SyslogLine` | src/management-log.c:243-287 | the line is the daemon prefix and exactly the first 186 bytes of the message, or all of a shorter one |
| `ManagementLog.SyslogLevel` | src/management-log.c:265-277 | E up to priority 3, W for 4, I for 5, D above |
| `ManagementLog.FeedAppend` | src/management-log.c:150-185 | capturing two chunks is capturing their concatenation |
| `ManagementLog.ChunksDoNotMatter` | src/management-log.c:150-185 | however output is cut into chunks, the same notes and pending text result |
| `ManagementLog.TrimmedSnoc` | src/management-log.c:168-180 | adding a byte to the buffer is adding it to the line: carriage returns dropped, 252 bytes and three dots beyond 255 |
| `ManagementLog.CaptureIsLineByLine` | src/management-log.c:104-185 | the notes kept are those of the newline-terminated lines of the concatenation, in order, and the rest stays pending |
| `ManagementLog.LibraryLinesKept` | src/management-log.c:44-185 | however the logging library's lines are cut into chunks, exactly their levels and messages are kept, in order, each cut at 191 bytes, without empty ones and the handshake line |
| `ManagementLog.HoldsStore` | src/management-log.c:119-130 | storing keeps the ring the home of the latest fifty entries |
| `ManagementLog.HoldsRead` | src/management-log.c:342-352 | reading from the computed start yields the latest entries, oldest first |
| `ManagementLog.Log.constructor` | src/management-log.c:215-241 | an empty log |
| `ManagementLog.Log.Store` | src/management-log.c:104-131 | the history grows by the message, cut to fit, unless it is empty or the routine handshake line |
| `ManagementLog.Log.CommitPending` | src/management-log.c:133-148 | the pending line becomes its entry and the buffer is empty |
| `ManagementLog.Log.PutByte` | src/management-log.c:168-180 | the buffer refines the pure append, never overruns and stays terminated |
| `ManagementLog.Log.CaptureChunk` | src/management-log.c:150-185 | the history grows by exactly the notes the chunk completes, with its time |
| `ManagementLog.Log.CaptureSyslog` | src/management-log.c:243-287 | the history grows by exactly one entry, around the line buffer |
| `ManagementLog.Log.CopyLast` | src/management-log.c:342-352 | the copy is the latest entries, oldest first |
| `ManagementLog.Log.CopySnapshot` | src/management-log.c:398-433 | after a flush the copy is exactly the last fifty entries ever stored; a small buffer is refused without effect |
| `ManagementLog.Log.StatusSnapshot` | src/management-log.c:326-352 | after a flush the six last entries ever stored |
| `LoginSession.RetryAfterIsExact` | src/management-session.c:263-275 | the advertised wait is the least whole number of seconds after which an attempt is checked again |
| `LoginSession.CooldownBlocks` | src/management-session.c:263-275 | during a cooldown no attempt is checked and nothing changes |
| `LoginSession.WindowBound` | src/management-session.c:282-306 | from any state, a stretch under a minute without a login counts at most five failures less those already counted |
| `LoginSession.FailuresStayBelow` | src/management-session.c:282-306 | the counter stays below five in every run |
| `LoginSession.FiveFailuresPerMinute` | src/management-auth-routes.c:72-116 | in every sequence of attempts, any stretch shorter than 60 seconds without a login contains at most five counted failures |
| `LoginSession.EveryAttempt` | src/management-auth-routes.c:72-116 | every attempt since boot: throttled if and only if it comes less than 60 seconds after an attempt that started a cooldown, with the seconds left rounded up; otherwise logged in if and only if the password is right, and a wrong one starts a cooldown if and only if it is the fifth checked wrong one since the last login or cooldown start |
| `LoginSession.LoginThrottle.constructor` | src/management-session.c:36-37 | no failures, no cooldown |
| `LoginSession.LoginThrottle.RetryAfterSeconds` | src/management-session.c:263-275 | the wait the specification gives |
| `LoginSession.LoginThrottle.RecordFailure` | src/management-session.c:282-295 | the fifth failure clears the counter and starts sixty seconds |
| `LoginSession.LoginThrottle.RecordSuccess` | src/management-session.c:300-306 | a login clears both |
| `LoginSession.LoginThrottle.HandleLogin` | src/management-auth-routes.c:72-116 | the handler moves the throttle as one attempt, with its outcome, which `LoginSession.EveryAttempt` gives for every sequence |
| `LoginSession.AlwaysBacked` | src/management-session.c:156-173 | in every run a session on record was renewed by an event at its time of last activity |
| `LoginSession.LetInWithinFifteenMinutes` | src/management-session.c:361-396 | a request is let in only within fifteen minutes of the start of its session or of a refreshing request with its cookie, with nothing ending the session in between |
| `LoginSession.LetInIff` | src/management-session.c:361-396 | a request is let in if and only if it carries a 64-byte token within 900 seconds of the start of its session or of a refreshing request with it that was let in, with no new session and no sign-out in between |
| `LoginSession.StaleSessionDropped` | src/management-session.c:385-392 | a request with a token of the right length leaves no session behind that has run out |
| `LoginSession.PollsIgnored` | src/management-session.c:361-396 | the same from any two records requests cannot tell apart |
| `LoginSession.PollsNeverExtend` | src/management-session.c:361-396 | leaving out all non-refreshing requests changes no verdict on the others |
| `LoginSession.RemainingIsSafe` | src/management-session.c:322-341 | while positive remaining seconds last the current cookie is accepted; one second more and it is not |
| `LoginSession.RemainingPositiveIff` | src/management-session.c:322-341 | remaining seconds are positive exactly when a full second of the idle time is left |
| `LoginSession.BrowserSession.constructor` | src/management-session.c:32 | no session |
| `LoginSession.BrowserSession.Open` | src/management-session.c:156-173 | a session with the new token, active now |
| `LoginSession.BrowserSession.Close` | src/management-session.c:311-316 | no session |
| `LoginSession.BrowserSession.IsAuthorized` | src/management-session.c:361-396 | verdict and new record are those of the specification, expiry included |
| `LoginSession.BrowserSession.RemainingSeconds` | src/management-session.c:322-341 | the specified number, and positive only while the cookie is accepted |
| `FormCodec.Strtol2` | src/management-http.c:214 | strtol in base 16 on the two characters, for every pair: digits, one digit, blank or sign before a digit, or nothing |
| `FormCodec.DecodersAgree` | src/wifi-provisioning-web.c:198-231 | the portal decodes exactly the inputs whose percent escapes are well formed, to what the management decoder yields |
| `FormCodec.PiecewiseDecoded` | src/management-http.c:204-225 | decoding yields one byte per piece: a character, a plus sign as a space, an escape with digits of either case as its value, a percent sign too near the end as itself |
| `FormCodec.DecodeFormComponent` | src/management-http.c:204-225 | the buffer holds the decoded value, or its prefix that fits, terminated; success exactly when it fits |
| `FormCodec.UrlDecode` | src/wifi-provisioning-web.c:184-231 | success exactly when the input is well formed and its value fits, and then the buffer holds it |
| `FormCodec.NameMatches` | src/management-http.c:240-246 | a pair has the expected name exactly when its decoded name fits 40 bytes and equals it as a C string |
| `FormCodec.ExtractFormValue` | src/management-http.c:227-251 | the first pair with the name decides; without one the buffer is untouched |
| `FormCodec.FormValue` | src/management-http.c:277-286 | the same on the C string in the body, cut at 640 bytes; without the name the buffer is untouched |
| `FormCodec.BodyRead` | src/management-http.c:277-286 | the body is read up to its first NUL and no further than 640 bytes |
| `FormCodec.ComponentRoundTrip` | src/management-http.c:204-225 | both decoders undo the serialisation of section 5.2 of the WHATWG URL Standard on every byte string |
| `FormCodec.TokensOfForm` | src/management-http.c:230-232 | splitting a serialised form gives its pairs |
| `FormCodec.TokensOfJoined` | src/management-http.c:230-232 | splitting any text at its ampersands gives its non-empty segments in order |
| `FormCodec.NamedIff` | src/management-http.c:240-246 | a serialised pair has exactly its own name |
| `FormCodec.FormRoundTrip` | src/management-http.c:204-286 | in every serialised form with distinct NUL-free names within the limit, looking up a name of up to 39 bytes finds that field's value |
| `FormCodec.AbsentName` | src/management-http.c:227-251 | a name the form does not have is not found |
| `JsonAppend.Escape` | src/management-http.c:141-199 | an escape is one to six characters and never a NUL for a non-NUL byte |
| `JsonAppend.StringRoundTrip` | src/management-http.c:127-202 | reading an escaped string by section 7 of RFC 8259 gives back every byte and stops behind the closing mark, whatever follows |
| `JsonAppend.OverflowSticks` | src/management-http.c:108-111 | once an append has overflowed none succeeds again |
| `JsonAppend.ChainFitsIff` | src/management-http.c:105-125 | a chain of appends succeeds exactly when its concatenation would fit as one; otherwise the mark ends at the size |
| `JsonAppend.JsonBuffer.constructor` | src/management-http.c:105-125 | an empty buffer |
| `JsonAppend.JsonBuffer.Append` | src/management-http.c:105-125 | on success the text is the old text plus the new, terminated; on overflow the mark goes to the size |
| `JsonAppend.JsonBuffer.AppendAll` | src/management-http.c:105-125 | a chain of appends leaves exactly the concatenation, succeeding exactly when every append fits |
| `JsonAppend.JsonBuffer.AppendString` | src/management-http.c:127-202 | on success the text grows by exactly the escaped string; fails exactly when that does not fit |
| `DnsReply.PlainNameIff` | src/dns-server.c:88-97 | the walk accepts exactly the names that are well formed by section 4.1 of RFC 1035 and use no compression |
| `DnsReply.AnswerableIff` | src/dns-server.c:65-116 | a request is answerable if and only if it is a standard query with at least one question whose first, read by section 4.1 of RFC 1035, uses no compression and asks for type A in class IN |
| `DnsReply.PlainNameReads` | src/dns-server.c:88-97 | a name the walk accepts reads the same in any message with the same bytes there |
| `DnsReply.QuestionReads` | src/dns-server.c:88-116 | the reply carries the first question of the request |
| `DnsReply.AnswerReads` | src/dns-server.c:135-145 | its one record is an A record whose pointer resolves to the question name |
| `DnsReply.ReplyIsWellFormed` | src/dns-server.c:65-148 | every reply is, by section 4.1 of RFC 1035, a complete message with the request's identifier and first question and exactly one answer: the address for the name asked |
| `DnsReply.ReplyFlagBits` | src/dns-server.c:127 | the reply is marked as an authoritative response to a standard query and keeps every other flag |
| `DnsReply.WalkLabels` | src/dns-server.c:88-97 | the walk ends in bounds on every request, at the empty label exactly when the name is well formed |
| `DnsReply.WriteReply` | src/dns-server.c:125-145 | header, question and answer are written in place and nothing behind them |
| `DnsReply.PrepareReply` | src/dns-server.c:65-148 | answers exactly the answerable requests that fit the capacity when there is an address; otherwise the buffer is untouched |

## Left out

- HTTP routes, page rendering, response headers and authorization dispatch: plumbing around the operations modelled.
- NVS, PSA and mbedTLS, esp_timer, lwIP, the HTTP server and the bootloader: foreign code, present only as outcomes, functions and sets of acceptable values. The image layout constants are those of ESP-IDF.
- src/usb.c, src/main.c, src/management-certificates.c and the status pages: foreign callbacks and field copying.
- The fallback string, number and date formatting under src/common: compiled out or easy.
- Range and enumeration lists of a variable, the other flags and the aux setter: easy members beside the tree.
- The retry counter and event handling of src/wifi.c:335-401: a connection attempt is one outcome, obtained an address or not.
- Concurrency between tasks: a request, timer callback or boot is one sequence of steps. The firmware expiry callback may run while a request holds the lock, and power loss may strike between any two NVS calls.
- Memory exhaustion in the NUT code, which ends the process.
- Cookie header parsing and the CSRF tokens: a request arrives with the cookie value found in it, if any.
- Timing of constant-time comparisons and strength of random values.
- The listing of API tokens as text: only the listed identifier matters for what is proved.
- Partial NVS writes: a failing NVS call changes nothing, except that saving API tokens may report a failure after the write; ADMIN credential writes last from the moment they are made, Wi-Fi writes from their commit.
- OtaStage.ReceiveStagedImage: the list of deliveries is finite; running out of it is an outcome of its own that the device does not have.
- FormCodec.ExtractFormValue: the tokeniser's NULs written into the private copy of the body are slices here, since nothing reads that copy afterwards.
- DnsReply.PrepareReply: the limit of 255 octets on a name in section 2.3.4 of RFC 1035 is checked neither by the code nor by the reader of messages here.
- JsonAppend.JsonBuffer.Append: takes the text a format expands to; formatting itself is not modelled.
- WifiCredentials.StepKeepsInv: the protocol is a machine on values so that it can be cut between any two calls; `Device` performs it in place.
- Calendar.TimegmFitsIff: takes a time of day within its ranges (seconds up to 60) and a valid date; for fields outside them every step is still given by `SecondsFit`, but no moment of the calendar names the edge.
- StateNodes.VarTree.SetInfo: a node holds raw and val as values; the two reused buffers behind them are `NodeValues.NodeValue`, on its own.
- StateTree.MarkRefines: of the flags only immutability is kept; `state_setflags`, which never sets it and serves the other tree, is not modelled.
