# mvsMF: a verified model

mvsMF answers z/OSMF REST requests on MVS 3.8j. Between its calls of MVS services sit
portable loops and small state machines that carry the hard part of the service:
correlating console output over a wrapping trace table, serializing commands over
workers that may abend, framing and storing request bodies, paging listings, routing,
parsing and printing JSON, rewriting JOB cards, and caches and checksums. This project
models that logic in Dafny and proves what it promises, for all inputs, runs and
interleavings.

Files follow the components:

- `WindowClock`, `TraceTable`, `Detection`: keyword detection over a window that slides
  and a clock that shows neither date nor fraction. A history of entries with true times
  is the reference; a table is any window of it.
- `Correlation`, `ResponseBlock`, `Collect`: the walk behind a command's echo, the block it
  answers, said entry by entry, the capture, and cursors over any run of polls.
- `ConsoleLock`, `LazyStore`: two protocols as state machines over every interleaving.
- `NtStore`: 32 slots as a map with times to live and eviction.
- `PathPatterns`, `RouteTable`: the two pattern scanners and the table registered at
  start.
- `Glob`, `QueryKeys`, `Paging`, `DirectoryBlocks`: the member pattern, start keys, both
  listings with the client that pages through them, and directories as they are stored.
- `ReqBody`, `Reclines`, `RecordLimits`, `PutBody`: from the bytes of a connection to one
  buffer, or to the records of a data set.
- `JobReq`, `JobReqLanguage`: the parser of a job's request, and exactly what it accepts.
- `Json`, `JsonDocument`: the JSON builder and the document a client reads.
- `SpoolAccess`: entities, levels, and the cache of one request.
- `Checksums`, `IfMatch`: ETag, text sum, and the precondition of a write.
- `JobCard`, `CardOperands`, `CardRemoval`, `CardField`, `CardCommas`, `SubmitCard`,
  `CardCredentials`: the rewriting of a submitted JOB card, what becomes of its operands and
  commas, and that no credential but the caller's is left on it.
- `LogDates`, `JclLines`: the dates of the log, and the growth of the line table.
- `Bytes`, `Suffixes`, `Texts`, `Wrappers`: shared types, trailing blanks, and the reading
  of a text from its front.

Each loop or in-place operation is a method proved against a function; the theorems are
lemmas about those functions. Calls into MVS, httpd and the allocator are parameters: a
predicate that says which requests for storage are granted, a sequence of turns or
snapshots, a function for the answers of the security product.

Where the code and its comments differ the model follows the code:

- An abend between an ENQ or DEQ and its record in the session leaves the ENQ held
  (`ConsoleLock.RecordExact`, `LeakWitness`), and with no context the lock serializes
  nothing (`UnserializedWitness`).
- A new match in the anchor's own second is taken for an old one of that second that has
  been evicted since (`WindowClock.CountFallsShort`, `WindowClock.TakenForOldWitness`); when
  the count is right is told exactly (`WindowClock.CountIsExact`).
- The store reads the clock before its latch: an operation that waits for the latch while
  a key is accessed and a tick passes takes the key for expired (`NtStore.LateMisses`,
  `NtStore.LateWitness`). `NtStore.Survives` is about clocks read in the order of the
  operations.
- The matcher agrees with the recursive definition exactly for names without an asterisk
  (`Glob.MatcherExact`).
- After an allocation failure the bytes discarded are not counted, so the chunked reader
  passes the place where it would have refused an oversized body exactly if a size
  announced later is too big for the bytes decoded but not for the stale count
  (`ReqBody.ReadingStops`, `ReqBody.LateWitness`).
- Removing credentials can lose the comma that continues a JOB line, exactly if the line
  keeps no operand (`CardCommas.CommaSurvives`, `CardCommas.AloneLosesComma`), and can
  leave a credential behind (`JobCard.LateEqualWitness`, `JobCard.ApostropheWitness`): the
  value of an operand is taken to end at its first comma or blank, quoted or not
  (`CardRemoval.RemovedExact`).
- The comma that continues a line is put behind a remark, where it does not continue the
  card (`CardField.GoesOnExact`, `CardField.RemarkWitness`).
- A remark behind `NOTIFY=&SYSUID` loses its first word and what follows becomes an
  operand (`SubmitCard.RemainderExact`, `SubmitCard.RemarkWitness`); if the word takes one
  of two apostrophes along this can bring a credential to light (`CardCredentials.QuotedRemarkWitness`).
- Pages of one name never end if there is more than one match, and all other paging
  collects everything (`Paging.PagingExact`), as long as the names come back as their own
  keys: exactly those without a small letter, not blank, and as data set names without a
  blank at the end (`Paging.DataSetReturns`, `Paging.MemberReturns`). Directories may hold
  others, and paging past one of these can lose members (`Paging.SmallLetterWitness`).
- `jobreq_parse` takes ill-formed objects, those of a looser grammar exactly
  (`JobReqLanguage.AcceptedExact`).
- A number whose key is longer than 252 characters is printed with its key cut
  (`Json.NumberKeyFits`).

`dafny verify dfyconfig.toml` checks the whole project.

## Model

| member | source | states |
|---|---|---|
| TraceTable.ReadSecsOfDay | src/mttsnap.c:76-94 | reads the stamp of a trace line: the seconds of the day exactly where a one- or two-digit hour, .mm and .ss in range follow the flags and blanks, -1 otherwise |
| TraceTable.StampReadsBack | src/mttsnap.c:76-94 | every well-formed stamp, behind any flags and blanks and in front of anything, is read as the second it is |
| TraceTable.ClockShown | src/mttsnap.c:76-94 | a line printed with hh.mm.ss is stamped with 3600 h + 60 m + s, the digits written out |
| TraceTable.StampExact | src/mttsnap.c:76-94 | and only a line that shows a time in range behind its flags and blanks has a stamp |
| Detection.TakeAnchor | src/mttsnap.c:114-147 | the anchor is the newest second of the table and the number of matches already in that second; a snapshot that could not be taken is an error and not an empty table |
| Detection.DetectSince | src/mttsnap.c:157-217 | counts exactly the matches that are fresh by the clock and reports the message of the newest of them, into a buffer of any size; nothing without a match, without a buffer, or on a failed snapshot, which is -1 |
| Detection.HasExact | src/mttsnap.c:95-111 | a line is a match if and only if its first 199 characters show the keyword, small letters standing for its capitals; an empty slot is none |
| Detection.MessageShown | src/mttsnap.c:201-212 | of 24 characters of prefix, blanks, a message and blanks the message is reported, cut to the buffer; a line no longer than the prefix is all message |
| Detection.MarksOfWindow | src/mttsnap.c:114-217 | a table that is a window of the history shows that window of the history's stamps and matches, so the theorems over histories apply to both calls |
| WindowClock.CountedIsNew | src/mttsnap.c:157-217 | over any history appended at the end and evicted at the front, with true time not going back and nothing twelve hours from the anchor, every counted match came in after the anchor was taken, across midnight, continuation lines and partial eviction of the anchor's own second |
| WindowClock.LaterIsCounted | src/mttsnap.c:157-217 | every match still in the window that is later than the anchor's second is counted, also after an anchor on a table without a stamp |
| WindowClock.CountedExactly | src/mttsnap.c:157-217 | while nothing of the anchor's second has been evicted, an entry is counted if and only if it is a match that came in since |
| WindowClock.CountWhileWhole | src/mttsnap.c:157-217 | then the count is the number of matches appended since the anchor |
| WindowClock.CountFallsShort | src/mttsnap.c:157-217 | from any anchor, on any later window, the count falls short of the matches since by exactly those evicted, those whose time was evicted, and as many new ones of the anchor's own second as old ones of it are gone |
| WindowClock.CountIsExact | src/mttsnap.c:157-217 | the count is the number of matches since the anchor if and only if none of these is evicted or without its time, and none fell into the anchor's second or no old match of that second is gone |
| WindowClock.OwnSecondDecides | src/mttsnap.c:157-217 | while the anchor's newest stamp is in the table: if and only if all its old matches still are, or no new match fell into its second |
| WindowClock.TakenForOldWitness | src/mttsnap.c:157-217 | one second, one match evicted and one come in: nothing is detected |
| WindowClock.DetectedMeansNew | src/mttsnap.c:157-217 | the line a detection reports is a match that came in after the anchor |
| Detection.DetectsWhatCameSince | src/mttsnap.c:114-217 | anchor and detection together, on two windows of one history: the line reported is never an old one, and the count is the number of matches in between if and only if none of these is evicted, without its time, or taken for an old match of the anchor's second |
| Correlation.Search | src/consapi.c:430-445 | finds the newest echo of the command, or the oldest in the wanted second |
| Correlation.ReadFacts | src/consapi.c:471-565 | the flags of one line: own source, issuer's source, no source, continuation, command, adoptable within a second of the echo (midnight included) |
| Correlation.Classify | src/consapi.c:462-589 | one turn of the walk takes, passes or ends as the tests of the source say, adoption of the target's source included; what the turns come to is told by the block of `ResponseBlock` |
| Correlation.WalkBlock | src/consapi.c:462-601 | the walk collects the lines of the block, answers with those from skip on that fit, and counts both all lines and those answered |
| Correlation.CorrelateOnce | src/consapi.c:360-607 | answer, line count and echo second are those of one block of one snapshot; a failed snapshot changes none of them |
| ResponseBlock.BlockAnswered | src/consapi.c:462-601 | the walk behind an echo answers exactly the lines of the block, said entry by entry without the walk: long enough and from the issuer, from the source adopted, from none and not command-shaped, or going on with the message whose number was shown last; up to the issuer's next command or, once a line is taken, the first line from elsewhere |
| ResponseBlock.BlockUnique | src/consapi.c:462-601 | an echo has one block only |
| ResponseBlock.CommandEnds | src/consapi.c:523-528 | nothing is answered from the issuer's next command on, if that does not continue a message |
| ResponseBlock.StrangerEnds | src/consapi.c:462-601 | nor from the first line of another source on, once a line is taken |
| ResponseBlock.TwoCommands | src/consapi.c:462-601 | of two commands of one source the first is answered with the replies between them, each of them and no more, whatever stands in front and behind |
| ResponseBlock.NumberRead | src/consapi.c:214-233 | a message shows a number if and only if its last word is one of up to eleven digits |
| ResponseBlock.ContinuedRead | src/consapi.c:462-601 | a continued line is answered without that number and the blanks around it |
| ResponseBlock.ShapeRead | src/consapi.c:346-358 | a message has the shape of a command if and only if its first word shows no digit |
| ResponseBlock.EchoFound | src/consapi.c:430-445 | without a second the newest echo is taken, with one the oldest that carries it; and its second is told, or -1 |
| Collect.Capture | src/consapi.c:622-652 | the looks go on until some lines are there and three more good looks have found as many, to a quiesce or to the end of the time, and never stop before; the three results come from one look, the last good one; the negative answers are the quiesce, -1, and no good look at all, -2 |
| Collect.SettlesAtThree | src/consapi.c:622-652 | the loop's counter reaches three exactly when the last four counts of good looks are the same and not zero |
| Collect.Cursor.Poll | src/collpoll.c:14-38 | a poll answers the block's lines from the cursor on and moves the cursor forward only; a poll that failed changes nothing |
| Collect.BlockExtends | src/consapi.c:462-601 | lines appended to the table only ever extend a block, at its end |
| Collect.BlockIgnoresFront | src/consapi.c:462-601 | entries evicted in front of the walk's start do not change the block |
| Collect.PollSeesBlock | src/consapi.c:430-445 | while the pinned echo is in the window, every poll sees exactly its block so far, whatever was evicted in front of it |
| Collect.AnswerExact | src/consapi.c:591-603 | the answer is the nonempty lines from the cursor on if and only if they fit the buffer, and it never passes the buffer |
| Collect.ExactlyOnce | src/consapi.c:1143-1156 | over any run of made and failed polls on a sliding table the answers concatenate to the nonempty lines of the block from the first cursor position on, none twice and none lost, and the cursor never moves back |
| Collect.NothingLostExact | src/consapi.c:1143-1156 | over any such run the answers are those lines if and only if every made poll has room for its share |
| Collect.PollAll | src/consapi.c:1103-1156 | the run poll by poll on the stored cursor sends what that theorem speaks of |
| Collect.IssueThenCollect | src/consapi.c:622-652 | the synchronous response and everything collected after it are together the whole block, when the echo captured is the first of its second |
| ConsoleLock.AtMostOneRecorded | src/consapi.c:117-150 | in every interleaving of any number of workers, abends anywhere, at most one session has the lock recorded, and only while its task holds the ENQ |
| ConsoleLock.BracketsNeverOverlap | src/consapi.c:822-903 | with a context to ENQ on, no two commands' response brackets are ever open at once |
| ConsoleLock.FinishedIsClear | src/router.c:163-174 | a request that has finished or been recovered leaves nothing recorded |
| ConsoleLock.RecordExact | src/router.c:444-458 | at settled moments the ENQ is held exactly by the session that has it recorded, and is free when all requests are over, if and only if no abend fell between an ENQ or DEQ and its record |
| ConsoleLock.LeakIsForEver | src/consapi.c:117-136 | after such an abend the ENQ stays held and no command is ever issued again |
| ConsoleLock.LeakWitness | src/consapi.c:125-135 | one run in which that happens |
| ConsoleLock.UnserializedWitness | src/consapi.c:117-124 | without a context two commands can be open at once: the lock is not unconditional |
| ConsoleLock.Session.Acquire | src/consapi.c:117-136 | the ENQ is this session's exactly when it is recorded here and the answer is 0; busy after fifty turns, interrupted by a quiesce, a no-op without a context |
| ConsoleLock.Session.Release | src/consapi.c:141-150 | gives back what is recorded and nothing else |
| ConsoleLock.Session.Cleanup | src/router.c:444-458 | the record is gone whether or not the protected DEQ got through |
| ConsoleLock.AcquireIsRun | src/consapi.c:117-136 | the call is a run of the state machine from the moment the worker enters: under any interleaving with other workers' steps it leaves the worker recorded and holding the ENQ, or after fifty turns or a quiesce at the tail without |
| ConsoleLock.ReleaseIsRun | src/consapi.c:141-150 | so is the release |
| ConsoleLock.CleanupIsRun | src/router.c:444-458 | and so is the recovery of an abended request |
| LazyStore.OneStoreForAll | src/mvsmfctx.c:43-76 | over every interleaving, abends included, any store a worker is given is initialised, is the same for all workers and is never replaced |
| LazyStore.AnsweredHaveStores | src/mvsmfctx.c:43-76 | whoever is answered is given a store, unless a request for storage was refused |
| LazyStore.AloneIsAnswered | src/mvsmfctx.c:43-76 | while the latch is free a worker left alone gets the store there is, or makes, initialises and publishes one |
| NtStore.Store.Set | src/ntstore.c:72-129 | stores into the name's own slot, else the first free or expired one, else the least recently accessed |
| NtStore.Store.Get | src/ntstore.c:132-172 | finds a live slot of the name, cuts the value to the caller's buffer and marks the access; what the mark is for is told over runs by `FoundFromUse` and `EvictsLeastUsed` |
| NtStore.Store.Del | src/ntstore.c:175-194 | frees the name's slot |
| NtStore.MapsIsFunction | src/ntstore.c:51-172 | the slots stand for a map: a name has one live value |
| NtStore.SetRefines | src/ntstore.c:72-129 | nt_set is a map update; it costs another live name exactly when all 32 slots are live and none has the name, and then only the least recently accessed |
| NtStore.SetKeepsValid | src/ntstore.c:72-129 | unique names and distinct accesses are kept, and the slot evicted is strictly the oldest |
| NtStore.GetRefines | src/ntstore.c:132-172 | nt_get answers from the map, finds a name if and only if it is bound, and changes no binding |
| NtStore.DelRefines | src/ntstore.c:175-194 | nt_del removes the name and nothing else |
| NtStore.Survives | src/ntstore.c:72-172 | a key accessed within its time to live is still found with its value, whatever operations came between, if fewer than 32 other names were accessed by them |
| NtStore.FoundFromUse | src/ntstore.c:72-172 | a key stored, or asked for and found, is found with its value at a later time if and only if that is less than 300 ticks later, whatever operations on fewer than 32 other names came between |
| NtStore.EvictsLeastUsed | src/ntstore.c:106-122 | over any run on a new store a set costs another live name exactly if all slots are live and none has its name, and then the name whose last set or successful get is the longest ago |
| NtStore.LateMisses | src/ntstore.c:51-172 | an operation whose clock is behind a slot misses it, and a set may overwrite it, if and only if a tick lies between, and not nearly the whole clock |
| NtStore.LateWitness | src/ntstore.c:145-156 | a key accessed at a tick, missed by the one who read the clock just before it |
| PathPatterns.PatternMatch | src/router.c:538-572 | the matching scanner decides the relation the theorems below are about |
| PathPatterns.ExtractVariables | src/router.c:574-635 | the extracting scanner, written separately, binds each variable to the text it takes, blanks trimmed |
| PathPatterns.MatchRebuilds | src/router.c:540-635 | a match is a substitution undone: extraction then yields delimiter-free values that put back into the pattern give the path again |
| PathPatterns.SubstitutionMatches | src/router.c:540-635 | every substitution of nonempty delimiter-free values matches and gives those values back |
| PathPatterns.MatchExact | src/router.c:538-572 | exactly the substitutions match |
| PathPatterns.ClashExcludes | src/router.c:538-572 | two patterns that come to irreconcilable text, read from the left, have no path in common |
| RouteTable.Router.AddRoute | src/router.c:68-85 | appends a route, and drops one beyond the hundredth |
| RouteTable.Router.Register | src/mvsmf.c:131-197 | the table holds the registrations in order |
| RouteTable.TextIsRegistered | src/mvsmf.c:131-197 | the pattern modelled for each resource prints as the path registered, segment by segment |
| RouteTable.Router.FindRoute | src/router.c:510-523 | the first route of that method whose pattern matches |
| RouteTable.Router.PathIsKnown | src/router.c:525-536 | true if and only if some route matches the path with any method |
| RouteTable.LookupFinds | src/router.c:510-523 | the lookup fails only if no route serves the request, and what it finds serves it |
| RouteTable.PlacesClash | src/mvsmf.c:131-197 | the patterns of different registered resources clash |
| RouteTable.AtMostOneRoute | src/mvsmf.c:131-197 | no request path and method is served by two different registered routes |
| RouteTable.OrderIrrelevant | src/mvsmf.c:131-197 | any arrangement of the registered routes, with repetitions, answers every request alike |
| RouteTable.RegisteredIsGenuine | src/mvsmf.c:131-197 | each registered route serves its resource with that resource's handler, and all fit the table |
| RouteTable.TableSpelled | src/mvsmf.c:131-197 | route by route the table is the method, path and handler registered, written out, with the two of a development build |
| Glob.MemberMatch | src/dsapi.c:1439-1469 | the iterative matcher terminates and, for names without an asterisk, answers what the recursive definition says |
| Glob.NewStarCoversOld | src/dsapi.c:1452-1462 | backtracking to an earlier star is never needed |
| Glob.ScanAgrees | src/dsapi.c:1439-1469 | loop and definition agree on every pattern and every name without an asterisk |
| Glob.MatcherExact | src/dsapi.c:1439-1469 | they agree on all patterns if and only if the name holds no asterisk |
| QueryKeys.MakeQueryKey | src/dsapi.c:1391-1425 | trims, cuts and folds the value, reports the cut, and yields no key for an empty one |
| QueryKeys.CutSelectsSame | src/dsapi.c:1499-1512 | an over-long start value, cut, selects the data sets the whole value would |
| QueryKeys.CutPaddedExact | src/dsapi.c:2533-2557 | for blank-padded member names the cut value selects the same names exactly if the value goes on with something above blanks |
| QueryKeys.AboveBlanks | src/dsapi.c:2533-2557 | which it does whenever it has no character below the blank |
| Paging.SortedAscends | src/dsapi.c:1471-1485 | an array sorted by dslist_cmp, holes last, ascends |
| Paging.ListDataSets | src/dsapi.c:1729-1833 | the items are the first of the names selected, and moreRows is set if and only if there are more |
| Paging.ScanBlock | src/dsapi.c:2481-2622 | the walk over one directory block: used length clamped, entries stepped by their halfwords of user data, end mark, skip, filter, count and stop one match past the page; what the entries are is told by `DirectoryBlocks` |
| Paging.ScanMembers | src/dsapi.c:2460-2636 | the walk over all blocks is the walk over the directory's names |
| DirectoryBlocks.BlockRead | src/dsapi.c:2481-2515 | of a block printed with its used length, entries of name, address, indicator and as many halfwords of user data as its low five bits say, and perhaps the end mark, exactly the names and the mark are read, whatever the data and whatever lies behind the used length |
| DirectoryBlocks.DirectoryRead | src/dsapi.c:2460-2636 | so the names of a directory of such blocks are those of its members in order, up to the end mark |
| Paging.ScanFindsPage | src/dsapi.c:2460-2810 | of an ascending directory the members written are the first matches at or after the start, and more than a page is seen exactly if there is more |
| Paging.NextPage | src/dsapi.c:1499-1512 | asked again from a name received, the rest from it on is selected |
| Paging.CollectsAll | src/dsapi.c:1729-1833 | for pages of two and more, asking again from the last name received enumerates every match once and in order |
| Paging.StuckAtOne | src/dsapi.c:1499-1512 | with pages of one the client is given the same page again, and more is announced with it if and only if there is more than one match |
| Paging.PagingExact | src/dsapi.c:1729-1833 | asking again from the last name received, while more is announced, collects every match once and in order if and only if pages are not of one name or there is at most one match; no limit at all included; for names that come back as their own keys |
| Paging.DataSetReturns | src/dsapi.c:1391-1425 | a data set name as received is its own key if and only if it fits, is not empty, ends in no blank and has no small letter |
| Paging.MemberReturns | src/dsapi.c:2717-2735 | a member name trimmed for the client is padded to itself again if and only if it is not blank and has no small letter |
| Paging.SmallLetterWitness | src/dsapi.c:2460-2636 | three members with small letters in pages of two: asked from the second, the third is lost |
| ReqBody.ParseLength | src/reqbody.c:26-62 | a Content-Length is exact although accumulation stops at 16 MB: too large if and only if it is, bad if and only if it is not blanks, digits, blanks |
| ReqBody.LengthExact | src/reqbody.c:26-62 | a header announces n if and only if it is blanks, n in decimal digits with any leading zeros, and blanks |
| ReqBody.Drain | src/reqbody.c:64-84 | discards n bytes in pieces, and tells when the client stops before |
| ReqBody.ReadExact | src/reqbody.c:86-105 | n bytes behind those held, or an error when the client stops before |
| ReqBody.ReadLength | src/reqbody.c:107-141 | one block of the announced size with exactly those bytes; without storage the body is drained; every block is returned or released |
| ReqBody.ReadChunked | src/reqbody.c:143-257 | under any allocator: the answer and the place the stream is read to are exactly told; only a complete body is returned, every buffer obtained is the one returned or released, out of storage is answered if and only if a request was refused, with one report; the stream is read to where decoding ends if and only if no size announced after the refusal overruns |
| ReqBody.DiscardStops | src/reqbody.c:175-239 | discarding with the count of bytes stopped where storage failed never ends in front of the place where decoding ends, and at it if and only if no announced size is too big for the bytes decoded while still fitting the stale count |
| ReqBody.ReadingStops | src/reqbody.c:152-257 | the same for a whole reading under any allocator; a reading nobody refused storage answers as the decoder, and on a body that is not oversized the ends always agree |
| ReqBody.LateWitness | src/reqbody.c:183-226 | fifteen bytes, a chunk of one byte and a size of FFFFFF: refused the first request, the reader passes the place where decoding stops |
| ReqBody.DecodeUndoesEncode | src/reqbody.c:143-257 | chunked decoding inverts the encoding of section 4.1 of RFC 7230 for every split into chunks with sizes of up to eight hex digits and a total below 16 MB |
| ReqBody.LargeRefused | src/reqbody.c:182-190 | the encoding of a body of 16 MB or more is refused as oversized, however it is cut |
| ReqBody.SizedSpelled | src/reqbody.c:165-185 | the sizes of that theorem are the numbers their digits spell, each in either case |
| ReqBody.HeaderExact | src/reqbody.c:165-180 | a size line is what stands in front of the first CR, of up to eight bytes, one byte behind the CR skipped with it; nine without a CR are none |
| ReqBody.NumberForms | src/reqbody.c:182-185 | and its number is that of blanks, a sign, 0x and digits as strtoul reads them in 32 bits, whatever follows |
| ReqBody.NoNumberRead | src/reqbody.c:182-185 | without a digit behind blanks and sign there is no number, and the line is malformed |
| ReqBody.ChunkedEqualsLength | src/reqbody.c:107-257 | a chunked body and the same bytes under a Content-Length are read to the same content |
| RecordLimits.TextFitsBuffer | src/reclimit.c:10-47 | a text line always fits the buffer sized for binary pieces, and has less room exactly for unspanned variable records |
| RecordLimits.LimitExact | src/reclimit.c:10-33 | a text line fits exactly if it and the descriptor words of its format, four bytes or eight if spanned, are no longer than the record length |
| RecordLimits.PieceExact | src/reclimit.c:35-47 | a binary piece leaves room for them in a spanned record only |
| Reclines.Recline.Put | src/reclines.c:33-78 | one byte through the automaton, in place in the caller's buffer |
| Reclines.Recline.Flush | src/reclines.c:80-94 | the pending line, if any, and nothing else changed |
| Reclines.FramingExact | src/reclines.c:35-94 | the records are the CR, LF or CRLF lines of the body, cut to the limit, an empty one as one blank, a trailing unterminated one kept; truncated if and only if some line was longer |
| Reclines.LinesRead | src/reclines.c:35-94 | lines put together with LF, CR or CRLF, any of them behind any line, are read apart again, the last one without an end included |
| Reclines.FedInPieces | src/reclines.c:35-94 | feeding can be interrupted anywhere |
| Reclines.RecordsFit | src/reclines.c:35-94 | no record and no pending line is longer than the limit |
| PutBody.BinaryRecords | src/dsapi.c:2176-2202 | the binary pieces put together are the body, and all but the last are full |
| PutBody.PaddedRecords | src/dsapi.c:2130-2202 | the records of a binary body: as many as its pieces, together the body and, if the format asks for it, the zeros that fill the last |
| PutBody.TextRecords | src/dsapi.c:2209-2239 | the records of a text body are its lines, as framed |
| PutBody.Target.Open | src/dsapi.c:1026-1041 | the target is opened once, and opening empties it |
| PutBody.Target.Finish | src/dsapi.c:1249-1261 | closing succeeds if and only if the last block could be written; if not, the end of the content is missing and success is not reported |
| PutBody.Upload.FeedByte | src/dsapi.c:2209-2229 | one text byte: a record is written exactly when one is completed |
| PutBody.Upload.Gather | src/dsapi.c:2178-2201 | one short read of a binary body never passes the piece, and a full piece is written |
| PutBody.Upload.Flush | src/dsapi.c:2130-2155 | what is pending becomes the last record, padded with zeros if the format asks for it |
| PutBody.Upload.PutChunked | src/dsapi.c:2102-2239 | success only on a body read whole and a target closed, which then holds its records: in text the lines of the body, truncated if and only if one was too long; a failure leaves the target untouched or with the beginning of those records; a target that cannot be opened, or a body that breaks off before its first record is complete, leaves it untouched, and one that breaks off later leaves, if no write failed, exactly the records completed by then; without failures, that of the close included, it succeeds |
| PutBody.Upload.PutLength | src/dsapi.c:2240-2333 | the same for a body under a Content-Length, of which no byte more is read: untouched by any failure before the first record |
| PutBody.ChunkedIsBody | src/dsapi.c:2102-2239 | however a body is cut into chunks the handlers read it whole, so the records depend only on the body |
| PutBody.LongSizeLine | src/dsapi.c:2102-2128 | nine bytes without a CR are a size line all the same, and without a number the end of the body |
| PutBody.CountedIsBody | src/dsapi.c:2240-2333 | a counted body is whole as soon as its bytes are there, and else broken off behind those that are |
| JobReq.SkipValue | src/jobreq.c:51-84 | skips a value, brackets and strings included |
| JobReq.ReadMember | src/jobreq.c:105-150 | one member: its key, its value and what it asks for |
| JobReq.Parse | src/jobreq.c:86-166 | the parser decides the function the theorems below are about |
| JobReq.ParsesPrinted | src/jobreq.c:86-166 | every well-formed object, printed with any blanks, escapes and nesting, is answered by the class of its last top-level request member |
| JobReq.RequestAnswered | src/jobreq.c:86-166 | of such an object the answer is 2 if the last member called "request" has the value "cancel", 3 for "hold", 4 for "release", 1 for any other value, a number or an object included, and 0 without such a member |
| JobReq.AcceptedWhole | src/jobreq.c:161-166 | an accepted text ends in a brace and blanks; every prefix that ends before the brace and every extension by anything but blanks is refused |
| JobReqLanguage.AcceptedExact | src/jobreq.c:35-166 | a text makes a request if and only if a grammar with looser values, brackets of either kind closed and commas inside them, writes it with a member called request; whichever way it is written, the last such member decides |
| JobReqLanguage.LastAskedSome | src/jobreq.c:86-166 | that answer is a request exactly if some member is called so |
| JobReqLanguage.EmptyValueTaken | src/jobreq.c:141-146 | a member without a value is accepted |
| Json.EscapeBytes | src/json.c:331-350 | stops only between whole escapes, at the first one there is no room for, and terminates within the buffer |
| Json.Builder.constructor | src/json.c:12-35 | an empty terminated text and a first element due |
| Json.Builder.EnsureCapacity | src/json.c:375-397 | room for the text and its NUL, or nothing changed |
| Json.Builder.Append | src/json.c:399-414 | the text grows by exactly the string, or not at all; size stays below capacity and the text terminated |
| Json.Builder.StartObject | src/json.c:51-70 | comma if one is due, brace, first element due |
| Json.Builder.EndObject | src/json.c:72-86 | brace, and a comma is due before the next |
| Json.Builder.StartArray | src/json.c:88-96 | bracket, the flag left alone |
| Json.Builder.EndArray | src/json.c:98-113 | bracket, and a comma is due before the next |
| Json.Builder.StartArrayKey | src/json.c:144-164 | comma if due, key and bracket, first element due |
| Json.Builder.AddRaw | src/json.c:118-139 | comma if due, key and the text as it is |
| Json.Builder.AddString | src/json.c:170-200 | comma if due, key and the escaped string or null, of any length |
| Json.Builder.AddElement | src/json.c:202-223 | comma if due and the escaped string or null |
| Json.Builder.AddBool | src/json.c:225-240 | comma if due, key and true or false |
| Json.Builder.AddNumber | src/json.c:242-276 | comma if due, the key as its 256-byte buffer leaves it, and the digits |
| Json.NumberKeyFits | src/json.c:257-263 | a number is added like any other value if and only if its key has at most 252 characters |
| JsonDocument.PrintsTree | src/json.c:51-240 | one flag does the work of a stack: the calls for any document leave exactly the text of its tree, translated for the client |
| JsonDocument.ReadsBack | src/json.c:51-240 | a reader of section 2 of RFC 8259, whose unquoted values are the numbers of section 6 and the three literals only, gets back the tree that was built, strings translated |
| JsonDocument.UnescapeUndoes | src/json.c:290-329 | escaping, with or without the non-ASCII escapes, translating and undoing the escapes of section 7 of RFC 8259 gives the translated bytes |
| JsonDocument.EscapeReadsBack | src/dsapi.c:2422-2423 | a userid or member name escaped into a buffer of any size is read by the client as the translation of the bytes taken, and all are taken unless the room left is less than the longest escape |
| JsonDocument.PrintedIsBare | src/json.c:225-276 | the numbers and truth values the builder writes are numbers and literals of sections 3 and 6 of RFC 8259 once translated |
| JsonDocument.CharReads | src/json.c:290-329 | each byte, whichever escape it gets under either setting of the flag, is read as itself |
| Json.CleanText | src/json.c:290-329 | the client gets no control character, and nothing beyond ASCII where that is asked for; every other byte but quote and backslash is left as it is |
| Json.DecimalRead | src/json.c:242-276 | the digits printed for a number, with its sign, are that number |
| SpoolAccess.BuildEntity | src/jwn.c:30-60 | the entity is built if and only if every component is accepted and it fits, else nothing is left in the buffer |
| SpoolAccess.EntityInjective | src/jwn.c:30-60 | two accepted jobs have the same entity only if they are the same, and every entity fits |
| SpoolAccess.Cache.Ask | src/jwn.c:156-196 | answers from the first entry of the key and level asked, else asks and remembers a usable answer while there is room |
| SpoolAccess.Transparent | src/jwn.c:156-196 | no request can tell the cache from asking every time, beyond the sixteenth key and after unusable answers included, if and only if usable answers depend on the first eight characters only |
| SpoolAccess.NeverMoreThanSixteen | src/jwn.c:187-195 | entries are only added, never more than sixteen, and an unusable answer adds none |
| SpoolAccess.Check | src/jwn.c:226-269 | with the cache the decision, reason, level, return code and entity length are those without it |
| SpoolAccess.ClosedByDefault | src/jwn.c:226-269 | a job is shown only to its owner or on a READ for its entity, and purged only by its owner or on an UPDATE |
| SpoolAccess.DecidedExactly | src/jwn.c:111-269 | decision and reason for all return codes: one's own job always; another's to see on a 0 for read, to purge on a 0 for both, seen but not purged on an 8 for update; hidden otherwise, with the reason |
| SpoolAccess.NobodyAsked | src/jwn.c:226-269 | without a user nothing is let through, and without anyone to ask nothing of another's |
| SpoolAccess.AskedExactly | src/jwn.c:111-147 | how often is asked, once or for a purge twice, and which return code is kept |
| SpoolAccess.RememberedExactly | src/jwn.c:156-196 | a usable answer is given again, without asking, to whatever agrees in its first eight characters, and to nothing else |
| SpoolAccess.ComponentSpelled | src/jwn.c:15-28 | a component is accepted exactly if it is one to eight capital letters, digits or national characters |
| Checksums.FoldByte | src/etag.c:25-36 | the eight shifts of one byte |
| Checksums.StepInjective | src/etag.c:25-36 | the CRC step is injective in the state for every byte and in the byte for every state |
| Checksums.Etag.Update | src/etag.c:65-94 | folds the four bytes of the length, the highest first, and then the record |
| Checksums.Etag.UpdateRaw | src/etag.c:96-120 | folds the bytes alone |
| Checksums.RawIgnoresChunks | src/etag.c:96-120 | the stamp of a byte stream is that of the whole, however it is cut into chunks |
| Checksums.PrintedInjective | src/etag.c:122-135 | the sixteen digits tell CRC and length: equal if and only if the stamps are |
| Checksums.ChangeSeen | src/etag.c:25-135 | two resources with the same record split that differ in one byte never have the same ETag |
| Checksums.RawChangeSeen | src/etag.c:96-135 | nor do two byte streams, however chunked |
| Checksums.RecordsTold | src/etag.c:76-91 | what is folded for two lists of records is the same only if they are: where the records are split counts as well as what they hold |
| Checksums.StepByTable | src/etag.c:25-36 | the eight shifts are one look-up: the state moves down by a byte and meets the entry of the byte shifted out |
| Checksums.TableBits | src/etag.c:20-36 | the eight entries of which all others are sums, in numbers |
| Checksums.CheckPrinted | src/etag.c:122-135 | the customary check of this CRC: the bytes 1 to 9 print as CBF43926 with a count of nine |
| Checksums.NumberRead | src/etag.c:132-133 | the digits of the count are the count |
| Checksums.TextSum | src/textsum.c:13-24 | the FNV-1a loop |
| Checksums.XorBit | src/textsum.c:19-21 | bit for bit, the exclusive or is one where the two differ |
| Checksums.SumSpelled | src/textsum.c:7-24 | the sum of nothing and one step of it, in numbers |
| Checksums.MixedInjective | src/textsum.c:13-24 | multiplying by the prime modulo 2^32 loses nothing: the step is injective in the state and in the byte |
| Checksums.TextChangeSeen | src/textsum.c:13-24 | two texts that differ in one byte never have the same sum |
| IfMatch.CheckEntry | src/etag.c:153-206 | one entry: the wildcard, or a value, weak or quoted or bare, that is the tag in either case with padding behind it; and the comma behind the entry |
| IfMatch.EtagMatches | src/etag.c:137-210 | the cursor loop answers yes if and only if some entry of the comma-separated list admits the tag |
| IfMatch.ListSplits | src/etag.c:137-210 | a list admits a tag exactly if one of the lists it is put together of does |
| IfMatch.OneEntry | src/etag.c:150-162 | padding in front of an entry does not count |
| IfMatch.EntryAdmits | src/etag.c:153-206 | an entry, weak or not, in quotes, half of them or none, with padding and anything behind a closing quote, admits exactly the tag with letters of either case |
| IfMatch.OneTag | src/etag.c:137-210 | a list of one tag admits exactly that tag, whichever way it is sent |
| IfMatch.StaleIsRefused | src/etag.c:122-210 | a write that sends back the tag it was given is let through if and only if the resource's stamp is still the one it was given for |
| JobCard.FindOperand | src/jobcard.c:14-62 | the first place at an operand boundary outside quotes where the keyword stands and an equals sign follows it, blanks aside |
| JobCard.StripOperand | src/jobcard.c:64-109 | removes until none is found |
| JobCard.StrippedOps | src/jobcard.c:64-109 | takes out exactly the operands so named and keeps the others in order, where no unquoted equals sign starts a word and no value removed holds a quoted blank or comma |
| JobCard.NoCredentialLeft | src/jobcard.c:134-168 | then no USER= or PASSWORD= is left and every other operand is, in order |
| JobCard.LateEqualWitness | src/jobcard.c:134-168 | an equals sign behind a blank: taking away the operand in front of it leaves a USER= |
| JobCard.ApostropheWitness | src/jobcard.c:134-168 | a quoted comma in a value: a USER= it hid is left |
| JobCard.StripCredentials | src/jobcard.c:134-168 | every line of the card is cleared, a continuation left without operands is blanked, and no other line is touched |
| CardRemoval.RemovedExact | src/jobcard.c:64-109 | one removal takes out the operand found, whole and alone, if and only if from its first comma or blank on, a quoted one, the operand has nothing but these |
| JobCard.Continue | src/jobcard.c:170-243 | the comma, the split at the last top-level comma, or the refusal |
| JobCard.ContinuationRejoins | src/jobcard.c:170-243 | both cards end in a comma within column 71 and put together are the line; the cut is at a comma outside quotes and parentheses with none behind it |
| CardOperands.LastOperandMoves | src/jobcard.c:200-243 | a line of 71 columns, written as operands with texts in quotes and lists in parentheses, nested to any depth, is cut in front of its last operand, which goes to a card of its own, if and only if that card has room for it; refused otherwise |
| CardOperands.OtherwiseExact | src/jobcard.c:186-212 | a shorter line gets its comma, a longer one is refused, and one that ends in a comma stays |
| CardField.GoesOnExact | src/jobcard.c:170-243 | when the comma keeps the card going: without a remark if and only if the quotes are closed, with one if and only if the card went on before; for both cards of a split as well |
| CardField.RemarkWitness | src/jobcard.c:199-207 | a JOB line with a remark: the comma goes behind it and the card ends there |
| CardCommas.StripRun | src/jobcard.c:64-109 | operands in a row, quoted ones included, lose those named, each with its comma, and nothing else changes |
| CardCommas.CommaSurvives | src/jobcard.c:64-109 | a line whose operands behind a blank, quoted ones included, all end in a comma keeps the continuation comma if and only if it keeps an operand |
| CardCommas.AloneLosesComma | src/jobcard.c:64-109 | a JOB line whose only operand is USER= loses the comma that continues it |
| CardCommas.QuotedKeepsComma | src/jobcard.c:64-109 | with an account and a quoted programmer's name in front of USER= the comma stays |
| SubmitCard.FindCard | src/jobsapi.c:2184-2329 | the first JOB statement and the lines that continue it: each but the last ends in a comma and is followed by a continuation, the last is not; what these are is told by the rows below |
| SubmitCard.CardRead | src/jobsapi.c:2275-2327 | a JOB statement and the continuations behind it are its card, at the end of the lines as well, if each but the last asks for more and what follows does not go on |
| SubmitCard.OperationRead | src/jobsapi.c:2184-2231 | a statement printed as a name of up to eight characters, blanks, an operation of up to four and anything behind it is read as that name and that operation |
| SubmitCard.JobExactly | src/jobsapi.c:2204-2221 | so it is a JOB statement if and only if the operation is JOB |
| SubmitCard.CommaRead | src/jobsapi.c:2278-2294 | a line asks for more exactly if its last character, spaces aside, is a comma |
| SubmitCard.ContinuationExact | src/jobsapi.c:2309-2322 | a continuation is two slashes and eight spaces, whatever follows |
| SubmitCard.CardUnique | src/jobsapi.c:2245-2329 | a JOB statement has one such range only |
| SubmitCard.RewriteCard | src/jobsapi.c:2493-2592 | the walk over the card: NOTIFY=&SYSUID replaced once, the last line continued, nothing outside the card touched |
| SubmitCard.CardedExact | src/jobsapi.c:2493-2592 | line by line: NOTIFY=&SYSUID is replaced in one line only, the first that has it; the last line alone is continued; all others stay; refused exactly if one of these two has no room; and the card names someone to notify exactly if one of its lines does |
| SubmitCard.NotifyInPlace | src/jobsapi.c:2384-2577 | the operand is replaced where it stands, the text in front untouched, and what becomes of the text behind is told for any text whatever |
| SubmitCard.RemainderExact | src/jobsapi.c:2525-2564 | the text behind the operand is kept, outer blanks aside, if and only if nothing or a comma follows the blanks; any other word is lost |
| SubmitCard.RemainderForms | src/jobsapi.c:2525-2564 | blanks alone vanish, a comma and what it begins stay, a word is dropped and what follows it becomes an operand |
| SubmitCard.RemarkWitness | src/jobsapi.c:2531-2546 | a remark of two words loses the first, and the second becomes an operand |
| SubmitCard.InjectedFits | src/jobsapi.c:2657-2679 | the card with the caller's credentials stays within column 71, its operands end at a blank, and it fits exactly up to a total length that userids and passwords of eight characters never reach |
| SubmitCard.InjectedSpelled | src/jobsapi.c:2657-2679 | the text of that card, written out, with the longer remark if it fits |
| SubmitCard.ClassExact | src/jobsapi.c:2468-2472 | the job class is the character behind the first CLASS= of the line, if there is one |
| SubmitCard.ShiftDown | src/jobsapi.c:2594-2599 | the in-place shift moves the lines behind the card down and keeps those in front |
| SubmitCard.Process | src/jobsapi.c:2426-2682 | on success the lines are those in front of the card, the rewritten card, the card its last operand moved to, if one did, the card with the credentials, and the lines behind it unchanged; lines with a JOB statement are never answered -1 when userid and password are there; without one nothing is touched |
| CardCredentials.NotifyLacks | src/jobsapi.c:2500-2577 | replacing NOTIFY=&SYSUID brings no operand to light, unless the quotes in what is replaced, the word dropped behind it included, are unpaired |
| CardCredentials.ContinuationLacks | src/jobcard.c:170-243 | continuing or splitting a line brings no operand to light on either card |
| CardCredentials.CardHasNoCredentials | src/jobsapi.c:2493-2592 | whatever credentials ordinary lines carried, the rewritten card and the one its last operand moved to carry none |
| CardCredentials.InjectedOps | src/jobsapi.c:2657-2679 | the operands of the added card are the caller's userid and password, and the notification if there was none |
| CardCredentials.OnlyCallersCredentials | src/jobsapi.c:2426-2682 | in the lines submitted the only credentials of the card are the caller's, on the line added behind it |
| CardCredentials.QuotedRemarkWitness | src/jobsapi.c:2531-2546 | a quoted remark behind NOTIFY=&SYSUID: the word dropped takes its quote along, and a USER= it hid becomes an operand |
| LogDates.GiveDates | src/consapi.c:1424-1442 | the walk from the newest line to the oldest gives each stamped line the day counted back to and each other line none |
| LogDates.DatesExact | src/consapi.c:1424-1442 | every stamped line gets its true time if and only if each day can be told from the next stamped line's: the same day, or the day before with less than half a day between |
| LogDates.OrderedDatesTrue | src/consapi.c:1424-1442 | so it does, over any number of midnights, when stamps are in order, none is later than the present, and neighbours are less than twelve hours apart |
| JclLines.Table.Grow | src/jclines.c:23-85 | on success the table has the capacity asked for, each slot refers to its own 81 bytes, old contents are kept and new ones cleared; on either failure it is valid at its old capacity over the live buffer |
| JclLines.FirstDoubling | src/jclines.c:37-43 | the new capacity is the first doubling that is enough, and growth is refused only if that one is beyond an int |
| JclLines.Double | src/jclines.c:37-43 | the doubling ends without overflow |
| JclLines.SlotsWithinInt | src/jclines.c:64-79 | the int product that places a slot holds for all slots if and only if there are at most 26,512,144, and up to there the two sizes requested do not wrap |

## Left out

- JobCard.NoCredentialLeft: stated one way, with one witness for each of its two conditions; there are lines that break a condition and are still cleared. What one removal does is told exactly (`CardRemoval.RemovedExact`).
- CardCredentials.CardHasNoCredentials: stated one way, for lines that meet the conditions above and whose quotes replaced with `NOTIFY=&SYSUID` are paired; other lines may be cleared too.
- NtStore.Survives: for clocks read in the order of the operations; what a clock read too early does is told for one operation (`NtStore.LateMisses`), not over a run.
- JclLines.Table.Grow: sizes are unbounded, so that the int product `i * 81` and the size products do not wrap; up to 26,512,144 slots they do not in C either (`JclLines.SlotsWithinInt`).
- PathPatterns.ExtractVariables: the blanks of a value are trimmed after it is bound, and the theorems speak of the value before that.
- SubmitCard.Process: on a card refused as too long the lines are left partly rewritten, as in the source, and nothing is said of them.
- The ENQ is taken not to be granted again to a task that holds it; a data set list's ENQ and the open files and JES handle of a session are recovered the same way and are not modelled.
- The code page tables are parameters: digits, letters and literals are assumed to translate to what they are; the case folding of a query is a function.
- Trace lines are texts of their effective length; the clamp of a line's length field to the entry is not modelled.
- Lines of a job, names and patterns are values rather than NUL-terminated buffers of fixed size; lines have at most 80 characters, so that the copies of 80 are whole.
- The record mode of a PUT, the translation of a text record and the descriptor word in front of a variable binary record.
- Sorting, `strtoul`, `snprintf`, `realloc` and other library functions are taken as specified; counters of matches and lines do not wrap.
- Timeouts of a detection, response keys, and the handlers' HTTP responses, authorization, catalog and spool access.
- The owner filter of a job list, and the request header that asks for an ETag.
- Middlewares, the development endpoints behind the test routes, and methods other than the four the router accepts.
