# Verified model of the call-forwarding database and its SIP text routines

The program answers two kinds of question about phone numbers: which routing
number (rn) does a phone number (pn) have, and which phone numbers have a
routing number in a given range. The forward answers come from a hash map; the
reverse answers come from an index of linked lists threaded through the row
array. Around it are loaders, a text dump, a verifier, an HTTP query language of
number prefixes, a second database of number blocks, and a SIP front end whose
parsers are hand-written character machines.

This project says in Dafny what each of these computes and proves it:

- `PhoneRows`, `SortAlgorithms`, `PhoneIndex`, `PhoneMapping`,
  `PhoneTruncation`: the database engine. `PhoneRows` is the simple meaning (a
  list of rows, filter, stable sort). `PhoneMapping` holds the classes that work
  in place: the builder, the index construction, the eight-slot buffered cursor.
  `PhoneIndex` proves that index and simple meaning agree, and `PhoneTruncation`
  says exactly when they do not.
- `ReverseQuery`: the prefix arithmetic and the query loop of the HTTP handler.
- `CsvText`, `Control`, `Decimal`: loading, dumping and verifying text files, on
  a model of the input stream with its end-of-file behaviour. `CsvLaws` says on
  lines and columns which texts load and verify.
- `Snapshots`: loads, commits, readers and memory reclamation in any
  interleaving, as a step system.
- `PhoneNumber`, `LergMapping`: reading punctuated numbers; two-level block lookup.
- `UriParser`, `UriUserSplit`, `UriNames`, `UriParams`, `UriTail`, `UriSpans`: the
  one-pass SIP URI parser, and what it makes of users, hosts, parameters and
  headers. `UriRefused`: what it refuses. `UriCompare`, `UriTexts`, `UriCase`:
  comparison of parsed URIs and of texts. `UriLaws`, `UriSeen`: when exactly two URIs
  match, and which piece of a text the comparison sees in which field.
- `HeaderSpec`, `HeaderParser`, `HeaderLaws`: incremental header parsing, the lists it
  builds, and what a call that asks for some types achieves.
- `IpAddr`, `Ip6Grammar`: printing and reading addresses. `StrCommon`, `StrLaws`:
  escaping and unescaping, and which characters they change. `Chars`: letter case, hexadecimal digits, splitting of texts.

A method stands for a loop or an update in place of the program and is proved
against a function; what the program promises is proved about that function.
`Valid`, `Built` and `Loading` are the invariants that every method of a class keeps.

## What the proofs found

- `PhoneList.phone` has 34 bits while the map holds 64. A query with bounds below
  2^34 is answered correctly exactly when all rows stored in its range fit
  (`PhoneTruncation.RangeExactIffItsRowsFit`). All such queries are answered
  correctly exactly when every row fits or is stored as 2^34 - 1, which no such
  range contains (`PhoneTruncation.AllRangesExactIff`). The bounds are cut as
  well: asked for everything below 2^34, the index shows nothing
  (`PhoneTruncation.WideBoundExample`); `PhoneTruncation.BoundsSafeIff` says which
  bounds are safe. A full visit, and with it the dump, is right exactly when
  all keys fit, so that dump-then-load is the identity exactly then
  (`Control.DumpThenLoad`). Ten-digit numbers always fit.
- A file whose last line has no line feed is loaded and verified as if it had one
  if that line's number is a multiple of 10000, and refused otherwise
  (`CsvText.UnterminatedFile`, `CsvText.MissingLineFeed`): looking ahead on a stream
  that has already ended sets the failure bit, which both loops turn into an
  exception.
- The verifier accepts up to 99 differing rows. It also accepts a file that
  repeats one row in place of another (`CsvText.RepeatedRowPasses`), and one that
  pairs an absent key with the "not found" value (`CsvText.AbsentKeyPasses`).
  `CsvText.VerifyMeansEqual` says when its verdict is right.
- `parse_uri` refuses a user part that contains, behind a semicolon, one of
  the names pn-prid, pn-param and pn-purr without "=", although such a user is
  legal. `UriUserSplit.UserHostSplit` proves that this is the only refusal.
- `parse_uri` sets a bit of every scheme character to ignore case, and with it takes
  the control character 26 for the colon: a text that begins with "sip" and this
  character is a SIP URI (`UriRefused.SchemeExactly`).
- `str2ip6` refuses "::" standing for exactly one group at the start or at the
  end of the address: the text then has eight colons
  (`IpAddr.Parse6Compressed`).
- `str2ip` accepts, besides what `ip_addr2a` prints, exactly the texts that lack
  a last group of 0 behind the third dot (`IpAddr.Parse4Exactly`).
- `unescape_user` takes the missing digits of an escape cut off at the end of the
  text from the memory behind it. The result depends on that memory exactly for
  the texts that decode up to such an escape, if it has no digit yet or one of the
  digits 2 to 7 (`StrCommon.MemoryMattersIff`); a text such as "%%" is refused
  whatever follows (`StrCommon.CutOffExamples`). The round trip never depends on
  it.
- A parameter whose name is the mere beginning of a well-known one, such as "t" or
  "us", loses its first "=": of "t=5" all is recorded as a name, of "t=a=b" the
  name "t=a" and the value "b" (`UriTail.SwallowedExamples`). Alone, such a name is
  recorded in front of ";" and "?" and dropped at the end of the text; "r" and
  "pn" are always dropped. A "=" that follows a ":" in a value moves the split, too.
  An unknown parameter with a value is recorded as its name and its value exactly
  if neither happens (`UriTail.UnknownParamIff`).
- At the end of the text a bare beginning of "maddr" from "ma" on, "maddr=" and a
  push name with "=" but no value are refused (`UriTail.UserHostParams`).
- Two URI texts that differ in letter case only are taken for a match without
  looking at their pieces. This is right exactly if both parse and their decoded
  users, passwords and ports are the same with regard to case
  (`UriCase.ShortcutRightIff`): "sip:A@h" and "sip:a@h" match as texts and differ
  as pieces, "sip:%4a@h" and "sip:%4A@h" match both ways. Texts with a NUL are only
  looked at up to it (`UriCase.NulHidesTheRest`).
- `str2ip6` overlooks a single colon at the end, takes an empty piece at the start
  for a zero, and counts only the last four digits of a long group
  (`Ip6Grammar.Parse6Exactly`, `Ip6Grammar.LastColonAlone`,
  `Ip6Grammar.FiveDigitGroup`).

## Model

| member | source | states |
|---|---|---|
| PhoneRows.SortByRnIsStableSort | callfwd/PhoneMapping.cpp:252-266 | The reference order is a permutation, is ordered by rn, and keeps rows with equal rn in insertion order. |
| PhoneRows.InverseRowsExact | callfwd/PhoneMapping.cpp:134-150 | The reference answer to a range contains each row with from ≤ rn < to as often as it was loaded and no other row, ordered by rn. |
| PhoneRows.InverseRowsSplit | callfwd/PhoneMapping.cpp:134-150 | For a ≤ b ≤ c the answer to [a,b) followed by that to [b,c) is the answer to [a,c). |
| PhoneRows.LookupFinds | callfwd/PhoneMapping.cpp:83-89 | With distinct keys, looking up a loaded key gives the rn of its row. |
| PhoneRows.LookupMisses | callfwd/PhoneMapping.cpp:83-89 | An absent key gives NONE. |
| SortAlgorithms.StableSort | callfwd/PhoneMapping.cpp:256-266 | Sorting by (phone, next) gives an ordered permutation of its input. |
| SortAlgorithms.SortedIsUnique | callfwd/PhoneMapping.cpp:256-266 | Any two ordered arrangements of the same entries are equal, so the result does not depend on the sorting algorithm. |
| SortAlgorithms.LowerBound | callfwd/PhoneMapping.cpp:138-142 | The position found separates the entries below the key from those that reach it. |
| SortAlgorithms.UniqueKeepsHeads | callfwd/PhoneMapping.cpp:272-277 | Dropping repeats of a sorted column leaves strictly ascending phones, exactly the distinct ones, each with the first entry of its run. |
| PhoneIndex.ScanOrderVisitsEveryRowOnce | callfwd/PhoneMapping.cpp:249-266 | The sorted rn column names every row number exactly once, each with the stored half of that row's rn. |
| PhoneIndex.ThreadedChain | callfwd/PhoneMapping.cpp:268-270 | Following `next` from any rank to any later rank walks exactly the rows between them, ending in MAXROWS behind the last. |
| PhoneIndex.DistinctEnds | callfwd/PhoneMapping.cpp:143-149 | The two ends of a walk are equal exactly when the walk is empty; the sentinel never collides with a row number. |
| PhoneIndex.HeadIsFirstOfRun | callfwd/PhoneMapping.cpp:141-144 | Binary search in the deduplicated index yields the row at the rank of the searched rn in the full order. |
| PhoneIndex.ScanOrderSortsRows | callfwd/PhoneMapping.cpp:249-266 | If all numbers fit, reading the rows in index order is the stable sort by rn. |
| PhoneIndex.SliceAnswersInverse | callfwd/PhoneMapping.cpp:134-150 | If all numbers fit, what the index shows for any range is the filtered, stably sorted list of rows. |
| PhoneTruncation.RangeExactIffItsRowsFit | callfwd/PhoneMapping.cpp:134-150 | A query with bounds below 2^34 is answered correctly if and only if all rows stored in its range have numbers that fit 34 bits. |
| PhoneTruncation.MisfitSpoilsItsRange | callfwd/PhoneMapping.cpp:220-230 | A row with a number that does not fit makes the answer to every range that contains its stored rn wrong. |
| PhoneTruncation.AllRangesExactIff | callfwd/PhoneMapping.cpp:25-29 | All queries with bounds below 2^34 are answered correctly if and only if each row fits or is stored with rn 2^34 - 1. |
| PhoneTruncation.HiddenMisfitExample | callfwd/PhoneMapping.cpp:25-29 | A row with rn 2^35 - 1 does not fit, and yet no such query is answered wrongly. |
| PhoneTruncation.BoundsSafeIff | callfwd/PhoneMapping.cpp:138-142 | A pair of bounds is answered correctly by every database of fitting numbers if and only if both are below 2^34, or the lower is not and the cut range is empty. |
| PhoneTruncation.WideBoundExample | callfwd/PhoneMapping.cpp:141-142 | Counterexample: the range from 0 to 2^34 is answered with nothing. |
| PhoneTruncation.VisitExactIffKeysFit | callfwd/PhoneMapping.cpp:162-190 | Visiting all rows shows the loaded rows if and only if all keys fit 34 bits. |
| PhoneTruncation.WideKeyExample | callfwd/PhoneMapping.cpp:25-29 | A key of 2^34 + 5 is shown as 5, with no rn. |
| PhoneMapping.Data.Build | callfwd/PhoneMapping.cpp:249-278 | Building turns any loaded columns into a built index (threaded chain in scan order, heads of runs) over unchanged rows and map. |
| PhoneMapping.Data.Wire | callfwd/PhoneMapping.cpp:268-270 | The wiring loop threads the whole column in the order of the index and keeps the phones. |
| PhoneMapping.Data.GetRNs | callfwd/PhoneMapping.cpp:71-95 | For every count and every positive chunk size each slot below the count gets the lookup of its key, and no other slot changes. |
| PhoneMapping.Data.FindWalk | callfwd/PhoneMapping.cpp:134-150 | The two ends found delimit a walk over exactly the range's rows, and they differ exactly if there is one. |
| PhoneMapping.Cursor.RefillByLink | callfwd/PhoneMapping.cpp:180-184 | Refilling moves the next rows of the chain into the buffer, up to eight, and loses or repeats none. |
| PhoneMapping.Cursor.RefillByRow | callfwd/PhoneMapping.cpp:186-190 | The same for the visitor of all rows. |
| PhoneMapping.Cursor.Prefetch | callfwd/PhoneMapping.cpp:192-196 | Prefetching leaves what remains to be shown unchanged; the cursor has a row unless nothing remains. |
| PhoneMapping.Cursor.Advance | callfwd/PhoneMapping.cpp:198-202 | Advancing drops exactly the first remaining row, so that the buffer cannot be observed. |
| PhoneMapping.Builder.AddRow | callfwd/PhoneMapping.cpp:220-230 | A row is refused exactly for a duplicate key or a full column, with nothing changed, and is appended otherwise. |
| PhoneMapping.Builder.Release | callfwd/PhoneMapping.cpp:280-295 | Building hands out the built database with the loaded rows and leaves an empty builder. |
| PhoneMapping.Mapping.InverseRNs | callfwd/PhoneMapping.cpp:152-160 | The output that a query opens is the index's answer; for bounds below 2^34 it is the filtered and sorted rows if and only if the rows stored in the range fit. |
| PhoneMapping.Mapping.VisitRows | callfwd/PhoneMapping.cpp:162-178 | The output it opens is all rows in insertion order, as stored. |
| PhoneMapping.Mapping.HasRow | callfwd/PhoneMapping.cpp:328-330 | True exactly if output remains. |
| PhoneMapping.Mapping.CurrentPN | callfwd/PhoneMapping.cpp:332-334 | The pn of the first remaining row. |
| PhoneMapping.Mapping.CurrentRN | callfwd/PhoneMapping.cpp:336-338 | The rn of the first remaining row. |
| PhoneMapping.Mapping.Advance | callfwd/PhoneMapping.cpp:340-345 | The remaining output loses its first row; the cursor is dropped when none is left. |
| PhoneMapping.Mapping.GetRN | callfwd/PhoneMapping.cpp:101-105 | A single lookup: the rn of the row with this key, else NONE. |
| ReverseQuery.OnQueryParam | callfwd/ApiHandler.cpp:529-548 | A value gives a range exactly if it has at most ten characters and is a number; nothing overflows and both ends fit 34 bits; the range holds exactly the ten-digit numbers whose text starts with the value's digits. |
| ReverseQuery.DigitsAreTheirPrefix | callfwd/ApiHandler.cpp:533-539 | A value of one to ten digits is read as itself: the prefix matched is the value's own text. |
| ReverseQuery.PrefixInterval | callfwd/ApiHandler.cpp:541-546 | Scaling n and n + 1 by powers of ten bounds exactly the zero-padded numbers whose text starts with n. |
| ReverseQuery.PrefixSplitsByDigit | callfwd/ApiHandler.cpp:541-546 | The answer for a prefix shorter than ten digits is the answers for its ten extensions by a digit, joined in order. |
| ReverseQuery.PrefixAnswerExact | callfwd/ApiHandler.cpp:529-548 | The answer for a prefix contains each ten-digit row exactly if the text of its rn starts with it. |
| ReverseQuery.SendBody | callfwd/ApiHandler.cpp:513-527 | Driving the cursor to its end sends for every row of the output, in order, the line with its decimal pn in front of its decimal rn, bare or as the fields of a JSON object, whatever the flushing does, and leaves no row. |
| ReverseQuery.PrefixReply | callfwd/ApiHandler.cpp:499-504 | A database whose numbers fit replies to the range of a prefix with exactly the rows of that prefix, in the reference order. |
| ReverseQuery.OnRequest | callfwd/ApiHandler.cpp:494-510 | For any two built databases the body is one line for every row of the replies, for each range the US reply in front of the Canadian one: pn, comma, rn in plain text, from which the rows can be read back, and the object with pn and rn, between brackets, in JSON. |
| ReverseQuery.LinesAreListing | callfwd/ApiHandler.cpp:513-521 | Split at line feeds, the lines sent are the literal texts with the decimal pn and rn of each row in order. |
| ReverseQuery.LinesReadBack | callfwd/ApiHandler.cpp:518-520 | The plain lines read back as a file of exactly these rows. |
| ReverseQuery.RepliesJoin | callfwd/ApiHandler.cpp:503-508 | The rows for several ranges are those for the first ranges followed by those for the others. |
| ReverseQuery.RepliesToOne | callfwd/ApiHandler.cpp:503-508 | The rows for one range are those of the US reply followed by those of the Canadian reply. |
| CsvText.InStream.Peek | callfwd/PhoneMapping.cpp:237-238 | Looking ahead ends the stream at its end, and fails on a stream that has ended. |
| CsvText.InStream.GetLine | callfwd/PhoneMapping.cpp:239 | Reads up to the next line feed, or up to the end and then the stream has ended. |
| CsvText.LoadDump | callfwd/Control.cpp:626-634 | Loading the dump of a list of rows gives those rows if and only if their keys are distinct and they do not exceed the row limit. |
| CsvText.VerifyVerdict | callfwd/Control.cpp:570-609 | The verifier accepts exactly if the whole file can be read, has as many rows as the database and fewer than 100 rows that differ. |
| CsvText.SameRowsIff | callfwd/Control.cpp:584-606 | With equal counts, file and database have the same rows if and only if no row differs, the file's keys are distinct and none of them is absent. |
| CsvText.VerifyMeansEqual | callfwd/Control.cpp:558-610 | Acceptance with no mismatch, no repeated and no absent key holds if and only if the file has the database's rows, each once; without mismatches and repeated keys the verdict is right if and only if equal counts leave no key absent. |
| CsvText.AbsentKeyPasses | callfwd/Control.cpp:584-585 | Counterexample with an absent key: a file that pairs it with the not-found value is accepted. |
| CsvText.VerifyAfterLoad | callfwd/Control.cpp:134-178 | Every file that loads passes verification against the database it loaded. |
| CsvText.RepeatedRowPasses | callfwd/Control.cpp:603-609 | Counterexample without distinct keys: a file that repeats one row in place of another is accepted. |
| CsvText.UnterminatedFile | callfwd/PhoneMapping.cpp:236-240 | A text is loaded and verified like the same text with its last line ended, if its last line is ended or has a number that is a multiple of 10000, and is refused otherwise. |
| CsvText.MissingLineFeed | callfwd/Control.cpp:158-169 | Counterexample: one good row without line feed is refused, and accepted with it. |
| CsvLaws.ColumnsIff | callfwd/PhoneMapping.cpp:241 | A line gives a list of numbers if and only if it is these numbers' texts with commas between; a piece that is no number spoils it. |
| CsvLaws.LoadExactly | callfwd/PhoneMapping.cpp:220-247 | A text of ended lines loads as a list of rows if and only if each line is exactly two columns with the row's numbers, no key occurs twice and the rows are at most 2^30 - 1. |
| CsvLaws.LinesOf | callfwd/PhoneMapping.cpp:239 | Every text that ends in a line feed consists of such lines. |
| CsvLaws.LastLineExactly | callfwd/Control.cpp:158-169 | With a last line that is not ended, a text loads and verifies as if it were if the line's number is a multiple of 10000, and not at all otherwise. |
| CsvLaws.FileExactly | callfwd/Control.cpp:581-584 | The rows of a file to verify are the first two numbers of each line; lines must have two or more columns, all of them numbers. |
| CsvLaws.MismatchesCount | callfwd/Control.cpp:584-590 | The difference count is the number of lines whose key the database maps to another number. |
| CsvLaws.VerifyExactly | callfwd/Control.cpp:558-610 | A text of ended lines verifies if and only if each line is readable, there are as many as rows, and fewer than 100 differ: 99 may, 100 may not. |
| CsvLaws.DumpLines | callfwd/Control.cpp:626-634 | A dump has for each row the line of its decimal pn, a comma, its decimal rn and a carriage return. |
| Decimal.DigitsLaw | callfwd/Control.cpp:628 | The decimal text of a number is that of its front digits followed by its last digit, without leading zeros. |
| Control.AddCSVLine | callfwd/PhoneMapping.cpp:239-245 | One line is consumed, and a row is added exactly if it has two numbers and the builder takes it. |
| Control.FromCSV | callfwd/PhoneMapping.cpp:232-247 | One batch of 10000 lines fails, finishes or continues exactly as loading the whole text says. |
| Control.Globals.LoadMappingFile | callfwd/Control.cpp:134-178 | A text that loads replaces the mapping of its country by a built database with its rows and leaves the other country alone; a text that does not load changes nothing. |
| Control.Globals.VerifyMappingFile | callfwd/Control.cpp:558-610 | The result is the verdict on the text against the published database, whatever the batching. |
| Control.VerifyBatch | callfwd/Control.cpp:574-593 | One batch decides, or carries on with its counters, as the verdict on the whole text does. |
| Control.DumpRows | callfwd/Control.cpp:626-634 | The nested loop over the cursor writes the dump of all visited rows. |
| Control.DumpThenLoad | callfwd/Control.cpp:612-644 | Loading a database's dump gives back its rows, in order, if and only if all its keys fit 34 bits. |
| Snapshots.StepKeepsInv | callfwd/PhoneMapping.cpp:287-310 | Every step keeps the invariant: what is published is not retired, and every reader's database is in place and unchanged. |
| Snapshots.RunKeepsInv | callfwd/PhoneMapping.cpp:287-310 | The invariant holds after every run. |
| Snapshots.ReadersAreIsolated | callfwd/PhoneMapping.cpp:287-310 | In every interleaving no reader follows a pointer to reclaimed memory, and all it has output for its query is the beginning of the answer of one database, which some submitted file loads to. |
| Snapshots.ReaderKeepsDatabase | callfwd/PhoneMapping.cpp:306-310 | Until it is released a reader stays with the database it protected, whatever is committed or reclaimed. |
| Snapshots.ProtectTakesPublished | callfwd/Control.cpp:51-52 | The database protected is the one published for that country at that moment. |
| Snapshots.AvailabilityIsStable | callfwd/Control.cpp:63-65 | A country with a published database has one after every further run. |
| Snapshots.PublishedChangesByCommit | callfwd/Control.cpp:144-177 | What is published for a country changes only by a commit for that country, to the rows of a file that loads; what a commit does is stated by `Snapshots.CommitPublishes`. |
| Snapshots.CommitPublishes | callfwd/PhoneMapping.cpp:287-298 | A commit publishes for its country exactly the rows of its file, retires the database it replaces, and leaves the other country, all other databases and all readers alone. |
| Snapshots.LoadThenRead | callfwd/Control.cpp:134-178 | From every state of the invariant: once a good file is loaded and committed, a reader that protects its country and queries a range can read on to exactly the index's answer on that file's rows. |
| Snapshots.QueryStarts | callfwd/PhoneMapping.cpp:152-160 | A query makes its reader start over with exactly the bounds given and touches nothing else. |
| Snapshots.ShowAddsOne | callfwd/PhoneMapping.cpp:340-345 | A step of a reader outputs exactly the next row of the answer of its database. |
| Snapshots.ShowEnabledIff | callfwd/PhoneMapping.cpp:328-330 | A reader can output a row exactly if its answer has one left. |
| Snapshots.ReaderReachesEnd | callfwd/PhoneMapping.cpp:328-345 | In every state of the invariant a reader can go on to the whole answer of its database. |
| Snapshots.BadFileFails | callfwd/Control.cpp:166-169 | A file that does not load cannot be committed, and its failure leaves everything published. |
| Snapshots.ReleaseFrees | callfwd/PhoneMapping.cpp:306-314 | A release ends one reader only; a retired database no other reader keeps can be reclaimed then. |
| Snapshots.ReclaimIff | callfwd/PhoneMapping.cpp:294-296 | A retired database is reclaimed exactly when no reader protects it. |
| LergMapping.ContainsByKey | callfwd/LergMapping.cpp:86-95 | Dividing a number by 1000 or 10000 gives a block's key exactly if the block contains the number. |
| LergMapping.KeysAreInjective | callfwd/LergMapping.cpp:167-191 | Two blocks of the same size with the same key have the same area code, exchange and thousands digit. |
| LergMapping.LergTables.AddRow | callfwd/LergMapping.cpp:162-216 | A row is refused exactly for a key loaded before with the same block size or a full column; else both tables keep holding exactly the loaded rows, with the texts that `LergMapping.LookupTexts` states. |
| LergMapping.LergTables.GetLergs | callfwd/LergMapping.cpp:74-133 | For every count and positive chunk size each slot gets its two-level lookup, and no slot behind the count changes. |
| LergMapping.LergTables.SmallestBlockWins | callfwd/LergMapping.cpp:92-127 | A lookup gives the 7-digit block that contains the number, else its 6-digit block, and key 0 exactly if no loaded block contains it. |
| LergMapping.LookupTexts | callfwd/LergMapping.cpp:92-127 | The key and each of the seven texts of a lookup are those of the row found, each in its place, a blank for an empty text of a 7-digit block; if no block is found the key is 0 and the slot keeps its texts. |
| LergMapping.StoredAsLoaded | callfwd/LergMapping.cpp:175-208 | The same for what is stored of a row. |
| LergMapping.ContainsByDigits | callfwd/LergMapping.cpp:86-95 | A block contains exactly the numbers that begin with its area code, exchange and thousands digit. |
| PhoneNumber.PunctuatedNumberIsRead | callfwd/PhoneMapping.cpp:347-372 | Any text of at most 30 characters made of ten digits, optionally behind 1 or +1, with punctuation anywhere, is read as those digits. |
| PhoneNumber.FromStringExactly | callfwd/PhoneMapping.cpp:347-372 | A text is read as a number if and only if, without the white space around it, it has at most 30 characters and is, save for punctuation, ten characters that read as a number, alone or behind 1 or +1; the number is theirs. |
| PhoneNumber.TrimmedExactly | callfwd/PhoneMapping.cpp:351 | Trimming takes all white space from both ends and nothing else. |
| PhoneNumber.WrongCountRefused | callfwd/PhoneMapping.cpp:360-367 | Any other count of digits is refused, eleven save for those behind a 1. |
| PhoneNumber.NumbersFit | callfwd/PhoneMapping.cpp:366-371 | Whatever the text, the result is NONE or below 10^10, and so fits 34 bits. |
| UriCompare.MatchParams | lib/osips_parser/parse_uri.c:1800-1838 | The greedy double loop accepts exactly if the k-th occurrence of each name in one list has the value of the k-th in the other, wherever both exist. |
| UriCompare.ParamsAgreeSymmetric | lib/osips_parser/parse_uri.c:1794-1842 | That agreement of parameter lists is symmetric. |
| UriCompare.CompareParsed | lib/osips_parser/parse_uri.c:1766-1847 | On parsed URIs the field-by-field comparison gives the verdict that `UriLaws.MatchExactly` and `UriLaws.KindFirst` state. |
| UriCompare.CompareUris | lib/osips_parser/parse_uri.c:1707-1848 | The verdict for every combination of raw and parsed forms, with any parser. |
| UriCompare.CompareIsSymmetric | lib/osips_parser/parse_uri.c:1707-1848 | Exchanging the two URIs never changes the verdict. |
| UriCompare.CompareIsReflexive | lib/osips_parser/parse_uri.c:1766-1847 | A parsed URI matches itself if and only if its user can be decoded; else the verdict is an error. |
| UriLaws.MatchExactly | lib/osips_parser/parse_uri.c:1766-1847 | Two URIs of one kind whose users decode match if and only if decoded users, passwords and ports are equal, hosts, headers and the values of transport, ttl, user, maddr, method, lr and r2 are the same letter by letter but for case, and their parameters agree; else they differ. |
| UriLaws.OneFieldDecides | lib/osips_parser/parse_uri.c:1782-1846 | Replacing one field by another text: the two match exactly if the texts are equal, for password and port, or the same but for case, for every other field. |
| UriLaws.KindAndUserDecide | lib/osips_parser/parse_uri.c:1766-1781 | Another kind never matches; another user matches exactly if it decodes to the same text. |
| UriLaws.KindFirst | lib/osips_parser/parse_uri.c:1766-1778 | URIs of different kinds differ whatever their users; with one kind, a user that does not decode is an error. |
| UriLaws.ParamsAgreeExactly | lib/osips_parser/parse_uri.c:1794-1842 | Parameter lists agree if and only if wherever a name stands in both behind equally many occurrences of that name, the values are the same. |
| UriLaws.VerdictSources | lib/osips_parser/parse_uri.c:1721-1764 | A side with neither text nor parsed form is an error, texts that look the same match, and else a parsed form counts before its text. |
| UriLaws.SameTextsMatch | lib/osips_parser/parse_uri.c:1727-1737 | Texts that look the same match whatever their parsed forms. |
| UriLaws.SameLetter | lib/osips_parser/parse_uri.c:1731-1732 | Comparing without case takes two characters for the same exactly if they are equal or one is the capital of the other. |
| UriSeen.NamedValueSeen | lib/osips_parser/parse_uri.c:1783-1846 | A well-known parameter of a text with its value reaches the comparison in the field of its own name and in no other, next to the text's host and headers. |
| UriSeen.UnknownSeen | lib/osips_parser/parse_uri.c:1794-1842 | An unknown parameter of a text reaches the comparison as its name and value. |
| UriParser.ParseUri | lib/osips_parser/parse_uri.c:307-1592 | The character loop runs the state machine whose meaning the rows below give. |
| UriRefused.SchemeExactly | lib/osips_parser/parse_uri.c:658-679 | Exactly the texts of five or more characters that begin with sip, sips, tel or urn in any letter case, behind which a colon stands, for urn also "service:" or "nena:service:", are taken for a scheme; behind sip and tel the control character 26 passes for the colon. |
| UriRefused.SchemeNeeded | lib/osips_parser/parse_uri.c:658-679 | No other text is parsed. |
| UriRefused.SecondAtRefused | lib/osips_parser/parse_uri.c:377-399 | Behind the "@" of a user a second "@" is refused wherever it stands. |
| UriRefused.EmptyHostRefused | lib/osips_parser/parse_uri.c:815-829 | A host that is empty or begins with ":", ";", "?", "&" or "@" is refused. |
| UriRefused.BehindHostRefused | lib/osips_parser/parse_uri.c:401-841 | Behind a host "&" and "@" are refused, and behind the closing bracket of an address any character other than ":", ";" and "?". |
| UriRefused.OpenBracketRefused | lib/osips_parser/parse_uri.c:842-854 | A bracket that is never closed is refused. |
| UriRefused.PortRefused | lib/osips_parser/parse_uri.c:855-887 | A port in which a character other than a digit, ";" or "?" follows any digits is refused, whatever comes behind. |
| UriRefused.HeadersRefused | lib/osips_parser/parse_uri.c:1296-1332 | Headers with a ";" are refused. |
| UriUserSplit.TextInParam | lib/osips_parser/parse_uri.c:448-560 | In every parameter state a character that does not end the parameter changes nothing that a later "@" needs, and is refused exactly behind a push parameter name if it is not "=". |
| UriUserSplit.ReadUser | lib/osips_parser/parse_uri.c:679-931 | After any beginning of a user, semicolons and question marks included, the machine is in the state that this beginning determines, with the user's start still known. |
| UriUserSplit.UserHostSplit | lib/osips_parser/parse_uri.c:377-399 | For scheme, user, optional password, host and optional port, the parse yields exactly these parts, port number included, and leaves every other field empty, whatever was recorded before the "@"; it is refused if and only if a push parameter name in the user misses its "=". |
| UriUserSplit.HostWithoutUser | lib/osips_parser/parse_uri.c:700-757 | Without "@" the same characters are host and port, also where the machine had taken them for user and password. |
| UriUserSplit.BarePushNameIsRefused | lib/osips_parser/parse_uri.c:1252-1283 | Counterexample family: a user with a bare push parameter name, in any letter case, is refused. |
| UriSpans.ParsedStaysInside | lib/osips_parser/parse_uri.c:307-1592 | On every text that parses, all recorded pieces lie inside the text, and at most ten unknown parameters are recorded. |
| UriSpans.StepSane | lib/osips_parser/parse_uri.c:680-1340 | Every character keeps all positions and pieces within what has been read. |
| UriParams.ReadPiece | lib/osips_parser/parse_uri.c:888-1294 | Any parameter that is not empty and does not begin with ":" is refused inside exactly for a push name not followed by "=", and else leaves the machine ready to record exactly its effect, in front of ";" and "?" and at the end of the text. |
| UriParams.ReadBeginning | lib/osips_parser/parse_uri.c:523-535 | Behind the beginning of a well-known name the first "=" or ":" is overlooked; what follows is split at the last "=" that begins a value, or all of it is the name. |
| UriParams.ReadBareBeginning | lib/osips_parser/parse_uri.c:500-535 | A beginning alone is recorded as a name in front of ";" and "?", except "r" and "pn", and at the end of the text it is dropped, or refused from "ma" towards maddr. |
| UriParams.ReadValued | lib/osips_parser/parse_uri.c:947-1294 | A well-known parameter with a value is recorded under its name, in any letter case; a transport value decides the protocol. |
| UriParams.UnknownSplitIff | lib/osips_parser/parse_uri.c:932-946 | An unknown parameter with a value is recorded as its name and its value if and only if no well-known name begins with its name and no "=" follows a ":" in its value. |
| UriNames.OffTheWords | lib/osips_parser/parse_uri.c:523-590 | A name with which no well-known name begins leaves all states of well-known names. |
| UriNames.WordReads | lib/osips_parser/parse_uri.c:523-590 | A beginning of a well-known name, in any letter case, leads to the state that stands for it. |
| UriParams.ProtoAtEnd | lib/osips_parser/parse_uri.c:960-1024 | The state behind a transport value names udp, tcp, tls, sctp, ws or wss exactly if the value is that word. |
| UriTail.UserHostParams | lib/osips_parser/parse_uri.c:307-1592 | On scheme, user, password, host, port, any list of parameters and headers, the parse yields exactly these pieces, and is refused if and only if a push name in user or parameters misses its "=" or the last parameter is a maddr or push parameter cut short. |
| UriTail.HostParams | lib/osips_parser/parse_uri.c:307-1592 | The same without a user, for every scheme. |
| UriTail.NumberIsUser | lib/osips_parser/parse_uri.c:1528-1546 | Behind tel: a plain number, with any parameters and headers, is the user and the host is empty; behind urn:service: the text is the host, behind urn:nena:service: neither is recorded. |
| UriTail.FirstTenUnknown | lib/osips_parser/parse_uri.c:432-448 | Of the unknown parameters exactly the first ten are recorded, in order. |
| UriTail.LastNameCounts | lib/osips_parser/parse_uri.c:426-430 | A well-known parameter is recorded where it occurs last. |
| UriTail.UnknownParamIff | lib/osips_parser/parse_uri.c:523-535 | On a whole URI with one unknown parameter with a value, the list recorded is its name and its value if and only if no well-known name begins with its name and no "=" follows a ":" in its value. |
| UriTail.SwallowedExamples | lib/osips_parser/parse_uri.c:523-535 | Inputs on both sides of that condition: t=5 and t=a=b are split wrongly, x=5 is not. |
| UriTexts.CompareTexts | lib/osips_parser/parse_uri.c:1707-1848 | Comparing two texts with this parser gives the verdict on the pieces it cuts out of them. |
| UriTexts.RawVerdictIsSymmetric | lib/osips_parser/parse_uri.c:1707-1848 | On any two texts the verdict does not depend on their order. |
| UriTexts.SplitVerdict | lib/osips_parser/parse_uri.c:1707-1848 | For two texts of scheme, user, password, host and port: match if they differ in case only, error if a user is refused, and else the verdict on exactly these parts, with the users decoded. |
| UriTexts.ShortcutIgnoresUserCase | lib/osips_parser/parse_uri.c:1727-1737 | Counterexample: texts whose users differ in case match, their parsed forms do not. |
| UriCase.ParseIgnoresCase | lib/osips_parser/parse_uri.c:307-1592 | Two texts that differ in letter case only and whose schemes are recognised parse to the same pieces. |
| UriCase.ShortcutRightIff | lib/osips_parser/parse_uri.c:1727-1737 | Two texts that differ in letter case only always match; this is the verdict on their pieces if and only if both parse and their decoded users, passwords and ports are the same with regard to case. If one does not parse, the verdict on the pieces would be an error. |
| UriCase.ShortcutOnlyMatches | lib/osips_parser/parse_uri.c:1727-1764 | For any two texts the verdict is a match if they look the same, and else the verdict on their pieces. |
| UriCase.SameIsCaseEqual | lib/osips_parser/parse_uri.c:1731-1732 | Without a NUL, texts that look the same to the shortcut are those that differ in letter case only. |
| UriCase.NulHidesTheRest | lib/osips_parser/parse_uri.c:1731-1732 | Counterexample with a NUL: two texts match although the second is no URI. |
| UriCompare.ParamsAgreeAlike | lib/osips_parser/parse_uri.c:1800-1838 | Parameter lists whose names and values are the same place by place agree. |
| HeaderSpec.ParsingIsResumable | lib/osips_parser/msg_parser.c:281-544 | After any successful calls with any flag sets, asking for all headers gives the fields, stop position and end of headers of one single call for all, and succeeds exactly if that does. |
| HeaderSpec.FieldsOnlyGrow | lib/osips_parser/msg_parser.c:303-319 | A call only appends to the fields, even when it fails. |
| HeaderSpec.SecondHopStep | lib/osips_parser/msg_parser.c:488-506 | The second hop becomes known exactly with a first Via of several hops or a second Via. |
| HeaderSpec.FindHeaderEnd | lib/osips_parser/msg_parser.c:228-244 | The search over folded lines finds the first line feed that no continuation follows, and fails exactly if there is none. |
| HeaderParser.SipMsg.LinkSibling | lib/osips_parser/msg_parser.c:290-297 | Hooking a header in at the tail of its chain gives the correct chains and hooks for the longer list. |
| HeaderParser.SipMsg.AddField | lib/osips_parser/msg_parser.c:319-526 | Adding a header keeps all lists, hooks and hops correct and sets exactly the flags of the field. |
| HeaderParser.SipMsg.ParseHeaders | lib/osips_parser/msg_parser.c:281-544 | A call on the linked lists has the outcome the specification gives, which `HeaderLaws.FirstCall` and `HeaderLaws.NextCall` state on the fields, and keeps all lists, hooks and hops correct; a failed call keeps its added fields but not its progress. |
| HeaderLaws.FlagsAreDistinct | lib/osips_parser/hf.h:47-130 | Every type of header has a flag of its own, apart from the flags for the second hop and the end of headers. |
| HeaderLaws.FlagOrder | lib/osips_parser/hf.h:47-130 | The flag of each type by name. |
| HeaderLaws.FirstCall | lib/osips_parser/msg_parser.c:281-544 | On a fresh message a call fails only at a token that is no header with something wanted missing. When it succeeds, every wanted type occurs among the fields and the second hop is known if wanted, or the end was reached; without the last field something wanted was still missing. |
| HeaderLaws.NextCall | lib/osips_parser/msg_parser.c:303-309 | Asking for the next instances adds a new field of every wanted type, or reaches the end, and stops with the field that completes them. |
| HeaderLaws.StopsWhenAchieved | lib/osips_parser/msg_parser.c:309-316 | The fields a call adds are the next tokens of the text, up to the first with which all wanted flags are set. |
| HeaderLaws.HookIffFound | lib/osips_parser/msg_parser.c:319-526 | A hook is set exactly if a field of its type has been found. |
| HeaderLaws.SiblingTypes | lib/osips_parser/msg_parser.c:290-297 | The types whose instances are linked as siblings, by name; no field of another type has a sibling. |
| HeaderParser.ListsHoldFields | lib/osips_parser/msg_parser.c:290-297 | The `next` list is all headers; for each type with several instances the sibling chain from its hook is the in-order subsequence of that type; every other hook is its type's first occurrence. |
| HeaderParser.SameFieldsSameLists | lib/osips_parser/msg_parser.c:281-544 | Two messages with the same fields have the same hooks, siblings and hops, place by place, so that resumed and single parsing agree on all of them. |
| IpAddr.Parse4Printed | lib/osips_parser/ip_addr.h:513-581 | Reading inverts printing for every IPv4 address, also with a last 0 left out. |
| IpAddr.Parse4Exactly | lib/osips_parser/ip_addr.h:513-581 | A text is read as an address if and only if it is what is printed for it, or that without a last 0. |
| IpAddr.PrintIPv4 | lib/osips_parser/ip_addr.h:461-500 | The digits written in place are the dotted decimal text, at most 15 characters and a terminator. |
| IpAddr.StrToIPv4 | lib/osips_parser/ip_addr.h:513-581 | The loop with its byte index accepts what the character-by-character reading accepts, with the same address. |
| IpAddr.Parse6Printed | lib/osips_parser/ip_addr.h:586-680 | Reading inverts printing for every IPv6 address, with and without brackets. |
| IpAddr.Parse6Full | lib/osips_parser/ip_addr.h:586-680 | Eight groups of one to four hexadecimal digits are read as their values. |
| IpAddr.Parse6Compressed | lib/osips_parser/ip_addr.h:586-680 | A double colon stands for the missing zero groups, and is refused exactly if seven groups stand on one side of it. |
| IpAddr.Parse6Shape | lib/osips_parser/ip_addr.h:586-680 | Every accepted text gives eight groups; with a double colon the groups on both sides number at most seven and only zeros lie between them. |
| Ip6Grammar.Parse6Exactly | lib/osips_parser/ip_addr.h:586-680 | A text, without its brackets, is read as an address if and only if its pieces between colons are at most eight and hexadecimal, and either exactly one inner piece is empty or there are eight and none is; the address is what the pieces say, long groups modulo 2^16. |
| Ip6Grammar.LastColonAlone | lib/osips_parser/ip_addr.h:619-652 | Example: seven groups and a last colon are read with a zero as eighth group. |
| Ip6Grammar.FiveDigitGroup | lib/osips_parser/ip_addr.h:634-636 | Example: of a group of five digits the last four count. |
| IpAddr.PrintIPv6 | lib/osips_parser/ip_addr.h:404-460 | The text written in place is the colon-separated hexadecimal text; it fits the buffer with its terminator. |
| IpAddr.PrintedForm | lib/osips_parser/ip_addr.h:404-460 | The text is the eight groups with a colon between any two. |
| IpAddr.HexExamples | lib/osips_parser/ip_addr.h:399-431 | Examples with every digit: capitals, no leading zeros. |
| IpAddr.ScanGroups | lib/osips_parser/ip_addr.h:619-644 | The loop over two group arrays holds the groups of the reading so far, with every index in range. |
| IpAddr.CopyTail | lib/osips_parser/ip_addr.h:645-649 | The tail groups land on the last places, with only zeros between them and the front. |
| IpAddr.StrToIPv6 | lib/osips_parser/ip_addr.h:586-680 | The whole loop accepts what the character-by-character reading accepts, with the same address. |
| StrCommon.UnescapeInvertsEscape | lib/osips_parser/strcommon.c:149-335 | Unescaping an escaped printable text gives it back, for users and parameters, whatever lies behind it in memory. |
| StrCommon.EscapeFacts | lib/osips_parser/strcommon.c:266-417 | The escaped text has only allowed characters and percent triples, and at most three times the length. |
| StrCommon.EscapeInto | lib/osips_parser/strcommon.c:266-335 | Succeeds exactly if the buffer has the room asked for and all characters are printable, and then has written the escaped text and a terminator. |
| StrCommon.UnescapeInto | lib/osips_parser/strcommon.c:149-256 | Succeeds exactly if there is room and the text decodes, and then has written the decoded text and a terminator. |
| StrCommon.MemoryMattersIff | lib/osips_parser/strcommon.c:164-245 | Decoding a text gives the same result whatever follows it in memory if and only if no escape that can still be printable is cut off at its end. |
| StrCommon.CutOffExamples | lib/osips_parser/strcommon.c:166-238 | "%4" decodes or fails by what follows; "%%" fails whatever follows. |
| StrLaws.EscapedOne | lib/osips_parser/strcommon.c:266-417 | The characters that stand for themselves in a user and in a parameter are exactly those of a written-out alphabet; any other is written as a percent sign and two hexadecimal digits in lower case. |
| StrLaws.EscapeJoins | lib/osips_parser/strcommon.c:282-333 | A text is escaped character by character. |
| StrLaws.UnescapedEscape | lib/osips_parser/strcommon.c:164-245 | An escape in either letter case is decoded if its number is between 32 and 126, and refused otherwise. |
| StrLaws.NoHexRefused | lib/osips_parser/strcommon.c:166-238 | An escape with a character that is no hexadecimal digit is refused. |
| StrLaws.UnescapedOne | lib/osips_parser/strcommon.c:164-245 | Any character but the percent sign is kept. |
| StrCommon.UnescapeInvertsEscapeCommon | lib/osips_parser/strcommon.c:33-109 | Backslash escaping is undone for every text, NULs and runs of backslashes included. |
| StrLaws.CommonIsQuotable | lib/osips_parser/strcommon.c:33-65 | The escaped text has no NUL, every quote in it stands behind an odd number of backslashes, and at its end stands an even number. |
| StrLaws.EscapedByte | lib/osips_parser/strcommon.c:42-62 | The escapes of the two quotes, the backslash and NUL, written out; every other byte stays. |
| StrLaws.EscapeCommonJoins | lib/osips_parser/strcommon.c:40-63 | A text is escaped byte by byte. |
| StrLaws.UnescapedByte | lib/osips_parser/strcommon.c:70-109 | The four escapes are undone; a backslash in front of another byte or at the end stays, as does every other byte. |
| StrCommon.EscapeCommonInto | lib/osips_parser/strcommon.c:33-65 | The loop writes the escaped text, at most twice as long. |
| StrCommon.UnescapeCommonInto | lib/osips_parser/strcommon.c:70-109 | The loop writes the unescaped text, never longer than its input. |

## Left out

- ReverseQuery.OnRequest: takes the ranges already read; splitting the query string, headers and status codes are not modelled.
- ReverseQuery.SendBody: the data sent in pieces is modelled as one growing text.
- Control.Globals.VerifyMappingFile: needs a published database, as the program dereferences it, and lines without too few columns, on which the program reads behind a vector.
- Control.FromCSV: modelled for the batch size 10000 that all callers use. Reading of numbers and streams follows the documented behaviour of the folly and standard libraries; read errors other than the end of file are not modelled.
- Snapshots.ReadersAreIsolated: of hazard pointers only this is assumed: a protected database is not reclaimed. Taking protection is one step, as is exchanging the global pointer; memory ordering is not modelled.
- PhoneMapping.Data.GetRNs: hash tokens and prefetch hints are dropped, as they do not influence the result; the hash map is a map.
- PhoneMapping.Data.Build: the vectors are fields of type `seq` that the methods reassign; sorting and deduplication, library calls in the program, are written out. Metadata and size hints are left out.
- PhoneMapping.Mapping.VisitRows: the mapping owns its cursor; moving one mapping into another is not modelled.
- LergMapping.LergTables.AddRow: blocks come as numbers, so that the conversion from text and 64-bit overflow are left out.
- LergMapping.LergTables.GetLergs: a failed lookup sets only the key to 0 and keeps the other fields of the slot, as in the program; the rows visitor and its unused list are left out.
- UriParser.ParseUri: the code's macros are grouped into classes of states with the same edges. A missing pointer is offset 0, where no part can start. The port is accumulated without bound and reduced modulo 2^16 at the end; overflow of the accumulator is not modelled. An end of text inside the name maddr, an internal error in the program, is a refusal. Scheme bytes above 127 match nothing. The name recorded for an empty parameter at the end of the text, as in "sip:host;", is computed from a missing pointer and has no meaning in the program.
- UriUserSplit.UserHostSplit: is about the schemes sip and sips; users without "@", ":", "[" and "]".
- UriTail.UserHostParams: parameters without "@", ";" and "?", not empty and not beginning with ":"; headers without "@" and ";".
- UriCase.ShortcutRightIff: is about texts without a NUL; for texts that are the same up to a NUL only `UriCase.ShortcutOnlyMatches` holds, as what follows the NUL is arbitrary.
- UriCompare.CompareUris: takes the parser of raw URIs as a parameter, so that its laws hold with any parser; `UriTexts` puts in the parser of this program.
- UriLaws.MatchExactly: is about fields without a NUL, at which the comparison would stop.
- UriSeen.NamedValueSeen: is about URIs without a user and with one parameter; several are the subject of `UriTail`.
- UriRefused.PortRefused: is about URIs with a user, as without one the characters in front of a later "@" may still be a password.
- UriTexts.CompareTexts: behind a text lies a NUL, which decides only the decoding of a tel number with an escape cut off at its end.
- HeaderSpec.ParsingIsResumable: what lies at a position (name recognition and the parsers of Via, CSeq, To and Content-Length bodies) is a parameter, of which only progress is required. Allocation failures are left out.
- HeaderParser.SipMsg.ParseHeaders: the hooks, separate pointers in the program, are one map from type to header; which Via body holds several hops is one flag.
- IpAddr.StrToIPv4: is stated for texts that are not empty, as the program reads the first character before it looks at the length.
- The copies of the mapping pattern for the other lists (DNC, DNO, toll-free, Youmail, Geo, FTC, F404, F606) and the choice of search key that joins them in one response: the same pattern without the reverse cursor.
- Serving HTTP, SIP and UDP, access log, control socket and logging: input and output.
- Access control: rate limiting and dates come from libraries.
- Call signing under `stir/`: depends on cryptographic, JSON and Base64 libraries.
- Printing of URIs, parsing of URI headers, cloning of headers, `unescape_xml` and MD5: no law that holds on all inputs, or a chain of simple cases.
