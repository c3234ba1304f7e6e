# A verified model of the ingest readers, parser and canonical form

The repository turns byte streams and sentences into canonical records. Its decisions are taken by
small bounded machines written in MNCS (`language/mncs/`) and driven by Rust (`src/`). This project
models those machines and their drivers and proves what they do on every input, under every way of
cutting a stream into chunks.

`dafny verify dfyconfig.toml` checks the whole project.

## What is modelled

**Manifests.** `Nest` is the incremental scanner with its container stack; `Manifest` holds the three
machines that walk the accepted bytes again (pair count, locator, value readers); `ManifestReader` is
the host's driver. `ManifestAgreement` proves the scanner, the counter and the locator agree on exactly
the documents whose root is an object that does not begin with a container. `ManifestTree` and
`ManifestRoundTrip` print trees and read them back; `ManifestVerdicts` gives the exact outcome on every
accepted document, and `ManifestWitnesses` the documents at which the machines part from one another.
`ManifestSpacing` and `ManifestTokens` put white space between tokens: which runs change nothing and which
spoil a document, with every byte of the format written as its number.

**Delimited records.** `Lines` splits, `Fields` unescapes, `Csv` holds the reader class, and `CsvStreams`
and `CsvRoundTrip` prove chunk invariance, tiling and the round trip. `CsvWritten` says what every written
line reads as, the refused ones included, and which line of a stream is blamed. `Envelope` shows that the
canonical bytes of the records read identify them.

**Binary frames.** `Frames` decodes and encodes one frame, `FrameReader` is the reader class, and
`FrameStreams` proves the correspondence between streams and frame lists, and which bytes a long view
loses and which answers that changes. `FrameVerdicts` gives every refusal by its code.

**Transfer sentences.** `Vocab`, `Words`, `Roles` and `Parse` model the parser; `Acceptance`
characterizes the sentences accepted; `Convergence` and `TextAdapter` prove that active and passive
forms mean the same. `Spellings` and `Grammar` state the vocabulary and the grammar by letters and words
alone. `Ir`, `Canonical` and `Codes` model the fragment, its semantic key and the two equality decisions;
`TransferTexts` gives canonical bytes letter by letter.

`Machine`, `Numerals`, `Separated` and `Chunks` are shared: machine words with explicit wrap-around,
decimal numerals, joining with a separator, and cutting a stream.

Loops of the source are methods with loops, proved against functions on values; the folds visit every
lane of their storage and the lanes past the live bytes are proved to change nothing. The Rust readers
are classes whose methods update the source's fields; their ghost fields record the stream fed so far.

## Where the code and its description part

The model follows the code. These are the places where its comments or documentation say otherwise, or
where the behaviour is easily missed; each is a theorem here.

- A root `[` and a root such as `{{}}` pass the scanner (`language/mncs/flow/nest.mncs:143`,
  `language/mncs/flow/nest.mncs:218`); every lookup in such a document is malformed
  (`UnkeyedRootIsMalformed`, `AgreementExactlyWhenKeyed`, and `{{}}` itself in `UnkeyedIsAccepted`).
- `open_container` keeps the flag of the last comma, so a container that is a later element of an array
  must not be empty or begin with a container (`AcceptedTrees`).
- White space outside strings is invisible to the scanner, also inside a literal (`WhiteSpaceInvisible`);
  the extractor refuses it in and behind a number or word of the root, because a value's span runs to its
  delimiter (`GapSpoilsBareValue`, and `{"a":1 }` in `SpaceAfterIntegerIsRefusedLate`), and nowhere else
  (`GapChangesNothing`).
- A raw tab in a string passes the scanner and fails the extractor (`StringMember`, `RawTabIsRefusedLate`).
- More than 64 pairs in a document are an error (`KeyedVerdict`, and 65 pairs in `SixtyFivePairsAreRefused`).
- The frame step leaves part of a view unconsumed when more than 136 bytes follow its first frame, and
  `feed` never presents that part again. A stream that reads cleanly is then answered with other frames,
  without an error (`AnswersExactlyWhenFit`, `LongViewLoses`, `HeartbeatsAreLost`). Chunks of at most 137
  bytes are safe. The line splitter, of which `docs/STREAMING.md:27` says that no byte is ever dropped,
  drops none (`Lines.StepConserves`, `CsvStreams.ReadAll`).
- A line of 255 bytes ended by a carriage return and a newline is accepted or refused depending on the
  cut (`BadCut`, `LongLineDependsOnTheCut`).
- `docs/GRAMMAR.md` gives one word order and requires a period. The code accepts any order in which each
  word can be given a role (`AcceptedExactly`, and "A gave apple B." in `OtherOrderExists`), and a missing
  period (`PeriodIsOptional`).

## Model

| member | source | states |
|---|---|---|
| Nest.ScanChunk | language/mncs/flow/nest.mncs:307-366 | the fold over all lanes of a view gives the verdict, state, position and count of scanning just the live bytes, whatever the view's length |
| NestLanguage.ScanAppend | language/mncs/flow/nest.mncs:307-324 | scanning a ++ b equals scanning a, then b: same state, same verdict, first bad index moved by the length of a |
| NestLanguage.FirstBadIndex | language/mncs/flow/nest.mncs:314-321 | the reported index is that of the first byte that cannot be scanned: a prefix is bad exactly when it reaches past it |
| NestLanguage.ScanWellFormed | language/mncs/flow/nest.mncs:99-304 | every reachable state keeps the invariant that ties depth, stack, expectation and the string, escape and literal flags |
| NestLanguage.ClosedRootStays | language/mncs/flow/nest.mncs:332-345 | after the root has closed, input stays clean if and only if it is white space |
| NestLanguage.PrefixVerdict | language/mncs/flow/nest.mncs:335-366 | every prefix of an accepted document is ok so far, and at end of input complete or truncated, never malformed; complete only when white space was cut off |
| NestLanguage.WhiteSpaceInvisible | language/mncs/flow/nest.mncs:99-107 | white space outside strings changes neither verdict nor state, wherever it stands |
| ManifestSpacing.GapInvisible | language/mncs/flow/nest.mncs:78-107 | a run of the bytes 9, 10, 13 and 32 outside strings changes neither verdict nor state, nor acceptance |
| ManifestSpacing.GapChangesNothing | src/manifest.rs:96-140 | in any accepted keyed document such a run, put in outside strings and not in or behind a number or word of the root, leaves the answer: the same error, or the same keys and values in order |
| ManifestSpacing.GapSpoilsBareValue | language/mncs/flow/manifest.mncs:344-358 | in or behind a number or word of the root the same run is scanned, makes that member malformed, and so always fails the document |
| ManifestTokens.FlatTokens | language/mncs/flow/nest.mncs:175-214 | the compact text of a tree is its tokens, with brackets, colon, comma, quote and escapes as numbers |
| ManifestTokens.SpacedManifest | src/manifest.rs:96-140 | any ingestible object with runs of the bytes 9, 10, 13 and 32 before every token and after the root: the answer is that of the compact text if no run follows a number or word of the root, and a failure otherwise |
| ManifestTokens.SpacedRoundTrip | src/manifest.rs:96-140 | so at most 64 typed members within the bounds come back, in order, through any such white space |
| ManifestTokens.OneElement | language/mncs/flow/nest.mncs:155-170 | an array element that begins with t, f, a minus or a digit and goes on with letters, digits and the bytes 43, 45, 46, 95 is one element: whatever precedes and follows, acceptance is that with the digit 1 |
| ManifestTokens.AfterElement | language/mncs/flow/nest.mncs:155-172 | behind such an element exactly those bytes, white space, a comma and the array's closer are taken; the first two leave the state |
| ManifestTokens.FirstByte | language/mncs/flow/nest.mncs:168-218 | a document that begins, after white space, with any byte but a quote or an opening bracket is malformed at that byte |
| NestLanguage.AcceptedIsWellNested | language/mncs/flow/nest.mncs:99-304 | every accepted document is well nested outside strings by an independent bracket matcher, with one root, depth at most 4, and `max_depth` exact |
| Manifest.PairCount | language/mncs/flow/manifest.mncs:107-154 | the fold over 512 lanes counts what the counter counts on the live bytes |
| Manifest.LocateSpansInside | language/mncs/flow/manifest.mncs:164-366 | on any document, accepted or not, the spans the locator answers lie inside it and in order |
| Manifest.LocatePair | language/mncs/flow/manifest.mncs:164-225 | the fold answers as the locator does on the live bytes, with spans in bounds |
| Manifest.ReadString | language/mncs/flow/manifest.mncs:416-504 | the fold over the value's lanes decodes exactly the value span; other lanes change nothing |
| Manifest.ReadLiteral | language/mncs/flow/manifest.mncs:506-542 | a literal is read if and only if the value span is exactly the word |
| Manifest.ReadInt | language/mncs/flow/manifest.mncs:544-600 | the fold runs the integer machine over exactly the value span |
| Manifest.PairAt | language/mncs/flow/manifest.mncs:371-406 | the reader of a pair dispatches on the first byte of the value found, with its key, kind and spans |
| ManifestAgreement.StepCounts | language/mncs/flow/manifest.mncs:125-154 | one byte keeps the simulation between scanner and counter: same depth, string and escape flags, count equal to the members seen |
| ManifestAgreement.CountAgrees | language/mncs/flow/manifest.mncs:107-154 | `pair_count` of an accepted keyed document is the number of members the scanner saw |
| ManifestAgreement.StepFollows | language/mncs/flow/manifest.mncs:227-366 | one byte keeps the simulation between scanner and locator, for every index asked |
| ManifestAgreement.LocateAgrees | language/mncs/flow/manifest.mncs:164-366 | for accepted keyed documents `locate_pair(i)` is the scanner's member i, overlong exactly when its key exceeds 32 bytes, and end for every i past the last; never malformed |
| ManifestAgreement.MembersInOrder | language/mncs/flow/manifest.mncs:290-366 | key and value spans lie in the document, are disjoint and follow member order |
| ManifestAgreement.UnkeyedRootIsMalformed | language/mncs/flow/manifest.mncs:227-323 | an array or scalar root, or an object that opens with a container, makes every lookup malformed |
| ManifestAgreement.AgreementExactlyWhenKeyed | language/mncs/flow/nest.mncs:221-244 | on accepted documents the locator never answers malformed if and only if the root is keyed |
| ManifestReader.ManifestScanner.constructor | src/manifest.rs:66-71 | a new scanner has scanned nothing |
| ManifestReader.ManifestScanner.Scan | src/manifest.rs:75-85 | after any views the state is that of one scan over everything fed; a malformed verdict carries the absolute first bad offset |
| ManifestReader.ExtractAll | src/manifest.rs:126-140 | all pairs in order, or the first failure, or the length and count bounds |
| ManifestReader.IngestManifest | src/manifest.rs:96-124 | the result is a function of the document alone: the same pairs or the same error position for every width whose views fit the scanner |
| ManifestTree.AcceptedTrees | language/mncs/flow/nest.mncs:99-304 | the compact text of a tree of containers is accepted if and only if it is at most four deep and no later array element is an empty container or begins with a container |
| ManifestRoundTrip.PrintedMembers | language/mncs/flow/manifest.mncs:164-366 | the members the scanner sees in a printed object are the printed ones, at the offsets of their text |
| ManifestRoundTrip.SpanSlices | language/mncs/flow/manifest.mncs:371-406 | those spans slice back to the printed key and value |
| ManifestRoundTrip.ReadsContent | language/mncs/flow/manifest.mncs:459-504 | the string machine decodes escaped text to its content, up to 64 bytes, and flags anything longer |
| ManifestRoundTrip.IngestsPrinted | src/manifest.rs:96-140 | the exact outcome of ingesting any printed object: all its pairs, or the error of the first member past a bound, or the refusal of more than 64 |
| ManifestRoundTrip.RoundTrip | src/manifest.rs:96-140 | at most 64 typed members within the bounds come back as themselves, in order, with spans that slice to their text |
| ManifestVerdicts.StringVerdict | language/mncs/flow/manifest.mncs:416-504 | for any text after an opening quote: malformed if and only if a raw tab, another control byte or an unknown escape stands before the first unescaped quote, or that quote is missing; else overlong exactly above 64 bytes of content; else the content |
| ManifestVerdicts.StringMember | language/mncs/flow/manifest.mncs:416-490 | a string member of an accepted document is malformed if and only if a raw tab stands before its closing quote, else overlong exactly above 64 bytes, else read as its content |
| ManifestVerdicts.IntToMeans | language/mncs/flow/manifest.mncs:582-600 | wrapping multiplication and addition lose no digit and no value of up to five digits |
| ManifestVerdicts.IntegerValue | language/mncs/flow/manifest.mncs:544-600 | an integer value is read if and only if its text is an optional minus and one to five digits, and then is that number |
| ManifestVerdicts.UnkeyedVerdict | src/manifest.rs:112-140 | the outcome on every accepted unkeyed document: empty when nothing is counted, the first pair malformed when 1 to 64 are, a count error otherwise |
| ManifestVerdicts.CountIsColons | language/mncs/flow/manifest.mncs:107-154 | on any accepted document, keyed or not, the count is that of the colons outside strings and directly inside one container |
| ManifestVerdicts.PairIsMember | language/mncs/flow/manifest.mncs:371-600 | each pair of an accepted keyed document is what the text of its member says: key, spans and value, or too long, or unreadable |
| ManifestVerdicts.KeyedVerdict | src/manifest.rs:112-140 | the outcome on every accepted keyed document: success if and only if there are at most 64 members and each reads, with exactly their pairs and values; otherwise the error of the first member that does not read, or of the count |
| ManifestVerdicts.NeverPastEnd | src/manifest.rs:126-140 | of all documents none is answered with a lookup past the last pair |
| ManifestVerdicts.CutDocument | src/manifest.rs:112-120 | an accepted document cut short is truncated at the cut, unless only white space was cut off |
| ManifestWitnesses.UnkeyedIsAccepted | language/mncs/flow/nest.mncs:221-244 | `{{}}` is accepted, its root is not keyed, and it gives no pair |
| ManifestWitnesses.RawTabIsRefusedLate | language/mncs/flow/manifest.mncs:487-490 | a document with a raw tab in a string is accepted and its only pair is malformed |
| ManifestWitnesses.SpaceAfterIntegerIsRefusedLate | language/mncs/flow/manifest.mncs:344-358 | `{"a":1 }` is accepted and its only pair is malformed |
| ManifestWitnesses.SixtyFivePairsAreRefused | src/manifest.rs:133-138 | an accepted object of 65 members within 512 bytes is refused by its count |
| ManifestWitnesses.BrokenLineReads | language/mncs/flow/nest.mncs:78-107 | a document with a newline behind its brace and the array element 1.5, byte by byte, gives its one pair |
| Lines.ScanNewline | language/mncs/flow/lines.mncs:72-87 | the first newline of the live bytes, and whether a control byte is among them; dead lanes change nothing |
| Lines.CleanLength | language/mncs/flow/lines.mncs:89-111 | the length without a final carriage return, or -1 exactly when a control byte or an inner carriage return is present |
| Lines.NextLine | language/mncs/flow/lines.mncs:126-157 | one step over carry ++ view: line, carry, status and consumed count as functions of the staged bytes |
| Lines.EmitLine | language/mncs/flow/lines.mncs:159-188 | the line, the kept tail and the consumed count; `covered` does not underflow |
| Lines.EmitTail | language/mncs/flow/lines.mncs:190-226 | the unterminated tail at end of input |
| Lines.StepConserves | language/mncs/flow/lines.mncs:126-188 | for every carry and view: staged bytes = line ++ terminator ++ new carry ++ unconsumed view, or all staged bytes are the new carry; the view is left partly unconsumed exactly when more than 256 bytes follow the newline |
| Fields.RunTakes | language/mncs/flow/fields.mncs:84-124 | the fold with its buffer and flags computes what unescaping from the front computes |
| Fields.FieldAt | language/mncs/flow/fields.mncs:63-124 | one field, for any start and length: its unescaped value, where the next starts, and its status, by the reference; lanes before the start, past the end and after the comma change nothing |
| Csv.ParseFields | src/csv.rs:154-198 | the fields of a line in order, or the error of the first that does not read, at most eight |
| CsvWritten.WrittenLine | src/csv.rs:154-198 | a written line reads as its fields are judged, for all fields: the first with an illegal byte is malformed, over 63 bytes overlong, the ninth malformed |
| CsvWritten.EightFieldsAtMost | src/csv.rs:154-198 | a written line of one to eight legal fields of at most 63 bytes, other than the one empty field, reads back; one of nine or more is malformed |
| CsvWritten.FirstToFail | src/csv.rs:160-193 | the first field that is not fine, or the ninth, decides the error |
| CsvWritten.BlamedLine | src/csv.rs:91-109 | after any good records, the error names the next line: malformed if a byte may not stand there, overlong above 255 bytes without its carriage return, else as its fields are judged |
| CsvWritten.BlamedTail | src/csv.rs:70-89 | the same for an unterminated last line, where a final carriage return is malformed |
| CsvWritten.CrlfReads | src/csv.rs:135-149 | a carriage return before the newline belongs to neither the fields nor the byte range of a written record |
| CsvWritten.ReadEightFields | tests/stream_csv.rs:151-155 | the bytes of `1,2,3,4,5,6,7,8` and a newline, in any chunks, are returned as one record of eight fields |
| Csv.RowsAppend | src/csv.rs:51-67 | splitting more of a stream continues where splitting less of it stopped, rows, line numbers and offsets included |
| Csv.StepExplained | src/csv.rs:51-67 | a step either consumes its whole view, splits off at most one row and leaves a carry of at most 255 bytes, or the bytes cannot be read at all |
| Csv.CsvReader.constructor | src/csv.rs:45-47 | a new reader holds nothing |
| Csv.CsvReader.DrainCarry | src/csv.rs:111-133 | the carry is emptied of complete lines, each a row of the stream; no clamp applies; the error is that of the first line that makes no row, with its number |
| Csv.CsvReader.FeedView | src/csv.rs:53-65 | one view succeeds if and only if carry ++ view passes, and is then consumed whole; its error, kind and line number, is that of the first unreadable line, or of a control byte |
| Csv.CsvReader.Feed | src/csv.rs:51-67 | a chunk succeeds if and only if all its views pass; the rows returned so far are those of the stream so far, and the carry is its unterminated rest; the error is that of the first view that does not pass |
| Csv.CsvReader.Finish | src/csv.rs:70-89 | end of input returns the rows still owed, or fails exactly when the rest makes no row, with the error and number of that line |
| CsvStreams.AllPassMeans | src/csv.rs:51-67 | a chunk is accepted if and only if the stream so far is readable and no view boundary leaves more than 255 bytes of a line |
| CsvStreams.ReadAll | tests/stream_csv.rs:15-27 | feeding chunks and finishing succeeds if and only if the stream reads in one pass and every cut fits, and then returns the rows of the one-pass reading |
| CsvStreams.ShortStreamsAreChunkInvariant | src/csv.rs:51-149 | when raw lines have at most 255 bytes no cut matters: every chunking gives the same rows, or every chunking fails |
| CsvStreams.BadCut | language/mncs/flow/lines.mncs:143-167 | a cut can hurt a readable stream only between the carriage return and the newline of a line of exactly 255 bytes |
| CsvStreams.RowsTileTheStream | src/csv.rs:135-149 | the rows tile the stream: consecutive line numbers, each byte range is its clean line, and exactly one one- or two-byte terminator stands between ranges |
| CsvRoundTrip.LineRoundTrip | src/csv.rs:154-198 | a written line reads back as the record written if and only if the record has at most eight fields, each of at most 63 legal bytes, and is not the one empty field |
| CsvRoundTrip.RecordsReadBack | src/csv.rs:51-89 | storable records written with lines of at most 255 bytes read back unchanged in one pass, and no chunking can cut them badly |
| CsvRoundTrip.ReadWritten | tests/stream_csv.rs:195-250 | write, feed in any chunks, finish: the same records come back, and their ranges tile the text |
| CsvRoundTrip.LongLineDependsOnTheCut | language/mncs/flow/lines.mncs:143-167 | every readable line of 255 bytes ended by CRLF is accepted in two chunks cut inside it and refused as one chunk |
| CsvRoundTrip.LongLineExists | language/mncs/flow/lines.mncs:143-167 | there is such a line |
| Separated.UnitsOfJoin | src/envelope.rs:23-35 | splitting at the separator undoes joining, for pieces without it |
| Separated.JoinIsInjective | src/envelope.rs:23-35 | joins of separator-free pieces are equal if and only if the pieces are, save that none and one empty piece join alike |
| Envelope.CanonicalRecordBytes | src/envelope.rs:26-35 | the loop joins the fields with the unit separator |
| Envelope.RowsReturnable | language/mncs/flow/fields.mncs:55-58 | every record the reader returns has at most eight fields of at most 63 bytes without control bytes but tab, and is never the one empty field |
| Envelope.RecordsAreIdentified | src/envelope.rs:23-35 | records read from any two streams have equal canonical bytes if and only if they are equal field by field |
| Envelope.FieldsOfBytes | src/envelope.rs:23-35 | splitting the canonical bytes of a record at the byte 31 gives its fields back |
| Frames.Checksum | language/mncs/flow/frames.mncs:106-114 | the sum of the covered bytes modulo 65536; lanes past them change nothing |
| Frames.DecodeFrame | language/mncs/flow/frames.mncs:132-224 | one step over carry and view, in terms of the first frame of the staged bytes |
| Frames.TakeFrame | language/mncs/flow/frames.mncs:206-224 | for a whole frame: payload, kept tail and consumed count; `covered` does not underflow |
| Frames.StepConserves | language/mncs/flow/frames.mncs:132-224 | for every carry and view: staged bytes = frame ++ new carry ++ unconsumed view, or all are the new carry; part of the view stays unconsumed exactly when more than 136 bytes follow the frame |
| Frames.EncodeFrame | src/frames.rs:154-162 | the wire form of a frame |
| Frames.FirstOfEncoded | src/frames.rs:154-162 | decoding undoes encoding, whatever bytes follow |
| Frames.WholeIsEncoded | language/mncs/flow/frames.mncs:132-224 | encoding undoes decoding: a whole frame is byte for byte the encoding of what it decodes to |
| Frames.FirstStable | language/mncs/flow/frames.mncs:132-224 | a verdict on the first frame does not depend on the bytes after it |
| FrameVerdicts.OtherVersion | language/mncs/flow/frames.mncs:172-175 | an encoded frame of any version but 1 is refused with code 6, whatever its kind and whatever follows |
| FrameVerdicts.OtherKind | language/mncs/flow/frames.mncs:176-179 | one of version 1 and kind above 2 is refused with code 7 |
| FrameVerdicts.OtherChecksum | language/mncs/flow/frames.mncs:202-206 | one whose two last bytes are any others is refused with code 4 |
| FrameVerdicts.OtherMagic | language/mncs/flow/frames.mncs:169-171 | six bytes that do not start with 67 and 77 are refused with code 3 |
| FrameVerdicts.LongPayload | language/mncs/flow/frames.mncs:180-183 | a sound header announcing more than 128 bytes is refused with code 3 at once |
| FrameVerdicts.NoFrameYet | language/mncs/flow/frames.mncs:150-201 | bytes are no frame yet exactly when fewer than six, or when their sound header announces more than has come |
| FrameVerdicts.StepStatus | language/mncs/flow/frames.mncs:132-224 | the status of a step by number: 0 a whole frame, 1 more needed, 2 nothing left, 5 truncated, otherwise the code of the refusal |
| FrameVerdicts.RefusedStream | src/frames.rs:51-87 | whatever is refused after any sound frames makes the whole stream fail with its code |
| FrameVerdicts.TruncatedStream | src/frames.rs:69-87 | a stream that stops anywhere inside a frame, after any sound frames, fails with code 5 |
| FrameVerdicts.RefusedFrame | tests/stream_frames.rs:128-135 | a stream of one frame of another version fails with code 6, of an unknown kind with code 7 |
| FrameVerdicts.RefusedChecksum | tests/stream_frames.rs:14-26 | a stream of one frame with other checksum bytes fails with code 4 |
| FrameVerdicts.FramesAsBytes | src/frames.rs:154-162 | the heartbeat, and a frame with two payload bytes, are these bytes |
| FrameReader.ParseAppend | src/frames.rs:51-66 | parsing more of a stream continues where parsing less of it stopped, and an error is final |
| FrameReader.StepParses | language/mncs/flow/frames.mncs:132-224 | a step's frame, then the parse of its carry, is the parse of the bytes the step kept; its error is the parse's error |
| FrameReader.FrameReader.constructor | src/frames.rs:46-48 | a new reader holds nothing |
| FrameReader.FrameReader.DrainCarry | src/frames.rs:105-128 | the carry is emptied of whole frames, each at its own byte range |
| FrameReader.FrameReader.Feed | src/frames.rs:51-66 | the answer and the new state are those of parsing, from the start, the bytes kept so far |
| FrameReader.FrameReader.Finish | src/frames.rs:69-87 | the frames still owed, the error of the stream, or truncation when bytes of a frame are left |
| FrameStreams.SentIsRead | tests/stream_frames.rs:14-26 | every list of messages of kind at most 2 and payload at most 128 bytes is returned unchanged, each at its own range |
| FrameStreams.ReadIsSent | src/frames.rs:51-87 | a stream that reads cleanly is the concatenated encoding of the frames returned |
| FrameStreams.FramesTile | src/frames.rs:130-138 | each frame's range holds exactly its encoding, and ranges follow one another without gap |
| FrameStreams.ViewLoses | language/mncs/flow/frames.mncs:208-212 | a view loses bytes if and only if its first frame leaves more than 136 bytes behind it |
| FrameStreams.SmallChunkKept | src/frames.rs:51-66 | between calls the carry is the beginning of one frame, so a chunk of at most 137 bytes is kept whole |
| FrameStreams.LongViewLoses | src/frames.rs:53-63 | for every length from 138 to 256 there is a stream that reads cleanly, cut into a carry and a view of that length, of which the view loses bytes and the answer changes |
| FrameStreams.ChunkKept | src/frames.rs:51-66 | a chunk that raises no error is kept whole if and only if each of its views meets the guard |
| FrameStreams.ReadAll | tests/stream_frames.rs:14-26 | feeding chunks and finishing answers as reading the bytes kept in one pass; as reading the stream when every view meets the guard, and for a stream that reads cleanly only then |
| FrameStreams.FramesDecideTheStream | src/frames.rs:51-87 | no two streams read cleanly to the same frames |
| FrameStreams.AnswersExactlyWhenFit | src/frames.rs:51-87 | for every stream that reads cleanly and every chunking: the answer is the stream's own if and only if every view meets the guard, that is, if and only if no byte is lost; for any stream the guard is enough, error codes included |
| FrameStreams.LostBehindAnError | src/frames.rs:53-63 | on a stream that does not read cleanly the guard is not necessary: a chunk of which bytes are lost and whose error is the same |
| FrameStreams.HeartbeatsAreLost | src/frames.rs:53-63 | thirty-two heartbeats fed as one chunk of 256 bytes come back as eighteen frames and no error |
| FrameStreams.SmallChunksReadTheStream | src/frames.rs:51-87 | with chunks of at most 137 bytes every view meets the guard, so every chunking gives the frames, or the error code, of the stream alone |
| Vocab.WordIsSlice | language/mncs/ingest/vocab.mncs:127-132 | a span inside the text is a slice of it; nothing wraps |
| Vocab.SpanEq | language/mncs/ingest/vocab.mncs:135-143 | true if and only if the span spells the keyword, letter case aside |
| Vocab.SpanPrefixEq | language/mncs/ingest/vocab.mncs:147-155 | true if and only if the span, of at most 16 bytes, begins with the keyword |
| Vocab.ClassifyObject | language/mncs/ingest/vocab.mncs:229-248 | code 1 or 2 if and only if the word is the name or the name with a final s |
| Vocab.ClassifyDigits | language/mncs/ingest/vocab.mncs:343-359 | the decimal value of one to three bytes, ok exactly when all are digits; the wrapping operators do not wrap |
| Vocab.ClassifyWordNumber | language/mncs/ingest/vocab.mncs:304-339 | the number a word or a run of digits stands for |
| Spellings.NumberWords | language/mncs/ingest/vocab.mncs:304-339 | each of the eleven words from zero to ten, in any letter case, is its number, and so are that number's digits |
| Spellings.NumbersAre | language/mncs/ingest/vocab.mncs:304-359 | a word is a number if and only if it is one of those eleven or one to three digits |
| Spellings.ObjectsAre | language/mncs/ingest/vocab.mncs:229-248 | code 1 exactly for apple and apples, 2 exactly for orange and oranges, in any letter case |
| Vocab.EntityWord | language/mncs/ingest/vocab.mncs:364-380 | true if and only if the word has one to sixteen letters or high bytes and does not begin with a lower-case letter |
| Vocab.CandidateWord | language/mncs/ingest/vocab.mncs:384-395 | true if and only if the word has one to sixteen lower-case letters |
| Vocab.ClassifyWord | language/mncs/ingest/vocab.mncs:400-424 | the class of a word, a function of the bytes of its span alone |
| Spellings.ClassesAre | language/mncs/ingest/vocab.mncs:400-424 | the class of every word by its letters: the keyword classes share no word, so their order does not matter; any other word is a name, a candidate or of no class |
| Words.EffectiveLength | language/mncs/ingest/parse.mncs:316-333 | the length of the text without its ending, whether the fold visits the live bytes or all storage |
| Words.TrimMeans | language/mncs/ingest/parse.mncs:316-333 | what comes off is spaces and at most one period; what stays does not end in a space, nor in a period unless one came off |
| Words.SplitWords | language/mncs/ingest/parse.mncs:269-300 | the slots hold the words of the text, or overflow is set exactly when there are more than eight |
| Words.CloseSplit | language/mncs/ingest/parse.mncs:303-314 | a word still open at the end is closed |
| Words.SpansAreWords | language/mncs/ingest/parse.mncs:264-300 | the spans are exactly the maximal runs of non-spaces, in order and apart |
| Roles.ClassifyAll | language/mncs/ingest/parse.mncs:78-110 | classes of all words, and first index and count of verbs and of "from" |
| Roles.AssignRoles | language/mncs/ingest/parse.mncs:133-176 | first occurrences and counts for every role, then the verdict of the checks in order |
| Roles.CoverageOk | language/mncs/ingest/parse.mncs:208-220 | true if and only if every word is the verb, the "from" of a passive sentence, or has a role |
| Parse.ParseTransfer | language/mncs/ingest/parse.mncs:391-429 | the answer is a function of the live bytes alone, for both ways a fold may visit lanes |
| Acceptance.CastIsAccepted | language/mncs/ingest/parse.mncs:133-220 | words that can be given roles are accepted with those roles, so the roles are unique |
| Acceptance.EveryWordIsHonest | language/mncs/ingest/vocab.mncs:400-424 | a word that begins with a digit is a number or of no class, and a number word has a value |
| Acceptance.ParseAcceptsCasts | language/mncs/ingest/parse.mncs:391-429 | a sentence of at most eight words that can be cast parses with status 0 and the spans, code and quantity of that cast |
| Acceptance.AcceptedSentenceIsCast | language/mncs/ingest/parse.mncs:133-220 | on status 0 the words are cast: one verb, two entities on their sides, one object and at most one number after the verb, one "from" exactly when passive, and nothing else |
| Acceptance.AcceptedExactly | language/mncs/ingest/parse.mncs:391-429 | status 0 if and only if at most eight words that can be cast |
| Acceptance.StatusMeans | language/mncs/ingest/parse.mncs:179-205 | the status of every text in terms of its words: empty; more than eight words or verbs more than one; no verb; a participant missing; a digit-led word after the verb that is no number; castable; otherwise bad shape, in that precedence |
| Acceptance.RefusedAnswer | language/mncs/ingest/parse.mncs:391-429 | a text without a single verb among one to eight words is answered with its status and nothing else |
| Grammar.GrammarDecides | language/mncs/ingest/parse.mncs:1-20 | status 0 if and only if the words, eight at most, can all be given a role by the grammar of words alone |
| Grammar.StatusWithoutOneVerb | language/mncs/ingest/parse.mncs:391-429 | 5 without words, 4 with more than eight, 1 without a verb, 4 with two |
| Grammar.StatusWithVerb | language/mncs/ingest/parse.mncs:179-205 | with one verb, and one "from" if it is passive: 2 unless a name stands where the source can, one where the target can and an object behind the verb; then 3 if a digit-led word behind the verb is no number; then 0 if every word can be given a role; else 4 |
| Grammar.StatusWithoutFrom | language/mncs/ingest/parse.mncs:179-190 | 2 with a passive verb and no or several "from" |
| Acceptance.AcceptedSentenceIsCovered | language/mncs/ingest/parse.mncs:208-220 | on status 0 every byte of the trimmed sentence that is not a space lies in a word with a role; words are in bounds, apart and maximal |
| Convergence.WordsOfSentence | language/mncs/ingest/parse.mncs:269-333 | the words of words joined by spaces and ended by a period are those words |
| Convergence.PeriodIsOptional | language/mncs/ingest/parse.mncs:316-333 | a sentence parses alike with and without its period |
| Convergence.FormsConverge | language/mncs/ingest/parse.mncs:1-13 | for all entity, object and number words and all verbs, the active and the passive sentence both parse and say the same transfer |
| Convergence.FormsExist | language/mncs/ingest/parse.mncs:1-13 | there is such a transfer, with a quantity, whose two sentences fit the 64 bytes of a text |
| Convergence.OtherOrderExists | language/mncs/ingest/parse.mncs:133-176 | "A gave apple B." is accepted, outside the word order of the grammar, with the roles of "A gave B apple." |
| TextAdapter.AcceptedSays | src/adapters/text.rs:70-89 | every accepted sentence says a transfer: its spans slice to two entity words, an object word and at most one number word |
| TextAdapter.AcceptedIsBuildable | src/adapters/text.rs:115-135 | no bound of the adapter refuses a sentence the parser accepted |
| TextAdapter.FragmentsDecideTransfers | src/adapters/text.rs:75-112 | two accepted sentences have fragments of the same key if and only if they say the same transfer |
| TextAdapter.FormsMeanTheSame | src/adapters/text.rs:75-112 | the active and the passive sentence of a transfer have fragments of the same key |
| Spellings.WordsMeanDigits | src/adapters/text.rs:75-112 | a sentence with a number word, and the sentence in either form with that number's digits, are both accepted with that quantity and have fragments of the same key |
| TransferTexts.SentencesToFacts | tests/convergence.rs:1-40 | "Finn received three apples from Alexander." and "Alexander gave Finn 3 apples." are accepted with the same facts, given in letters |
| Ir.EscapeFirst | src/ir.rs:191-196 | the three replacements, one after the other, are one code per byte |
| Ir.EscapeRoundTrip | src/ir.rs:191-196 | escaping can be undone and leaves no space and no newline |
| Ir.SemanticKey | src/ir.rs:154-178 | the pushed lines are the lines of atoms, relations and unknowns in order |
| Ir.KeyDecidesMeaning | src/ir.rs:151-178 | keys are equal if and only if kinds, labels, values, relations and unknowns are, in order, up to atom ids; absent differs from zero |
| Ir.SemanticallyEqual | src/ir.rs:180-182 | true if and only if the schemas agree and the fragments have the same meaning |
| Ir.CanonicalBytes | src/ir.rs:186-188 | the schema line, then the key |
| Ir.BytesDecideMeaning | src/ir.rs:184-188 | canonical bytes are equal if and only if schema and meaning are, for schemas without newline |
| Codes.SpellEqual | language/mncs/ingest/frame.mncs:35-46 | 1 if and only if the live bytes are equal and at most sixteen |
| Codes.IsSortedCodes | language/mncs/ingest/frame.mncs:61-69 | 1 if and only if the window is sorted, all pairs |
| Codes.SortStep | language/mncs/ingest/frame.mncs:74-87 | permutes the window, whatever it holds, and inserts one element among sorted ones before it; lanes whose index wrapped change nothing |
| Codes.SortCodes | language/mncs/ingest/frame.mncs:91-97 | the window comes out sorted, as a permutation; the lanes after it are untouched, for every count |
| Canonical.FragmentIsLaidOut | src/canonical.rs:70-178 | the layout readers rely on: ids are positions, every role points at the one atom it names, a quantity atom stands exactly when a quantity is given, and confidence is uncertain exactly when something is listed as unknown |
| TransferTexts.KnownLabel | src/canonical.rs:53-59 | the label of a known object is apple or orange, and is a word of that object's code |
| TransferTexts.CanonicalText | src/ir.rs:154-188 | the canonical bytes of every fragment an adapter assembles, line by line in letters: schema, version, one line for each atom in order, one for each role, one for an unknown object |
| TransferTexts.EscapesAsBytes | src/ir.rs:191-196 | escaping by the numbers of the bytes: 92, 10 and 32 become two bytes, any other stays |
| TransferTexts.ExampleBytes | src/ir.rs:184-188 | both example sentences have the eleven lines of the example's canonical text |
| Canonical.FragmentsDecideFacts | src/canonical.rs:70-178 | assembled fragments have the same meaning if and only if the facts do, whatever adapters, spans and inputs |
| Canonical.KeysDecideFacts | src/ir.rs:154-182 | the same, for semantic keys |
| Canonical.MncsEqual | src/canonical.rs:184-211 | true if and only if events, codes, quantities and compared spellings agree and those spellings have at most sixteen bytes |
| Canonical.EqualitiesAgree | src/canonical.rs:180-211 | for all facts an adapter can build and wherever they come from, `mncs_equal` on the facts and `semantically_equal` on the fragments `assemble` makes of them decide the same |

## Left out

- Marshalling, module loading and the execution backend (`src/language.rs`, `src/embed.rs`): a call into
  MNCS is a direct call of the function.
- SHA-256, `signal_id`, `source_id_of`, `seal` and `language/mncs/flow/identity.mncs`: the hash is not
  part of this model; a digest is a parameter of `Assemble`.
- The structured and native adapters' field plumbing, and JSON decoding: they supply the bounds that
  `Buildable` states. `validate_structured` and `classify_event` would add only easy members.
- `src/consumer.rs` and `language/mncs/ingest/handoff.mncs`, except the status that flags an unknown
  object.
- UTF-8 validity and lossy conversion: strings are the bytes of valid UTF-8.
- Budgets of execution steps and the wording of errors. Error kinds are kept, and positions where the source reports
  them.
- A buffer with a length is the sequence of its live bytes where the source only ever reads those; the
  folds over fixed storage keep their lanes.
- Stream positions and line numbers of the readers are unbounded numbers, not 64-bit ones.
- The kind of a failure under different chunkings of a record stream: only the fact of failure is
  invariant, as in the source.
