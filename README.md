# lineFile in Dafny

A model of the core of `lineFile`, a Go package that stores newline-terminated
records in a file. You append records through a write buffer. A cursor moves
through the file record by record:

- `nextLine` moves it forward;
- `prevLine` moves it backward;
- `readLine` / `ReadLines` read records.

The scans work on a fixed 32-byte seek buffer. A separate part of the package
turns an ordered list of middlewares (encoders/decoders) into stacks of
writers and readers.

Modules:

- `Types`: bytes (`Byte`), the newline delimiter, `Option`.
- `Helpers` (helpers.go): the `Opts` options and their validity check. It also
  holds the in-place slice reversal `ReverseByteSlice`, proved against the
  specification function `Reversed`, and the first-newline search
  `GetNewlineIndex`.
- `Lines`: the record format. It covers which records a byte sequence holds
  from an offset (`FirstNewline`, `Records`) and what `WriteLine` produces
  (`Joined`). It also covers what `ReadLines` delivers (`ReadAll`) and what a
  write at the cursor does to the file (`Overwrite`).
- `Navigation`: the specification of the scans.
  - The closures that `nextLine` and `prevLine` pass to the chunk scanners are
    the datatype `Visitor`: the captured variables plus the callback
    `VisitWindow`.
  - `Forward` and `Backward` are the two scanners over a whole byte sequence.
  - `NextLineTarget` and `PrevLineTarget` say where the cursor lands. They are
    proved to mean "the first record start after a newline" and "just after
    the second newline met going backward".
- `LineFile` (file.go): the `File` class.
  - Its fields are the stored bytes `disk`, the handle's cursor `pos`, the
    bufio writer's pending bytes `buf`, the `closed` flag, the bytes last made
    durable by `Sync`, and the 32-byte `seekBuf` array.
  - The handle operations `Seek`/`Read`/`Write`/`Sync` (the `FileInt`
    capability surface of helpers.go) are methods that update those fields.
  - `ReadChunks`, `ReadReverseChunks`, `NextLine`, `PrevLine`, `ReadLine` and
    `ReadLines` are window loops over `seekBuf`. Each is proved against the
    `Navigation` and `Lines` functions.
  - `Open`, `WriteLine`, `Flush`, `Close`, `SeekToStart` and `SeekToEnd` are
    the state machine.
- `Middlewares` (middleware.go): each middleware is modelled as follows.
  - It is an abstract pair of whole-stream transformations `enc`/`dec`, plus
    its failure outcomes.
  - `GetWriteClosers` and `GetReadClosers` fill an array slot by slot, as the
    source fills its slice.
  - `CloseWriters` and `CloseReaders` close every non-nil slot in order and
    gather the errors.
  - `WriteMWBytes` and `ReadMWBytes` are proved to compute
    `enc_0(enc_1(...enc_k(x)))` and "`dec_0` first, `dec_k` last". The lemma
    `RoundTrip` shows that decoding with the same list undoes encoding.

Behaviour reproduced as the code has it:

- A closed `File` has a nil `*os.File`. Every handle operation on it returns
  Go's `os.ErrInvalid`, modelled as `Invalid`.
- `SeekToStart` and `SeekToEnd` test `!f.closed` (file.go:282, 297).
  - On an open file they always answer `IsOpen`.
  - On a closed one they seek a nil handle.
  - They never move the cursor.
- `readReverseChunks` rewinds with `seekBackwards(curr)`, the new absolute
  offset (file.go:152).
  - When the start offset is above 32 and not a multiple of 32, its last
    window `[0, 32)` overlaps the previous one.
  - `BackOrder` records the exact inspection order, and `BackOrderTail`
    shows it is `[p % 32, p)` from the top and then all of `[0, 32)`.
  - `RewindOverlapCountsTwice` shows one newline counted twice. This needs a
    cursor in the middle of a record.
  - `PrevLineTargetNoOverlap` shows the overlap cannot change the target when
    the cursor is at most 32, a multiple of 32, or just after a newline (the
    start of a record).
  - There `PrevLineAfterSecondNewline` and `PrevThenNextReturns` state the
    intended meaning.
- `readLine` never delivers an unterminated trailing record.
- `nextLine` skips empty records, but `prevLine` counts every newline.
- The file is opened without `O_APPEND`, so a flush writes at the cursor
  (`Overwrite`).
- When `nextLine` finds nothing it leaves the cursor at end of data.

## Model

| member | source | states |
|---|---|---|
| Helpers.Reversed | helpers.go:30-40 | the reversal keeps the number of bytes |
| Helpers.ReversedAt | helpers.go:30-40 | position k of the reversal holds s[len-1-k] |
| Helpers.ReversedTwice | helpers.go:30-40 | reversing twice restores the original bytes |
| Helpers.ReversedKeepsMiddle | helpers.go:33-35 | slices of length 0 or 1 are unchanged, and the middle byte of an odd-length slice stays put |
| Helpers.ReverseByteSlice | helpers.go:30-40 | the first n bytes of the array become their reversal; the rest of the array is untouched |
| Helpers.GetNewlineIndex | helpers.go:42-50 | result in [-1, len); -1 exactly when there is no newline; otherwise the least index holding one |
| Lines.FirstNewline | file.go:236-248 | a found offset lies at or after p, inside the data, and holds a newline |
| Lines.FirstNewlineIsFirst | file.go:236-248 | no newline lies between p and the one found; None means no newline remains after p |
| Lines.Joined | file.go:317-322 | WriteLine's output is empty exactly when nothing was written, and otherwise ends in a newline |
| Lines.Records | file.go:317-322 | no record holds a newline (the newline is the delimiter WriteLine appends) |
| Lines.ReadAll | file.go:358-372 | the cursor ReadLines leaves lies between the start and the end of data |
| Lines.Overwrite | file.go:267 | a write at p without O_APPEND keeps the prefix, replaces the covered bytes, keeps the tail, and grows the file only past its end |
| Lines.OverwriteAtEnd | file.go:267 | writing at the end of data appends |
| Lines.RecordsAppend | file.go:317-322 | appending to data that ends in a newline adds the new records after the old ones |
| Lines.RecordsOfJoined | file.go:310-327 | the records of what WriteLine produced for newline-free payloads are exactly those payloads |
| Lines.FirstNewlineFound | file.go:242-248 | a newline with none before it from p is the one FirstNewline finds |
| Lines.FlushedLinesReadBack | file.go:310-346 | flushing WriteLine's output at the end of newline-terminated data adds exactly the written payloads to the records read from the start |
| Lines.ReadAllIsPrefixOfRecords | file.go:358-372 | ReadLines delivers the records from the cursor in file order, with none skipped: a prefix of Records |
| Lines.ReadAllRefusedBeforeLast | file.go:358-372 | every record delivered before the last one was refused by the callback |
| Lines.ReadAllAcceptedCursor | file.go:358-372 | when the callback accepts the last record delivered, the cursor ends just after it, and the bytes passed over are exactly the delivered records with their newlines |
| Lines.ReadAllExhausted | file.go:358-372 | when the callback accepts no record, every record from the cursor is delivered and the cursor ends at end of data |
| Navigation.NextLineScanOutcome | file.go:166-177 | nextLine's callback stops only on a non-newline byte after a newline, with an offset leading back to it; otherwise the offset is unchanged and nlf says whether a newline was seen |
| Navigation.PrevLineScanOutcome | file.go:197-213 | prevLine's callback stops on the newline that brings its count to two and records that newline's index; otherwise the offset is unchanged and the count never drops |
| Navigation.VisitWindowOutcome | file.go:166-213 | one call of either callback keeps its kind, and when it stops its offset points at a non-newline byte (nextLine) or at the second newline of the reversed window (prevLine) |
| Navigation.Forward | file.go:97-114 | readChunks ends between its start and the end of data |
| Navigation.Backward | file.go:116-158 | readReverseChunks never ends past its start |
| Navigation.ScanTransition | file.go:166-177 | a transition found lies in the data at or after the scan's start, strictly after it unless a newline was already seen |
| Navigation.NextLineTarget | file.go:160-189 | a nextLine target lies strictly after the cursor and inside the data |
| Navigation.PrevLineTarget | file.go:191-226 | prevLine never moves the cursor forward |
| Navigation.ScanTransitionIsFirstLineStart | file.go:166-177 | the byte-by-byte scan finds the first newline-to-non-newline transition from its start offset |
| Navigation.NextLineTargetIsFirstLineStart | file.go:160-189 | nextLine's target starts a record right after a newline, and no earlier such position lies after the cursor; without a target there is no such position |
| Navigation.NextLineScanWindow | file.go:166-177 | on one window the callback stops exactly when the transition lies in the window, and records offset n-i back from the window's end |
| Navigation.ForwardNextLine | file.go:97-114 | readChunks with nextLine's callback ends a window past the transition with an offset leading back to it; without one it reads to end of data with offset -1 |
| Navigation.PrevLineScanWindow | file.go:197-213 | on one reversed window the callback stops at the newline that brings the count to two, and records the offset that leads back to just after it |
| Navigation.BackwardPrevLine | file.go:116-158 | readReverseChunks with prevLine's callback stops at the second newline in inspection order, with an offset leading just after it; otherwise the offset stays -1 |
| Navigation.BackOrderTail | file.go:125-154 | from an offset above 32 that is not a multiple of 32, the scan inspects [p % 32, p) from the top and then all of [0, 32) again |
| Navigation.BackOrderDisjoint | file.go:125-154 | from an offset of at most 32 or a multiple of 32, the windows cover every offset below it exactly once, top down |
| Navigation.NewlinesDownBelow | file.go:197-213 | scanning a range top down meets exactly the newline offsets of that range, from the highest down |
| Navigation.NewlinesBelowSplit | file.go:197-213 | the newlines of a range are those above a split point followed by those below it |
| Navigation.NewlinesBelowNone | file.go:197-213 | a scan of a range meets no newline exactly when the range holds none |
| Navigation.NewlinesBelowAt | file.go:197-213 | the m-th newline met lies in the scanned range and holds a newline |
| Navigation.NewlinesBelowAbove | file.go:197-213 | the m-th newline met scanning down has exactly m newlines above it in the range |
| Navigation.PrevLineTargetNoOverlap | file.go:116-226 | with the cursor at most 32, a multiple of 32, or just after a newline, prevLine lands where a scan meeting every newline below the cursor once would put it |
| Navigation.PrevLineAfterSecondNewline | file.go:191-226 | with the cursor at most 32, a multiple of 32, or just after a newline, prevLine lands just after a newline with exactly one newline between there and the cursor, or at 0 when fewer than two newlines precede the cursor |
| Navigation.PrevThenNextReturns | file.go:160-226 | from the first byte of any non-empty record that follows another, prevLine then nextLine comes back to it, wherever the windows fall |
| Navigation.NextLineSkipsEmptyRecord | file.go:166-177 | nextLine never lands on a newline byte, so from the start of an empty record prevLine then nextLine cannot come back to it |
| Navigation.RewindOverlapCountsTwice | file.go:152 | from offset 40 in the middle of a record, a single newline at 20 is met twice, so prevLine lands at 21 although only that newline precedes the cursor |
| Navigation.ThreeRecordsWalk | file_test.go:28-63 | on the bytes WriteLine produces for "1", "2", "3", three prevLine calls go 6 to 4 to 2 to 0, and nextLine from the start of "2" lands on "3" |
| LineFile.Location | file.go:52 | the location is the path, a separator, the name, a dot and the extension, each recoverable from it |
| LineFile.LineDeliveredFound | file.go:236-251 | with a newline ahead, readLine delivers the bytes up to the first one and leaves the cursor just past it |
| LineFile.LineDeliveredEnd | file.go:236-251 | with no newline ahead, readLine delivers nothing, leaves the cursor at end of data and reports EOF |
| LineFile.File.constructor | file.go:51-54 | the File New builds is closed, at offset 0, with nothing pending |
| LineFile.File.SeekHandle | helpers.go:57 | Seek moves the cursor to the target for each whence; on a nil handle it fails with Invalid and does not move |
| LineFile.File.ReadHandle | helpers.go:58 | Read copies min(k, remaining) bytes from the cursor into seekBuf and advances; a non-empty read at end of data gives 0 and EOF |
| LineFile.File.WriteHandle | helpers.go:59 | Write overwrites at the cursor and advances past the written bytes |
| LineFile.File.SyncHandle | helpers.go:60 | Sync makes the stored bytes durable |
| LineFile.File.FlushWriter | file.go:337 | the bufio flush hands all pending bytes to the handle and empties the buffer |
| LineFile.File.GetPosition | file.go:84-87 | returns the cursor, or 0 with the error dropped on a nil handle; never moves |
| LineFile.File.SeekBackwards | file.go:89-95 | moves back by min(cc, 32) |
| LineFile.File.Visit | file.go:166-213 | running the callback on seekBuf[:n] gives exactly VisitWindow of those bytes |
| LineFile.File.ReadChunks | file.go:97-114 | the callback state and the cursor are those of the Forward scan; reaching end of data is not an error |
| LineFile.File.ReadReverseChunks | file.go:116-158 | the callback state and the cursor are those of the Backward scan, including the rewind by the absolute offset |
| LineFile.File.NextLine | file.go:160-189 | the cursor lands on NextLineTarget; without one the result is LineNotFound and the cursor is at end of data |
| LineFile.File.PrevLine | file.go:191-226 | the cursor lands on PrevLineTarget |
| LineFile.File.ReadLine | file.go:228-256 | with a newline ahead, the callback receives the bytes up to the first one and the cursor ends just past it; otherwise there is no callback, the cursor ends at end of data and the result is EOF |
| LineFile.File.ReadLines | file.go:358-372 | the records received and the cursor are those of ReadAll; the final EOF becomes nil |
| LineFile.File.Open | file.go:259-277 | on an open File, IsOpen and nothing changes; otherwise it opens at offset 0 with an empty buffer |
| LineFile.File.SeekToStart | file.go:280-292 | always an error: IsOpen when open, Invalid when closed; the cursor never moves |
| LineFile.File.SeekToEnd | file.go:295-307 | always an error: IsOpen when open, Invalid when closed; the cursor never moves |
| LineFile.File.WriteLine | file.go:310-327 | appends b and exactly one newline to the pending buffer only; IsClosed when closed |
| LineFile.File.Flush | file.go:330-346 | writes the pending bytes at the cursor, empties the buffer and makes the data durable; IsClosed and no change when closed |
| LineFile.File.Close | file.go:383-405 | writes the pending bytes at the cursor and marks the File closed; IsClosed and no change when already closed |
| LineFile.New | file.go:44-63 | options with an empty path, name or extension (isValid false) give InvalidOptions and no File; otherwise a fresh File with its own fresh seek buffer, at the joined location, over the stored bytes (also taken as durable), at offset 0 with nothing pending, opened unless NoSet |
| Middlewares.Buffer.constructor | middleware.go:141 | the bytes.Buffer the writer stack emits into starts empty |
| Middlewares.EncodeChainSnoc | middleware.go:194-205 | adding a middleware at the end of the list adds the innermost writer, which encodes first |
| Middlewares.DecodeChainSnoc | middleware.go:165-177 | the reader built from the last middleware decodes what the stack below it yields |
| Middlewares.RoundTrip | middleware.go:118-156 | when every layer's dec undoes its enc, decoding with the same list returns the input |
| Middlewares.FirstWriterFailure | middleware.go:194-203 | the index of the first middleware whose Writer fails, or the length of the list |
| Middlewares.WritersAllBuild | middleware.go:194-203 | every Writer is built exactly when no middleware's Writer fails |
| Middlewares.FirstReaderFailure | middleware.go:165-174 | an index within the list; when below its length, that middleware's Reader fails on the bytes it wraps |
| Middlewares.ReadersBeforeFailureSucceed | middleware.go:165-174 | every Reader before the first failing one builds on the bytes it wraps |
| Middlewares.BuiltWritersStep | middleware.go:195-205 | building mws[i] stores it in slot len-1-i, wrapping the buffer or the previous layer |
| Middlewares.BuiltReadersStep | middleware.go:166-176 | building mws[i] stores in slot len-1-i a reader that yields what the first i+1 decoders make of the input |
| Middlewares.ReaderWrapsPrevious | middleware.go:165-177 | each layer after the first wraps the slot holding the layer built from the previous middleware, and decodes what it yields |
| Middlewares.OutermostYieldsChain | middleware.go:124-128 | slot 0 holds the layer of the last middleware and yields the whole decode chain |
| Middlewares.ErrOf | middleware.go:24-33 | the gathered error is nil exactly when no error was pushed |
| Middlewares.CloseErrorsNone | middleware.go:23-34 | closing reports nothing exactly when no non-nil slot fails to close |
| Middlewares.StackCloseErrorsNone | middleware.go:38-49 | closing a complete stack reports nothing exactly when no middleware of the list fails to close |
| Middlewares.CloseStep | middleware.go:45 | closing a layer changes no slot's middleware, keeps the slice length and only appends to the buffer |
| Middlewares.CloseAll | middleware.go:38-49 | closing slots in order keeps the slice length and every slot's middleware, and only appends to the buffer |
| Middlewares.CloseStepStack | middleware.go:38-49 | closing slot j of a loaded stack hands what the outer layers made of the input to slot j+1, or to the buffer for the last slot |
| Middlewares.StackCloses | middleware.go:38-49 | closing a loaded stack from slot j onward leaves the whole encode chain in the buffer |
| Middlewares.WriteThenCloseEmitsChain | middleware.go:144-154 | writing x to slot 0 of a complete writer stack and closing it leaves exactly enc_0(...enc_k(x)) in the buffer |
| Middlewares.WriteLayer | middleware.go:148 | the bytes written to a layer wait in that layer only |
| Middlewares.CloseWriter | middleware.go:45 | closing one writer layer is one CloseStep and reports that layer's close error |
| Middlewares.CloseWriters | middleware.go:38-49 | every slot is closed in index order (nil slots skipped), and the errors are gathered in that order |
| Middlewares.CloseReader | middleware.go:30 | closing one reader layer marks it closed and reports its close error |
| Middlewares.CloseReaders | middleware.go:23-34 | every non-nil slot is marked closed, and the errors are gathered in index order |
| Middlewares.GetWriteClosers | middleware.go:187-214 | the slice has len(mws) slots. On success, slot len-1-i holds mws[i]'s writer. On the first Writer failure, that error is returned and the layers built so far are closed |
| Middlewares.GetReadClosers | middleware.go:158-185 | the slice has len(mws) slots. On success, slot len-1-i holds mws[i]'s reader. On the first Reader failure, that error is returned and the layers built so far are closed |
| Middlewares.WriteMWBytes | middleware.go:138-156 | the output is enc_0(...enc_k(in)). The error is the first build error, else the gathered close errors. It is nil exactly when no Writer and no close fails. The output is empty on error |
| Middlewares.ReadMWBytes | middleware.go:118-136 | the output applies dec_0 first and dec_k last. The error is the first build error, else the gathered close errors. It is nil exactly when every Reader builds and no close fails. The output is empty on error |

## Left out

- backends.go (`getOS`, `getAIO` and the shared asynchronous I/O instance) is
  not part of this model. `Open` uses `os.OpenFile` directly and never reads
  `Opts.Backend`. The field is carried in `Opts` and not consulted.
- `peek` (helpers.go:23-28) is a debugging print.
- The concrete gzip, crypty and base64 middlewares are not modelled. Each is a
  thin wrapper over a foreign library and is replaced by an abstract
  `Middleware` value. Their `Name` methods are the `name` field.
- The mutex is not modelled: this is concurrency. This includes the lock left
  held when `Flush` or `Close` return early after a failed buffer flush.
  `ReadLine` is the locked form of `readLine` and is modelled by the same
  member.
- The shared buffer pool is not modelled: each `readLine` starts from an empty
  buffer.
- The callbacks are not modelled as opaque code. The `readLine` callback is
  the returned `line`; the `ReadLines` callback is a pure function `stop`.
- `Location` does not model `filepath.Join`'s path cleaning: the location is
  the path, `/`, the name, `.` and the extension.
- `New` and `Open` do not model the file-system call that opens the file. The
  bytes already stored at the location are a parameter, and opening cannot
  fail.
- Handle errors other than end of data and the nil handle are not modelled.
  This covers disk full, permission and device errors, and close failures.
  Hence `Flush` and `Close` never fail after their guard.
- The bufio writer's automatic flush when its internal buffer fills is not
  modelled: pending bytes reach the file only at `Flush` or `Close`.
- `Sync` is modelled as copying the stored bytes into `durable`, which nothing
  else reads.
- `LineFile.File.SeekHandle`: seeks before the start or beyond the end of the
  data are not modelled. The core never issues them, and the method requires
  the target to lie within the data.
- The public `PrevLine`, `NextLine` and `SeekToLine` called by file_test.go are
  not defined in the source files. Only the lowercase `prevLine` and `nextLine`
  are modelled, and `SeekToLine` is absent.
- `Middlewares.WriteMWBytes`, `Middlewares.ReadMWBytes`: they require a
  non-empty list, because the source indexes slot 0 unconditionally and an
  empty list panics.
- `Middlewares.WriteMWBytes`, `Middlewares.ReadMWBytes`: streams are modelled
  whole, so the discarded `Write`/`io.Copy` errors are not modelled. Neither
  are partial output from a layer that fails mid-stream, nor a reader
  constructor consuming part of its input.
- `Middlewares.CloseWriter` does not model the case where a layer's close
  error would stop its bytes reaching the inner layer; closing still encodes.
  This does not affect `WriteMWBytes`, which returns no output when any close
  fails.
- `errors.ErrorList` is not part of this model. `Push` is taken to ignore nil
  and to keep order, and `Err` to be nil when the list is empty.
