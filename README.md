# Trace daemon core in Dafny

This project models the core of a local trace-aggregation daemon. Clients connect to one socket
and open named traces. They append JSON-lines records to those traces and ask for a trace to be
exported as a Trace Event Format (TEF) document. The model covers three parts.

- The control-line decoder `decode_line` (src/msg.rs) is modelled in `msg.dfy` as the pure
  function `Msg.DecodeLine`. Lemmas cover each message form, the priority order between the
  forms, and round trips with an encoder `Msg.Encode` on the client side.
- The JSON-lines to TEF framer `emit_tef` (src/utils.rs) is modelled in `utils.dfy` as the
  method `Utils.EmitTef`. Its loop, with the `first` flag and the `bad_json` counter, is proved
  against the pure specification `Utils.Emitted` (a frame around `Utils.Records`). Further
  lemmas cover that specification: records in order, counting, shape, and reading the document
  back line by line.
- The daemon state (src/serve.rs) is modelled in `serve.dfy`. This covers the trace registry
  (`get_trace_file`, `close_all_force`, `kill`) and one round of the reclaimer
  (`cleaner_thread`). It also covers the bounded background export (`TraceFile::emit_tef`) and
  the client session (`handle_client`).
  - `State` and `TraceFile` are classes whose methods update their fields in place.
  - `Arc::strong_count` is the explicit field `TraceFile.refs`.
  - A `BufWriter`'s pending text is `TraceFile.buffer`.
  - The file system is the field `State.disk`, a map from path to contents.
  - The ghost predicates `State.Valid` and `State.Holds` state the reference-count invariant.
    Every registry entry is one holder of its handle. A session that holds a handle asks for
    at least one count besides the registry's; the predicate does not count individual
    sessions. A reclaimer round keeps every handle a session holds (`State.Held`).
  - `State.Valid` also says, through `State.Routed`, that every registry entry writes to the
    path its trace id opens: the single file when one was given, else `<dir>/<id>.jsonl`.
  - For a bound session whose messages neither rebind, export nor kill, the loop is proved to
    append to the trace exactly the records the client sent, in order, leaving the registry
    and every other handle alone. A session that opens an empty trace, adds two records and
    asks for an export is proved, message by message, to write the TEF array of those two
    records.

`text.dfy` states Rust's `str::trim`, using the Unicode White_Space property, and
`BufRead::read_line` over `seq<char>`. `wrappers.dfy` holds `Option` and `Result`.

Where the daemon's documentation and the code disagree, the model follows the code.

- With no valid record (for example an empty source), `emit_tef` writes `]\n`, not `[]\n`. The
  opening bracket is written only together with the first record. The code is modelled as written
  (`Utils.NoRecordsOnlyClose`).
- `Add` or `EMIT_TEF` without a bound trace does not just report an error and carry on. The `?`
  operator returns the error from `handle_client`, which ends the session. `Serve.State.Dispatch`
  returns `Fail(NoTraceFile)`, and `Serve.State.Converse` stops with that error.
- `OPEN` acquires the new handle before giving up the old one. When the open fails, the session
  ends and keeps its old binding until it is dropped.

## Model

| member | source | states |
|---|---|---|
| `Text.IsSpace` | src/msg.rs:28 | `char::is_whitespace` (the Unicode White_Space set): space, tab, `\n` and `\r` are whitespace, and no printable ASCII character is |
| `Text.StartsWith` | src/msg.rs:31 | `strip_prefix` succeeds exactly when the text is the prefix followed by the rest |
| `Text.Trim` | src/msg.rs:28 | the result has no whitespace at either end and is no longer than the input |
| `Text.TrimSlice` | src/msg.rs:28 | what `trim` keeps is a contiguous slice of the input with only whitespace before and after it |
| `Text.TrimEmptyIffAllSpace` | src/msg.rs:28-30 | `trim` yields the empty string exactly when every character is whitespace |
| `Text.TrimPadded` | src/msg.rs:28 | trimming whitespace-padded trimmed text gives back that text |
| `Text.TrimIdempotent` | src/msg.rs:28 | trimming twice is trimming once |
| `Text.LineLen` | src/utils.rs:16 | the first line of a non-empty text ends at its first newline, or at the end of the text |
| `Text.SplitLines` | src/utils.rs:14-19 | the lines that repeated `read_line` calls return until it returns 0: no more lines than characters, and none exactly when the input is empty |
| `Text.SplitLinesConcat` | src/utils.rs:16 | the lines `read_line` returns, joined, are the whole input |
| `Text.SplitLinesShape` | src/utils.rs:16 | every line is non-empty and holds `\n` only as its last character, and every line but the last ends with `\n` |
| `Text.LineLenAppend` | src/utils.rs:16 | text after a complete first line does not change that line's length |
| `Text.FirstLineAppend` | src/utils.rs:16 | text after a complete first line does not change that line |
| `Text.SplitLinesAppend` | src/utils.rs:16 | reading two texts that meet at a line boundary gives the lines of each, in order |
| `Text.SplitOneLine` | src/utils.rs:16 | a newline-free text followed by `\n` reads back as exactly that one line |
| `Msg.DecodeLine` | src/msg.rs:25-53 | `Open` and `EmitTef` carry a non-empty trimmed argument, `Add` carries the trimmed line itself with braces at both ends, and a parse error carries one of the two fixed messages |
| `Msg.RestNotBlank` | src/msg.rs:31-40 | after a keyword that ends with a space, the remainder of a trimmed line is never blank |
| `Msg.KeywordHeads` | src/msg.rs:31-40 | the first character and length that each keyword fixes, which keep the forms apart |
| `Msg.DecodeEmptyIffBlank` | src/msg.rs:28-30 | a line decodes to `Empty` exactly when it is all whitespace |
| `Msg.DecodeOpenIff` | src/msg.rs:31-34 | `Open` exactly when the trimmed line starts with `OPEN `, whatever follows (braces included), and the id is the trimmed remainder |
| `Msg.DecodeBareOpen` | src/msg.rs:31-52 | a bare `OPEN` is the generic parse error |
| `Msg.DecodeDieIff` | src/msg.rs:35-38 | `Die` and `DieWhenIdle` exactly for the trimmed texts `DIE` and `DIE_WHEN_IDLE` |
| `Msg.DecodeEmitTefIff` | src/msg.rs:39-40 | `EmitTef` exactly when the trimmed line starts with `EMIT_TEF `, and the path is the trimmed remainder |
| `Msg.DecodeAddIff` | src/msg.rs:41-47 | `Add` exactly when the trimmed line starts with `{` and ends with `}`, and "Non closed JSON object" exactly when it starts with `{` but does not end with `}` |
| `Msg.DecodeOtherwise` | src/msg.rs:48-52 | the generic parse error exactly when no form matches |
| `Msg.Encode` | src/msg.rs:3-22 | the line a client writes for a message has no surrounding whitespace and no newline |
| `Msg.DecodedWellFormed` | src/msg.rs:25-53 | every message decoded from a line `read_line` returns, other than a parse error, is one a client can send: non-blank trimmed payloads without a newline |
| `Msg.DecodeEncode` | src/msg.rs:25-53 | decoding the encoded line, with any whitespace around it (the newline included), gives back the message |
| `Msg.DecodeEncodedArgument` | src/msg.rs:31-40 | an already trimmed argument after a keyword comes back unchanged |
| `Utils.Records` | src/utils.rs:21-39 | every record the framer copies is trimmed and brace-delimited, and there are no more of them than lines |
| `Utils.ReadOneMore` | src/utils.rs:14-30 | one more line adds its trimmed text to the records when it is brace-delimited, and adds one to `bad_json` when it is non-blank and not brace-delimited |
| `Utils.JoinSnoc` | src/utils.rs:32-39 | `,\n` goes between records only |
| `Utils.WrittenSnoc` | src/utils.rs:32-39 | each record is written after `[` when it is the first one, and after `,\n` otherwise |
| `Utils.WrittenOneMore` | src/utils.rs:21-39 | after one more line the output so far grows by nothing, by `[` and the record, or by `,\n` and the record, as the `first` flag decides |
| `Utils.EmitTef` | src/utils.rs:9-48 | the loop writes exactly the frame of the records of its input, and `bad_json` is the number of non-blank lines that are not records |
| `Utils.NoRecordsIff` | src/utils.rs:21-30 | no record is found exactly when no line is a record |
| `Utils.EmittedShape` | src/utils.rs:32-41 | the document always ends with `]\n` and starts with `[` exactly when some line is a record |
| `Utils.NoRecordsOnlyClose` | src/utils.rs:11-41 | the document is just `]\n` exactly when no line is a record (an empty source in particular) |
| `Utils.RecordsAppend` | src/utils.rs:14-39 | the records of two inputs read in a row are the records of each, in order |
| `Utils.OmitInvalid` | src/utils.rs:22-30 | a line that is not a record contributes nothing wherever it stands |
| `Utils.AllRecords` | src/utils.rs:39 | when every line is a record, there is one record per line, in order, equal to the trimmed line |
| `Utils.LineAccounting` | src/utils.rs:21-30 | each line is exactly one of blank, bad or record |
| `Utils.RecordIffAdd` | src/utils.rs:24-26 | the framer copies a line exactly when the decoder accepts it as `Add`, and with the same text |
| `Utils.NewlineFreeSnoc` | src/utils.rs:39 | a newline-free text stays newline-free with one more non-newline character |
| `Utils.SplitFramedOne` | src/utils.rs:32-41 | a document with one record is that single line |
| `Utils.SplitFramedStep` | src/utils.rs:32-41 | one more record leaves the earlier lines unchanged and adds one line |
| `Utils.DocLinesSnoc` | src/utils.rs:32-41 | the line-by-line shape of the document extends record by record |
| `Utils.SplitFramed` | src/utils.rs:32-41 | a framed list of newline-free records reads back as one line per record |
| `Utils.DocumentLines` | src/utils.rs:32-41 | the exported document read back line by line holds one record per line, in order: `[` before the first, `,\n` after each but the last, `]\n` after the last |
| `Utils.RecordsNewlineFree` | src/utils.rs:16-39 | records from lines that `read_line` returned carry no newline |
| `Text.TrimInside` | src/utils.rs:21 | trimming a line that has `\n` only at its end removes every newline |
| `Serve.PathPush` | src/serve.rs:67 | `PathBuf::push` on Unix: the result ends with the pushed name, and keeps the base in front when the name is relative |
| `Serve.TraceFilePath` | src/serve.rs:63-70 | the path of a trace ends with `<id>.jsonl` |
| `Serve.TraceFileInDir` | src/serve.rs:63-70 | a relative trace id is written to `<dir>/<id>.jsonl`, with one separator |
| `Serve.AbsoluteIdIgnoresDir` | src/serve.rs:63-70 | an absolute trace id replaces the directory, as `PathBuf::push` does |
| `Serve.TraceFilePathInjective` | src/serve.rs:63-70 | different relative trace ids get different path strings |
| `Serve.LookupEntries` | src/serve.rs:105 | iterating a well-formed registry yields each of its handles exactly once |
| `Serve.EntriesPermuted` | src/serve.rs:258-265 | splitting the handles into dead and live keeps each handle exactly once |
| `Serve.DistinctConcat` | src/serve.rs:258-265 | two lists without repeats and with nothing in common have no repeats together |
| `Serve.ApplyWritesSnoc` | src/serve.rs:108 | one more flush appends its text to its file |
| `Serve.ApplyWritesAppend` | src/serve.rs:269-296 | two batches of flushes in a row are their flushes in order |
| `Serve.AppendAfterCreate` | src/serve.rs:84-88 | opening a file with `create(true)` and then appending to it leaves the same disk as appending alone |
| `Serve.ExportStable` | src/serve.rs:207-223 | records appended after the length was taken do not change the exported document, so the background export sees a fixed snapshot |
| `Serve.AddedLines` | src/serve.rs:191-197 | the records a session appended read back as one line each, in order |
| `Serve.ExportAdded` | src/serve.rs:129-145 | exporting a trace file holding exactly the appended records gives the TEF array of those records, in order |
| `Serve.CountersSnoc` | src/serve.rs:175-229 | one more message adds one to `n_errors` exactly when it is a parse error, sets the idle request exactly when it is `DIE_WHEN_IDLE`, appends `json + "\n"` exactly when it is `Add`, and has read a `DIE` exactly when it had before or it is `DIE` |
| `Serve.DecodeEncodedLine` | src/serve.rs:165-171 | a line a client writes for a message, newline included, decodes to that message |
| `Serve.SplitEncoded` | src/serve.rs:165-171 | the text a client writes for a list of messages is read back by `read_line` as exactly one line per message |
| `Serve.DecodedEncoded` | src/serve.rs:165-171 | reading the client's whole text line by line and decoding each line gives back exactly the messages it sent, in order |
| `Serve.ExportAppended` | src/serve.rs:129-145 | exporting, onto another file that can be opened, the whole of a trace file holding exactly the appended records writes the TEF array of those records |
| `Serve.State.OpenAddTwo` | src/serve.rs:185-198 | `OPEN` of a trace whose file is empty followed by two `Add`s: the bound handle writes to the path the id opens, the file is still empty and the buffer holds both records, each followed by a newline |
| `Serve.State.TwoRecordExport` | src/serve.rs:186-223 | a session that opens a trace whose file is empty, adds two records and sends `EMIT_TEF` to another file, dispatched message by message, leaves at the target `[` + first record + `,\n` + second record + `]\n` |
| `Serve.TraceFile.constructor` | src/serve.rs:90-94 | a new handle has an empty buffer and one `Arc` |
| `Serve.TraceFile.Append` | src/serve.rs:196-197 | `writeln!` puts the record and a newline into the buffer |
| `Serve.State.constructor` | src/serve.rs:336-343 | the daemon starts active, not dying when idle, with an empty registry |
| `Serve.State.TargetPath` | src/serve.rs:79-82 | a new trace goes to the single output file when one was given, and otherwise to a path ending in `<id>.jsonl` |
| `Serve.State.GetTraceFile` | src/serve.rs:72-101 | a registered id returns its handle with one more `Arc` and changes nothing else: registry, handles and disk stay as they were. Otherwise the target path (the single file, or `<dir>/<id>.jsonl` for a relative id and `<id>.jsonl` for an absolute one) is created and a new handle is registered under the id, with nothing else touched. When the open fails, nothing changes and the session gets `CannotOpen` |
| `Serve.State.Flush` | src/serve.rs:108 | the buffered text is appended to the file and the buffer is emptied |
| `Serve.State.Release` | src/serve.rs:238-244 | dropping an `Arc` lowers the count, and dropping the last one flushes the buffer |
| `Serve.State.Entries` | src/serve.rs:105 | the registry's ids in iteration order, each exactly once |
| `Serve.State.FlushEach` | src/serve.rs:288-296 | the handles are flushed in order: these writes, and these writes only, reach the disk |
| `Serve.State.DropEach` | src/serve.rs:269-279 | the registry's `Arc` of each of the first `n` handles is dropped and the others are untouched |
| `Serve.State.CloseAllForce` | src/serve.rs:103-113 | the registry ends empty, every drained entry is flushed once in drain order, and the registry's `Arc` of each is dropped |
| `Serve.State.Drain` | src/serve.rs:105 | the registry is emptied and yields each of its handles exactly once |
| `Serve.State.Kill` | src/serve.rs:115-118 | `active` becomes false and everything `close_all_force` does is done |
| `Serve.State.Classify` | src/serve.rs:257-265 | the handles split into dead ones (strong count 1) and live ones, each handle exactly once |
| `Serve.State.Sweep` | src/serve.rs:248-300 | exactly the entries with strong count 1 are removed, and each loses its last `Arc`. Every handle a session holds stays held, so one that is still registered stays registered. The daemon is killed exactly when nothing was live and it was asked to die when idle. Every handle is flushed, dead ones first, and the registry stays valid |
| `Serve.State.Retire` | src/serve.rs:267-296 | the dead entries are removed and flushed, the kill decision is made, and the live entries are flushed. Every handle a session holds stays held |
| `Serve.State.RemoveDead` | src/serve.rs:267-286 | the dead entries leave the registry and lose its `Arc`, the live ones stay registered, every handle a session holds stays held, and a kill happens exactly when nothing is live and `die_when_idle` is set |
| `Serve.State.Unregister` | src/serve.rs:267-279 | the entries with strong count 1 leave the registry and lose its `Arc`; no session held them, so every handle a session holds keeps the count it needs |
| `Serve.State.Export` | src/serve.rs:129-145 | the TEF document of the first `len` characters of the trace file is written to the target. When the source or the target cannot be opened, nothing is written and `Export` returns `CannotOpen` |
| `Serve.State.Rebind` | src/serve.rs:185-188 | `OPEN` binds the session to the registered or newly opened handle for the id. The old binding is dropped: its count goes down by one, and its buffer is flushed when that was its last `Arc`. Other handles keep their counts. When the open fails, nothing changes and the session ends with its old binding |
| `Serve.State.RequestExport` | src/serve.rs:199-224 | `EMIT_TEF` flushes the bound handle, takes the file's length, and exports that prefix. The session's reference count is the same afterwards |
| `Serve.State.Dispatch` | src/serve.rs:175-229 | one message's whole effect. `Empty`, a parse error and `DIE_WHEN_IDLE` touch no trace, and a parse error adds one to `n_errors`. `DIE` kills, flushing every drained entry and dropping its registry count while every handle outside the registry stays as it was, and stops. `OPEN` rebinds as `Rebind` says, with the disk and counts. `Add` appends `json + "\n"` to the bound buffer and changes nothing else. `EMIT_TEF` flushes and exports the flushed length. `Add` or `EMIT_TEF` without a binding ends the session with "No trace file defined" and changes nothing |
| `Serve.State.Leave` | src/serve.rs:238-244 | at the end of a session its clone of the bound handle is dropped. On a normal end the buffer is appended to its file first; on an error it is flushed only when that was the last `Arc`. Other handles are untouched and the registry stays valid |
| `Serve.State.Converse` | src/serve.rs:156-244 | the loop reads while the daemon is active. `n_errors` counts the parse errors read, and the idle flag ends set exactly when it was set before or some message read asked for it. It stops early only on `DIE`, after a kill, or on an error, and an error comes from `OPEN`, or from `Add`/`EMIT_TEF` without a binding. Once a `DIE` has been read the daemon is no longer active. A bound session that neither rebinds, exports nor kills reads every line and appends to its file exactly the records it read, in order, each followed by a newline; the registry and every other handle stay as they were, and its own count drops by the session's clone |
| `Serve.State.ReadLoop` | src/serve.rs:159-230 | the `loop` itself: the counters, where and why it stops, that a `DIE` read ends it with the daemon inactive, and, for a bound session that only adds, that nothing has changed since the loop began (`Grown`: the disk, the registry, whether the daemon is active, every count and every other buffer) except the bound buffer, which has grown by exactly the records read |
| `Serve.State.Turn` | src/serve.rs:160-229 | one pass of the loop keeps its invariant `Reading` from `n` messages read to `n + 1`: the error count, the idle request and the appended text grow by the new message alone; an error comes from `OPEN` or from `Add`/`EMIT_TEF` without a binding; a `DIE` stops the loop with the daemon inactive; and while the session only adds, nothing but the bound buffer changes, by that message's record |
| `Serve.State.Receive` | src/serve.rs:175-229 | a message as the loop sees it: it stops the loop exactly on `DIE`, which kills, empties the registry and leaves handles outside it alone. Errors come only from `OPEN` or from `Add`/`EMIT_TEF` without a binding, and a bound session stays bound. A message that neither rebinds, exports nor kills leaves the disk, the registry and every handle but the bound one unchanged, and the bound one keeps its count and gains exactly that message's record |
| `Serve.State.HandleClient` | src/serve.rs:148-245 | the whole session over the lines `read_line` returns. In single-file mode it starts bound to "default": it fails before reading anything when that cannot be opened, and otherwise never fails with "No trace file defined". Once a `DIE` has been read the daemon is no longer active. When the client only adds, the single file ends up holding what it held, then whatever the registered "default" had pending, then exactly the records sent, in order; this is stated both for a fresh and for an already registered "default". In the registered case the registry is unchanged and the text lands in the single file itself, because `State.Valid` keeps every entry's path equal to the path its id opens |
| `Serve.State.BindDefault` | src/serve.rs:149-154 | a session starts unbound, or, in single-file mode, bound to the registry's handle of "default": the registered one when there is one, with the registry and the disk unchanged, or one opened, created and registered when there was none; it fails exactly when that open fails |

## Left out

- Concurrency: threads, `Mutex`, `AtomicBool` and `Arc` as synchronisation. Every operation runs
  atomically, atomics are plain fields, and `Arc::strong_count` is the field `refs`. Sessions
  are not modelled as interleavings. A session's hold on its handle is the predicate
  `State.Holds`, which asks for one count besides the registry's; it does not count individual
  holders, so two sessions bound to one handle are not told apart from one.
- `Serve.State.Sweep`: "entries no session holds" is stated as "entries with strong count 1",
  as the source tests it, together with "every handle a session holds stays held". With
  several sessions on one handle the model does not track which of them still holds it.
- The 10-second watchdog that calls `process::exit` after a kill, and the 2-second sleep
  between reclaimer rounds. Both are timing only.
- `Serve.State.Sweep` models one round of `cleaner_thread`. The `while active` loop around the
  rounds is left out, because it only repeats the round until the daemon stops.
- `Serve.State.RemoveDead`: the kill made by a reclaimer round is modelled as `active := false`.
  That kill happens only when every entry was dead and has already been removed, so the
  registry is empty and `close_all_force` has nothing left to do.
- `Serve.State.Export`: the export runs in a background thread in the source. Here it is made
  at the moment it is requested. `Serve.ExportStable` shows that appends made meanwhile do not
  change the result. Errors inside the export thread are logged and never reach the session.
- `Serve.State.GetTraceFile` and `Serve.State.Export` report a failed open as `CannotOpen(path)`.
  The path is only a tag of the model: the `std::io::Error` that `open` and `create` return
  does not name it.
- `Serve.ExportSource` recognises an export onto its own source by comparing the two paths as
  strings. Two spellings of one file, or a symbolic link, are not recognised, so the model
  exports the full content where the source would first truncate the file.
- `Utils.EmitTef` and `Serve.State.Converse`: `bad_json` and `n_errors` are `i32` in the source
  and could overflow; the model counts with unbounded integers.
- `Serve.State.Converse` and `Serve.State.HandleClient` state what a session writes to its trace
  only for a bound session whose messages neither rebind, export nor kill. Other sessions are
  described one message at a time by `Serve.State.Dispatch`, and one such session end to end by
  `Serve.State.TwoRecordExport`.
- I/O failures other than failing to open a file are left out: read, write, flush and metadata
  errors. Opening is modelled by the parameter `failing`, the set of paths the file system
  refuses to open.
- `BufWriter` flushes caused by a full buffer are left out. Text reaches the disk on an
  explicit flush or when the last `Arc` is dropped. Byte lengths are modelled as character
  counts, because files are `seq<char>`.
- `Serve.TraceFilePathInjective`: paths are compared as text. `PathBuf::push` does not normalise,
  so ids such as `x` and `./x` give two path strings that the file system resolves to one file.
  The source then has two handles appending to that file; the model keys `State.disk` by path
  text and keeps two files.
- `serve::run`: daemonizing, the XDG data directory, binding and accepting on the Unix socket,
  and removing the socket file in `Drop`. This is operating-system plumbing.
- The `Symlink` and `Hardlink` arms of `handle_client` are `todo!()` panics. They name variants
  that the `Msg` enum does not declare, so no decoded message reaches them.
- Logging, the command-line front end (src/cli.rs, src/main.rs), and the listing, clearing and
  fetching commands (src/list.rs, src/clear.rs, src/dir.rs, src/get_tef.rs). These are thin I/O
  wrappers outside the daemon core.
