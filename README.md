# file-utils processors in Dafny

A model of the processors in `src/FileUtils.ts` of the RDF-Connect
file-utils package, with proofs about them. Every processor writes to a
downstream channel. The model records what it does to that channel as a
log of events: a whole `Buffer`, a `Text`, a `Stream` of byte chunks, a
timer wait (`Pause`) and the final `Close`.

- `GlobRead` reads every file a glob pattern matches during `init`. In
  `produce` it sends each file: as a one-chunk stream when the file is
  strictly larger than 5 MiB, as a buffer otherwise. After each file it
  waits `wait` ms. It closes the channel when `closeOnEnd` is set.
- `ReadFolder` lists a folder recursively during `init`. In `produce` it
  handles the listed names in order. Before each name it runs a memory
  watchdog: it sleeps `pause` ms when the heap is above `maxMemory` GiB.
  The size test is made on a `stat` of the folder path itself, so all files
  of one run take the same branch. Large means streamed in 1024-byte chunks;
  otherwise the file is sent as a buffer. A name that cannot be read ends
  the stage without a close.
- `GetFileFromFolder` receives file names and routes each one by its own
  size: streamed in chunks, or read as UTF-8 text.
- `Substitute` replaces every occurrence of a literal token, as
  JavaScript's `String.prototype.replaceAll` does with a string pattern.
  That includes the `$$`, `$&`, `` $` `` and `$'` replacement patterns and
  the empty token. Strings are sequences of characters, not of UTF-16 code
  units (see "## Left out").
- `Envsub` folds `replaceAll("${KEY}", value)` over the environment in key
  order. It skips keys whose value is empty.
- `UnzipFile` emits one buffer per archive entry. `GunzipFile` emits one
  buffer per decompressed input. A corrupt input is dropped, and the run
  goes on with the next input.

Every processor ends its run with a single `close()`, with four
exceptions. `GlobRead` does not close when `closeOnEnd` is false.
`ReadFolder.produce` and `GetFileFromFolder` do not close when a read
throws. `Substitute` in regular-expression mode builds its `RegExp`
without the `g` flag, so `replaceAll` throws a `TypeError` on the first
message and the `close()` after the loop is never reached; it closes only
when no message arrives.

Modules:
- `Wrappers`: `Option`.
- `Events`: the event log, its counting functions, `FlatMap` and the
  `Writer` class.
- `FileChunks`: `readFileInChunks`.
- `Runs`: loops whose iteration can throw.
- `Replace`: `replaceAll`.
- `Sources`: `GlobRead`, `ReadFolder` and `GetFileFromFolder`.
- `TextRewrite`: `Substitute` and `Envsub`.
- `Decompress`: `UnzipFile` and `GunzipFile`.

Choices the code makes:
- The size boundary is strict: a file of exactly 5 MiB is sent whole.
- `GunzipFile` emits a buffer, not a stream.
- `ReadFolder` decides stream or buffer from the folder's own `stat`, not
  the file's.
- `readFileInChunks` is the only producer of multi-chunk streams.
  `GlobRead` streams each large file as a single chunk.

## Model

| member | source | states |
|---|---|---|
| Sources.ReadAll | src/FileUtils.ts:29-34 | `Promise.all` over the reads of the matched paths: it succeeds exactly when every read succeeds, and then holds every file's bytes in match order |
| Sources.GlobRead.constructor | src/FileUtils.ts:20 | the file list starts empty |
| Sources.GlobRead.Init | src/FileUtils.ts:22-35 | `wait`, `closeOnEnd` and `binary` default to 0, true and false; the stored files are the read results, and the list is left as it was when `init` rejects |
| Sources.GlobRead.Produce | src/FileUtils.ts:39-55 | what it appends to the writer is, per file in order, its emission followed by a `wait` ms pause, then `Close` only when `closeOnEnd` |
| Sources.GlobReadShape | src/FileUtils.ts:40-49 | the loop's log has 2n events: event 2i is file i's emission and event 2i+1 is `Pause(wait)` |
| Sources.GlobReadOnePerFile | src/FileUtils.ts:39-55 | exactly one payload per file, in file order; exactly one pause per file; with `closeOnEnd`, one close and it is the last event; without it, no close |
| Sources.GlobFileRouting | src/FileUtils.ts:43-47 | a file is streamed if and only if it is strictly larger than 5 MiB; the stream flattens back to the file; otherwise it is sent as a buffer of the same bytes |
| FileChunks.ReadFileInChunks | src/FileUtils.ts:58-64 | the chunks yielded by a read stream with the given `highWaterMark` |
| FileChunks.FlattenChunks | src/FileUtils.ts:58-64 | concatenating the chunks gives back the file's bytes |
| FileChunks.ChunkSizes | src/FileUtils.ts:58-64 | every chunk is non-empty and no longer than `highWaterMark` |
| Sources.ReadFolder.constructor | src/FileUtils.ts:72-74 | stores the folder; the listing is unset (`undefined`) until `init` succeeds |
| Sources.ReadFolder.Init | src/FileUtils.ts:75-87 | `maxMemory` and `pause` default to 3 and 5000; it succeeds exactly when the folder can be listed, and then stores the listing; when it rejects, the listing stays as it was, unset after construction |
| Sources.ReadFolder.Produce | src/FileUtils.ts:91-112 | appends the log of the per-name loop: the watchdog, then the emission; ends with `Close` when every name was read, and ends at the first unreadable name otherwise; with the listing unset, iterating it throws, so it fails and writes nothing |
| Sources.ProduceFolder | src/FileUtils.ts:92-111 | the loop and the final close, against the same specification as `ReadFolder.Produce` |
| Sources.FolderIteration | src/FileUtils.ts:95-107 | one iteration: a `pause` ms wait exactly when the heap sample is above `maxMemory` GiB, then the file's emission; failure exactly when the name is not a readable file |
| Sources.ReadFolderEmitsEachFile | src/FileUtils.ts:92-111 | the run completes if and only if every listed name is readable; the payloads are the listed files in order; a failed run stops at the first unreadable name and never closes; a completed run closes once, at the end |
| Sources.WatchdogNeverDrops | src/FileUtils.ts:95-98 | the watchdog only delays: for any two heap histories the run has the same outcome and the same payloads |
| Sources.FractionalLimit | src/FileUtils.ts:95 | the limit `maxMemory` is a number of GiB and may be fractional: with 1.5, one byte above 1.5 GiB pauses and exactly 1.5 GiB does not |
| Sources.WatchdogPauses | src/FileUtils.ts:95-98 | the number of pauses equals the number of heap samples above the limit among the names the loop reached |
| Sources.FolderRouting | src/FileUtils.ts:100-107 | every emitted file takes the branch chosen by the folder's size: a chunked stream (chunks of at most 1024 bytes that flatten to the file) when the folder is larger than 5 MiB, a buffer of the file otherwise |
| Sources.GetFileFromFolder | src/FileUtils.ts:181-195 | appends, per incoming name, that file's own emission; ends with `Close` when all names were readable, and stops at the first unreadable one otherwise |
| Sources.EmitFile | src/FileUtils.ts:186-192 | one name's emission, chosen by that file's size |
| Sources.GetFileOnePerName | src/FileUtils.ts:181-195 | completes if and only if every name is a readable file; one output per name, in order, up to the first failure; closes once, at the end, and only on completion |
| Sources.GetFileRouting | src/FileUtils.ts:186-192 | a file strictly larger than 5 MiB is sent as a chunked stream that flattens back to it; any other file is sent as its UTF-8 text |
| Sources.GetFileNeverWaits | src/FileUtils.ts:181-195 | `GetFileFromFolder` never pauses |
| Sources.SizeBoundary | src/FileUtils.ts:43 | a file of exactly 5 MiB is sent whole by `GlobRead` and `GetFileFromFolder`, and one byte more is streamed; `ReadFolder` sends a buffer when the folder's size is exactly 5 MiB and streams at one byte more |
| TextRewrite.Substitute.constructor | src/FileUtils.ts:120-128 | stores `source`, `replace` and `regexp` |
| TextRewrite.Substitute.Init | src/FileUtils.ts:130-132 | in literal mode the pattern is the source string, which makes the processor `Ready` |
| TextRewrite.Substitute.Transform | src/FileUtils.ts:133-140 | on a processor that `init` made ready in literal mode, appends one text per input, each being `replaceAll(source, replace)` of that input, then `Close` |
| TextRewrite.SubstituteOnePerInput | src/FileUtils.ts:134-137 | exactly one output per input, in order, and output i is `replaceAll` of input i |
| TextRewrite.SubstituteUnchanged | src/FileUtils.ts:136 | an input that does not contain a non-empty token passes through unchanged; replacing a `$`-free token by itself changes nothing |
| TextRewrite.SubstituteStage | src/FileUtils.ts:133-140 | the outputs are all the payloads; no waits; exactly one close, at the end |
| TextRewrite.SubstituteExample | tests/Functional.test.ts:46-52 | "This text should be {REPLACE_ME}" with "{REPLACE_ME}" replaced by "Good Text" gives "This text should be Good Text" |
| Replace.ReplaceAll | src/FileUtils.ts:136 | `replaceAll` with a string pattern: matches are found left to right and never overlap, each is replaced by the replacement with its `$`-patterns expanded, and the empty pattern matches at every position, the end included; a non-empty pattern that does not occur leaves the input unchanged |
| Replace.Expand | src/FileUtils.ts:136 | the replacement for one match: `$$` is `$`, `$&` the match, `` $` `` the text before it, `$'` the text after it, any other `$` stays; a replacement without `$` is inserted literally |
| Replace.ReplaceBySelf | src/FileUtils.ts:136 | replacing a `$`-free pattern by itself is the identity |
| Replace.ReplaceFirst | src/FileUtils.ts:136 | `replaceAll` rewrites the leftmost match and then continues after it: when the pattern occurs in `a + pat + b` right after `a` and nowhere earlier, and the replacement has no `$`, the output is `a`, then the replacement, then `replaceAll` of `b` |
| Replace.ContextFree | src/FileUtils.ts:136 | with a `$`-free replacement, the text already scanned does not affect the rest of the result |
| Replace.CopyPrefix | src/FileUtils.ts:136 | a prefix `a` of the text at none of whose positions a match of the pattern starts is copied through unchanged |
| Replace.FirstCharAbsent | src/FileUtils.ts:136 | if the pattern's first character does not occur in `a`, no match starts inside `a` |
| Replace.LeftmostExample | src/FileUtils.ts:136 | `"aab".replaceAll("ab", "X")` is `"aX"`: a failed partial match at position 0 does not hide the match at position 1 |
| Replace.ReplaceAround | src/FileUtils.ts:136 | when no match overlaps a middle part `m` of the text, `m` is kept as it is and the text on either side is replaced on its own |
| TextRewrite.Placeholder | src/FileUtils.ts:160 | the placeholder for a key is `${`, then the key, then `}` |
| TextRewrite.EnvFold | src/FileUtils.ts:157-162 | one message after the `forEach` over the keys in order: each key with a non-empty value has its placeholder replaced by that value, empty values are skipped; a message without `$` is left unchanged whatever the environment |
| TextRewrite.SubstituteEnv | src/FileUtils.ts:157-162 | the `forEach` over the environment, as a fold in key order that skips empty values |
| TextRewrite.Envsub | src/FileUtils.ts:153-167 | appends one text per input, each being the environment fold applied to it, then `Close` |
| TextRewrite.EnvsubOnePerInput | src/FileUtils.ts:155-165 | exactly one output per input, in order |
| TextRewrite.EnvsubStage | src/FileUtils.ts:153-167 | the outputs are all the payloads; no waits; exactly one close, at the end |
| TextRewrite.EnvFoldAppend | src/FileUtils.ts:157-162 | folding over two halves of the environment is folding over the first half, then over the second |
| TextRewrite.EnvFoldUntouched | src/FileUtils.ts:157-162 | a text that contains no placeholder of a key with a non-empty value is left unchanged |
| TextRewrite.PlaceholderApart | src/FileUtils.ts:160 | the placeholders of two different keys without `$` or `}` never overlap |
| TextRewrite.PlaceholderKept | src/FileUtils.ts:160 | replacing the placeholder of one key keeps the placeholder of another key in place and rewrites the text on either side of it on its own |
| TextRewrite.EnvFoldKeepsUnset | src/FileUtils.ts:157-162 | the placeholder of an unset or empty variable survives, next to placeholders of set ones that are replaced, when no set key contains `$` or `}`, no set value contains `$`, and the variable's name contains neither |
| TextRewrite.EnvsubExample | tests/Functional.test.ts:69-75 | with `REPLACE_ME=Good Text` anywhere in the environment, "This text should be ${REPLACE_ME}" becomes "This text should be " + "Good Text", provided no earlier variable's placeholder occurs in the input |
| Decompress.WriteEntries | src/FileUtils.ts:215-218 | writes the entries' data in archive order; stops at the first entry whose data cannot be read |
| Decompress.UnzipFile | src/FileUtils.ts:210-225 | appends, per input in order, the events of its archive, then `Close` |
| Decompress.ArchiveOutput | src/FileUtils.ts:213-222 | an archive yields only buffers; an unreadable archive yields nothing; a readable one yields its entries' data in order, up to the first unreadable entry, and all of them when all are readable |
| Decompress.UnzipIsolation | src/FileUtils.ts:211-223 | one input's archive decides only its own part of the output: a corrupt archive in the middle leaves what precedes and follows it unchanged |
| Decompress.UnzipStage | src/FileUtils.ts:210-225 | only buffers are emitted; exactly one close, at the end |
| Decompress.GunzipFile | src/FileUtils.ts:235-249 | appends, per input in order, its decompressed buffer or nothing, then `Close` |
| Decompress.GunzipOutput | src/FileUtils.ts:238-247 | the outputs are the successfully decompressed inputs, in order, as buffers, at most one per input; when every input decompresses, one buffer per input |
| Decompress.GunzipIsolation | src/FileUtils.ts:238-247 | a corrupt input contributes nothing and leaves the rest of the output unchanged; a valid one contributes exactly its decompressed buffer |
| Decompress.GunzipStage | src/FileUtils.ts:235-249 | the outputs are all the payloads; exactly one close, at the end |
| Runs.RunOutcome | src/FileUtils.ts:92-108 | a loop whose iterations may throw completes if and only if no iteration throws; it emits one payload per iteration before the first throw; the loop itself never closes |
| Runs.RunPauses | src/FileUtils.ts:95-98 | the pauses in a run are those of the iterations it reached |
| Runs.RunStuck | src/FileUtils.ts:92-108 | nothing happens after the first thrown iteration |
| Runs.StageCloses | src/FileUtils.ts:110-111 | a completed stage closes once, at the end; a failed stage never closes |

## Left out

- File-system access (`glob`, `readFile`, `readdir`, `access`, `stat`, `createReadStream`) is modelled by values. Read results are `Option`s. A folder is its `stat` size plus a map from listed name to bytes. A failing read is a name missing from that map. `ReadFolder.produce` calls `stat` on the folder again in every iteration, and that call can throw too (for example when the folder is removed after `init`). The model's `Folder.size` always exists and stays the same for the whole run.
- Glob pattern expansion and `path.normalize`, `path.join` and `path.resolve` are not modelled: the matched files and the listed names are inputs.
- `readdir` with `recursive: true` also lists sub-directories. Reading one throws, so the model treats a sub-directory as a name with no file behind it.
- In ReadFolder's streamed branch, a missing file surfaces in the source only when the stream is consumed. The model ends the stage at that name instead.
- TextRewrite.Substitute.Init: requires `!regexp`. The regular-expression mode (`new RegExp(source)`) is left out, because ECMAScript regular expressions are outside this model. In the source that mode throws a `TypeError` on every message, because the `RegExp` lacks the `g` flag that `replaceAll` demands.
- `memoryUsage().heapUsed` is an input: one heap sample per listed name. The second sample, read only for the log message, is not modelled.
- `setTimeout` and `sleep` are recorded as `Pause(ms)` events; no real time passes.
- `wait` and `pause` are whole numbers of milliseconds, and the model records them as configured. Node truncates a fractional timer delay, and sets a delay below 1 ms, above 2147483647 ms or `NaN` to 1 ms. The model does not apply either rule. `maxMemory` is a `real`, so a fractional GiB limit is modelled.
- Log messages (`logger.*`, `console.log`) are not modelled.
- The ZIP and gzip formats are parameters. `unzip` maps an input to an unreadable archive, or to archive entries whose data may fail to read. `gunzip` maps an input to its decompressed bytes, or to `None`.
- `Buffer.from(data.buffer)` hands AdmZip the whole `ArrayBuffer` behind the input without copying it. For a pooled or sliced `Buffer`, that memory also holds bytes outside the input. The model hands `unzip` exactly the input bytes.
- UTF-8 decoding in `GetFileFromFolder` is a parameter `utf8`.
- Strings are sequences of Unicode scalar values, while JavaScript strings are sequences of UTF-16 code units. This changes `replaceAll` results whenever the pattern itself is empty and the text holds a character outside the Basic Multilingual Plane: JavaScript inserts the replacement between the two surrogate halves too (`"😀".replaceAll("", "-")` has five code units), and the model does not.
- `readFileInChunks` is modelled as cutting the file into slices of exactly `highWaterMark` bytes, the last one shorter. This is an idealisation of a read stream over a regular file; `FileChunks.ChunkSizes` holds by construction of that slicing.
- GlobRead's `binary` flag is stored with its default and not used, as in the source.
- Concurrency between stages, back-pressure and the asynchronous scheduling of `for await` are not modelled. Each processor's log is sequential.
- The `transform` and `produce` methods the source leaves empty are not modelled.
