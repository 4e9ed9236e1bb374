# nvimdev error-list splitter, modelled in Dafny

`scripts/download_errors.py` keeps a local copy of the clint report of Neovim,
`errors.json`. The report is a newline-delimited list of JSON arrays whose first
element names the source file each ignored error belongs to. The script splits
the report into one `<key>.json` file per key under an output directory, so the
linter reads only the shard it needs. A sidecar file `.errors` holds the Etag of
the copy that was split. The next run asks the server for the Etag with a HEAD
request and does nothing when it is unchanged.

The model has two modules.

- `LineChunker` (`line_chunker.dfy`) models the generator `chunked_lines`. The
  response body is a sequence of chunks, the successive results of
  `fp.read(size)`. The first empty chunk means end of stream. `ChunkedLines` is
  the loop of the generator, with its refill buffer and its inner scan for
  newlines (`ScanLines`). It is proved equal to the specification function
  `Lines`, which splits the bytes read before end of stream into
  newline-terminated lines. The lemmas about `Lines` give the round trip with
  concatenation, streaming and prefix behaviour, and the fact that bytes after
  the last newline are dropped.
- `Download` (`download.dfy`) models `download`. The directory is a value
  `Disk`: a map from relative path to contents, plus the state of the sidecar.
  The two HTTP responses are parameters, and so is the function that reads the
  key from a line (`json.loads(...)[0]`; `None` means it raised). `Download`
  returns the outcome, the new disk and the ordered log of file effects (remove,
  open, write, close, sidecar write).

  Its contract states:
  - the etag decision;
  - that every stale shard is removed before the GET;
  - that the directory ends up holding exactly one shard per key, with that
    key's lines in stream order;
  - that a failing line stops the run with the shards written so far and leaves
    the sidecar alone;
  - that the sidecar is written last, after every shard handle was closed.

Behaviours of the code that the model reproduces:
- The tail block at lines 34-42 runs only on a buffer without a newline, so it
  never yields. Bytes after the last newline of the report are dropped
  (`LineChunker.LastLineWithoutNewlineIsDropped`).
- Shards are opened with mode `'wb'`. Every `.json` file was removed first,
  and each shard path is opened only on its first line, so each shard starts
  empty and receives its lines in order.
- The sidecar is read back with `readline` (line 60). An Etag with a line
  break before its end reads back cut short at the break. It then never equals
  the remote Etag at line 73, so every run fetches again (`Download.RerunSkips`,
  `Download.Rerun`).
- A server that sends no Etag header gives the remote Etag `''` (line 70). The
  first run writes an empty sidecar. Every later run reads back `''`, finds it
  equal, and exits with 200, so the report is never fetched again
  (`Download.MissingEtagNeverRefetches`).

## Model

| member | source | states |
|---|---|---|
| LineChunker.ConcatAppend | scripts/download_errors.py:27 | joining the yielded lines distributes over appending two lists of lines |
| LineChunker.FindNewline | scripts/download_errors.py:25-29 | `buf.find(b'\n', i)` returns -1 or an index in `[i, len(buf))` |
| LineChunker.FindNewlineFirst | scripts/download_errors.py:25-29 | find returns -1 exactly when there is no newline from `i` on; otherwise it returns a newline with none before it from `i` |
| LineChunker.FindNewlineAt | scripts/download_errors.py:25-29 | a newline at `m` with none in `[i, m)` is what find returns |
| LineChunker.RestFrom | scripts/download_errors.py:30-31 | the kept remainder starts between the cursor and the end of the buffer |
| LineChunker.LinesFromAreLines | scripts/download_errors.py:26-29 | every slice `buf[i:j+1]` that is yielded ends in its only newline |
| LineChunker.RestFromIsTail | scripts/download_errors.py:30-31 | the remainder kept in the buffer holds no newline and starts right after the last one; it is the whole buffer exactly when the buffer has no newline |
| LineChunker.LinesFromSplit | scripts/download_errors.py:26-31 | the yielded lines followed by the kept remainder rebuild the scanned buffer |
| LineChunker.LinesSplit | scripts/download_errors.py:22-32 | every line is terminated, and the lines plus the unterminated tail are the whole input |
| LineChunker.LinesFromConcat | scripts/download_errors.py:26-29 | scanning terminated lines followed by a newline-free tail yields exactly those lines and stops at the tail |
| LineChunker.LinesOfConcat | scripts/download_errors.py:22-32 | round trip: splitting the concatenation of terminated lines and a newline-free tail gives back the lines and the tail |
| LineChunker.LinesStreaming | scripts/download_errors.py:26-31 | after terminated lines, the rest of the stream splits independently of what came before |
| LineChunker.LinesPrefix | scripts/download_errors.py:22-32 | reading more bytes only extends the yielded lines |
| LineChunker.LinesIgnoreUnterminatedTail | scripts/download_errors.py:34-42 | trailing bytes without a newline add no line |
| LineChunker.LastLineWithoutNewlineIsDropped | scripts/download_errors.py:34-42 | for the stream `a\nb` only `a\n` is yielded and `b` is left over |
| LineChunker.ReadsBeforeEof | scripts/download_errors.py:21-32 | the number of reads before the first empty one: every earlier chunk is non-empty and the read that ends the loop is empty |
| LineChunker.RefillStep | scripts/download_errors.py:23 | appending a chunk to the buffer keeps "lines yielded + buffer = bytes read" |
| LineChunker.ScanLines | scripts/download_errors.py:24-31 | the inner loop yields exactly the lines of the buffer; what it leaves is the unterminated tail; the cursor stays 0 exactly when the buffer holds no newline |
| LineChunker.ChunkedLines | scripts/download_errors.py:19-42 | the generator yields exactly `Lines` of the bytes read before end of stream; every yielded item is a terminated line; the items plus the dropped tail rebuild the stream |
| Download.ShardPath | scripts/download_errors.py:91 | the shard path of a key is the key followed by `.json`: it ends in `.json` and what precedes the suffix is the key |
| Download.ShardPathInjective | scripts/download_errors.py:91 | two keys share a shard file exactly when they are the same key |
| Download.RoutedByKey | scripts/download_errors.py:89-97 | the shard file of a key receives a line exactly when the line is in the stream and its key is that key |
| Download.ReadLine | scripts/download_errors.py:60 | `readline` returns a prefix of the text: all of it when there is no newline, otherwise up to and including the first newline |
| Download.CachedEtag | scripts/download_errors.py:53-62 | the cached etag is a string exactly when the sidecar could be read, and stays the integer 0 otherwise |
| Download.Decide | scripts/download_errors.py:65-75 | abort exactly when HEAD is not 200, carrying its status; skip exactly when HEAD is 200 and the sidecar's first line equals the remote Etag; otherwise fetch with the remote Etag |
| Download.NoSidecarAlwaysFetches | scripts/download_errors.py:53-75 | without a readable sidecar the integer 0 never equals the remote Etag string, so a 200 HEAD always fetches |
| Download.MissingEtagNeverRefetches | scripts/download_errors.py:70-75 | without an Etag header the remote Etag is `''`: a sidecar whose first line is empty makes the run exit 200, any other fetches |
| Download.ChangedEtagFetches | scripts/download_errors.py:70-75 | an Etag header is compared as sent: a sidecar whose first line differs from it leads to a fetch carrying that Etag |
| Download.RerunSkips | scripts/download_errors.py:57-75 | a sidecar holding the Etag just written makes the next run skip exactly when HEAD succeeds and the Etag is a single line (no line break before its end) |
| Download.RoutedExactly | scripts/download_errors.py:89-97 | a shard receives exactly the lines whose key maps to it, in stream order |
| Download.RoutedAppend | scripts/download_errors.py:89-97 | routing a longer stream appends to each shard's lines |
| Download.ShardPathsRouted | scripts/download_errors.py:93-95 | a shard file exists exactly when at least one line was routed to it |
| Download.ShardPathsAreKeys | scripts/download_errors.py:91-95 | the shard files are exactly the `<key>.json` paths of keys that occur in the parsed lines |
| Download.ShardFilesSnoc | scripts/download_errors.py:93-97 | writing one more line appends it to its own shard and changes no other |
| Download.ShardReadsBack | scripts/download_errors.py:89-97 | reading a shard back line by line gives exactly the lines routed to it |
| Download.ShardDirectoryExact | scripts/download_errors.py:77-97 | after the run the `.json` files are exactly the shards of this stream; every other file is untouched |
| Download.OpenHandlesConcat | scripts/download_errors.py:99-102 | effects that start with no handle open leave open exactly what the later effects leave open |
| Download.OpenedConcat | scripts/download_errors.py:93-95 | the paths opened by two stretches of effects are those of the first followed by those of the second |
| Download.CloseStep | scripts/download_errors.py:99 | a close takes its path out of the open handles and opens nothing |
| Download.Parsed | scripts/download_errors.py:89-90 | the number of lines parsed before the first one whose key cannot be read |
| Download.ParsedNext | scripts/download_errors.py:89-90 | a line whose key can be read, right after the parsed ones, is parsed too |
| Download.WriteLine | scripts/download_errors.py:93-97 | opens the shard on its first line only, then appends the line; the handles stay distinct, equal to the paths written, opened once each in list order, and all open |
| Download.Partition | scripts/download_errors.py:89-97 | stops at the first unreadable line; what was written is the shard split of the lines before it; one handle per shard; the paths opened, in order, are exactly the distinct handle list, so no shard is opened twice |
| Download.RemoveShards | scripts/download_errors.py:77-80 | removes exactly the `.json` files; the log has a removal for every `.json` file and for nothing else, and opens nothing |
| Download.CloseAll | scripts/download_errors.py:99 | closes every open handle, one close per handle, leaving none open and opening nothing |
| Download.Download | scripts/download_errors.py:52-102 | the outcome and the new directory for each branch of the Etag decision (HEAD error, unchanged Etag, GET error, failing line, success); on a fetch every old `.json` file is removed; no path is opened twice; the sidecar is written only on success, as the last effect, once all handles are closed |
| Download.Rerun | scripts/download_errors.py:52-102 | a run right after a completed run with the same single-line Etag exits 200 and changes nothing; with an Etag broken across lines it does not exit 200 |

## Left out

- HTTP: the HEAD and GET responses are parameters (status, Etag, body chunks). `urlopen` raising on an error status, redirects and network failures are not modelled; a status other than 200 stands for all of them.
- Header lookup: `resp.info().get('Etag', '')` is modelled as an optional header value. Case-insensitive matching of header names is not modelled.
- JSON decoding and UTF-8 decoding of a line are the parameter `keyOf`. It returns the key (`err[0]`) or `None` when `json.loads`, the decoding or the indexing would raise. A non-string key is not modelled.
- Download.Partition: the first exception ends the run. The model reports `ParseError` with the number of lines that were parsed. The handles that are still open at that point are not closed by the script, and the model leaves them out of the log.
- Path handling: `os.path.join` with an absolute or `..` key, path normalisation and the aliasing it allows (two keys naming one file) are not modelled. A shard path is the key followed by `.json`, relative to the output directory.
- `fileopen` creating directories and the permissions it gives them are not modelled.
- `os.walk` traversal order: removals are modelled as a set of paths, so their order is not.
- The sidecar is read in text mode. Universal-newline translation is not modelled: `readline` stops at `'\n'`. An `open` that fails, as opposed to a `readline` that fails, is not modelled.
- Encoding of the Etag: `remote_etag.encode('utf8')` and the text-mode read are treated as the identity on strings.
- Chunk size: `size=8192` only shapes the chunks, and the model takes any chunking as input. Laziness is not modelled: the generator and the file writes run as one sequence.
- Buffered file contents on a crash, logging, the `DEBUG` switch, `sys.argv` handling and the process exit codes are not modelled. Exit code 200 is the `NotModified` outcome.
