# remote_subl protocol engine, modelled in Dafny

remote_subl is a Sublime Text plugin that speaks the `rmate` protocol. A
remote shell connects over TCP and sends one or more transfers. Each transfer
is an `open` line, then `key: value` header lines (`token`, `real-path`,
`display-name`, `data`, ...), then exactly `data` bytes of payload. The plugin
writes each payload to a private temporary file and opens it in an editor
view. Saving the view sends a `save` frame with the file's new content back
over the same connection. Closing the view sends a `close` frame, deletes the
temp file and counts the transfer off the connection. The connection's socket
is shut down when its last transfer is closed.

The model follows the Python source statement by statement, in two layers:

- **Step functions** (pure):
  - `Parse.Step`: one line of `Session.parse_input`.
  - `Payload.Append`: `File.append`.
  - `Connection.TryClose`: `Session.try_close`.
  - `Actions.CloseSteps`, `Actions.SaveSteps`, `Actions.OpenSteps`: `File.close`, `File.save` and `File.open`.
  - `Registry.TempDir`: `File.get_temp_dir`.
  - `Frames.SaveFrame` and `Frames.CloseFrame`: the bytes each frame puts on the wire.
  - `Disk.SaveBuffer`: the editor writing a saved view's buffer to its temp file, which happens before `on_post_save_async` runs.
  - The lemmas about these functions state the protocol's properties.
  - The functions cover the UTF-8 codec, `str.strip`, the header and `display-name` splits and `int()`, each as Python behaves.
- **Objects** (imperative):
  - `Remote.Session` holds the connection count, the bytes sent, whether the socket is open, `parsing_data` and the current `File`.
  - `Remote.File` is the transfer being read.
  - `Remote.Plugin` holds the `FILES` registry, the temp files on disk and each view's `remote_subl.base_name` setting.
  - `Remote.Handle` is the read loop of `ConnectionHandler.handle`.
  - Each method's postcondition ties the new state to the step function, including what was sent on every connection involved.

An exception is an `Error` value. A step that raises keeps every effect it had
before the raise, as Python does. An exception that escapes `parse_input` ends
the read loop.

The model keeps these behaviours of the code as written:

- An `open` line installs a fresh transfer and adds one to `nconn`, but does not reset `parsing_data`. An `open` in payload mode therefore leaves the new transfer in payload mode without a `file_size`, and the next line raises in `append` (`Parse.OpenDuringPayload`).
- A `data` value that `int()` rejects raises, and so does a `display-name` with two or more colons. The header is stored in `env` before either raises.
- `get_temp_dir` reuses a directory only for a registered transfer with the same `real-path` and the same truthy host. A transfer whose host is None or empty always gets a new directory (`Registry.NoHostNoReuse`, `Registry.NoHostNoSharing`).
- `get_temp_dir` stops at the first registered transfer it cannot go past (`Registry.ScanStops`). It raises `KeyError` when that transfer, or this one, has no `real-path` header: a registered transfer without one raises only if the scan reaches it before a match, and this transfer's own missing `real-path` raises nothing while `FILES` is empty. It raises `AttributeError` on a missing `host` only when a candidate with a truthy host is reached.
- `close(remove=True)` deletes the temp file and its directory without asking whether another transfer shares them. Closing the second of two sharing transfers then raises before `try_close`, so that connection's count never drops (`Actions.SharedTempFileClose`).
- A base name that is empty, `.` or `..` joins with the directory into a path that is a directory. Writing the temp file fails, and the cleanup's `os.remove` of that directory raises (`Disk.WriteTemp`).
- A zero or negative `data` size makes the first payload line complete an empty payload (`Payload.AppendNonPositive`).
- Once a connection's count has reached zero its socket is closed for good. A later transfer over the same connection raises on the first send of its close, so it never reaches `try_close` and the count stays where it was (`Actions.CloseAfterLast`, `Connection.ReopenAfterZero`).
- However `handle` ends, the TCP server then shuts down and closes the connection's socket, even while transfers opened over it are still registered (`Remote.Handle`). Their later saves and closes raise on the first send.

## Model

| member | source | states |
|---|---|---|
| Bytes.ReadLines | remote_subl.py:254-258 | the lines `readline()` yields concatenate back to the stream; each is non-empty, holds a line feed only as its last byte, and every line but the last ends with one |
| Trim.Strip | remote_subl.py:155 | the result is a slice of the input that neither starts nor ends with white space, and everything dropped on either side is white space |
| Trim.StripUnique | remote_subl.py:155 | an input made of white space, a middle part that neither starts nor ends with white space, and white space strips to that middle part |
| Trim.StripKeeps | remote_subl.py:155 | every byte or character that is not white space survives `strip()` |
| Trim.StripTrimmed | remote_subl.py:174-179 | a value with no white space at either end is its own strip |
| Utf8.Encode | remote_subl.py:60 | `str.encode("utf8")`: only the empty string encodes to no bytes, and each character takes one to four bytes |
| Utf8.Decode | remote_subl.py:172 | `bytes.decode("utf8")`: the empty line decodes to the empty string, and a decoded string has no more characters than the line had bytes |
| Utf8.EncodeChar | remote_subl.py:60 | one to four bytes; the first is a line feed exactly for `\n`, and the rest are continuation bytes |
| Utf8.DecodeEncode | remote_subl.py:172 | decoding the UTF-8 encoding of any string gives the string back |
| Utf8.EncodeDecode | remote_subl.py:172 | bytes that decode re-encode to themselves byte for byte |
| Utf8.EncodeConcat | remote_subl.py:60 | the encoding of a concatenation is the concatenation of the encodings |
| Utf8.EncodeNoLineFeed | remote_subl.py:60 | a string without `\n` encodes to bytes without a line feed |
| Text.FirstColon | remote_subl.py:177 | the position of the first colon, or the length when there is none, with no colon before it |
| Text.SplitHeader | remote_subl.py:173-179 | None exactly when the line has no colon; otherwise the key holds no colon |
| Text.SplitHeaderJoin | remote_subl.py:177-179 | `k:v` with a colon-free key splits into the stripped key and the stripped value, whatever colons the value holds |
| Text.SplitDisplayName | remote_subl.py:185-190 | raises exactly when the value has two or more colons; no colon gives no host and the whole value as base name; one colon gives the two halves |
| Text.JoinDisplayName | remote_subl.py:186-187 | host and base name without colons, joined by a colon, split back into the same two |
| Text.DisplayNameExamples | remote_subl.py:185-190 | `host1:foo.txt` gives host `host1` and base name `foo.txt`; `foo.txt` gives no host |
| Text.ParseInt | remote_subl.py:183 | a value is accepted exactly when it is a digit group, or a sign followed by one; an accepted value holds only digits, underscores and a leading sign, and only a leading `-` makes it negative |
| Text.ParseIntValue | remote_subl.py:183 | an accepted value is the value of its digits, negated after a `-` |
| Text.DigitsValueUnderscore | remote_subl.py:183 | underscores do not change the value of a run of digits |
| Text.ParseIntExamples | remote_subl.py:183 | `12`, `-3`, `+7` and `1_000` are accepted with their values; the empty value, `abc`, `1.5`, `1__0`, `_1` and `1_` are refused |
| Text.DecimalString | remote_subl.py:73 | `str(n)` is non-empty, all digits, and starts with `0` only for zero |
| Text.ParseDecimalString | remote_subl.py:183 | `int(str(n)) == n`, and `int("-" + str(n)) == -n` |
| Payload.Prefix | remote_subl.py:55 | Python's `s[:n]`: a prefix of `s`, of length `n` when `0 <= n <= len(s)`, the whole of `s` when `n` is larger, and counted from the end when `n` is negative |
| Payload.Append | remote_subl.py:50-56 | `ready` exactly when it was set or the data reaches the size; a line is added whole while the sum stays below the size; the buffer is cut to the size once it reaches it |
| Payload.AppendAfterFull | remote_subl.py:50-56 | once the data has exactly the declared size, appending changes nothing and `ready` stays set |
| Payload.AppendNonPositive | remote_subl.py:50-56 | with a size of zero or less, the first line sets `ready` with an empty payload |
| Payload.Feed | remote_subl.py:160-166 | every line is used unless `ready` was set, and then feeding stops; a non-empty run of lines uses at least one |
| Payload.FeedSpec | remote_subl.py:50-56 | feeding lines sets `ready` exactly when their total reaches the size; the line that reaches it is the last one used, and the data is the first `size` bytes collected; otherwise every line is kept whole |
| Payload.FeedReachesSize | remote_subl.py:50-56 | after lines whose total reaches a positive size, the payload has exactly that size and is a prefix of the lines' concatenation |
| Parse.AppendLine | remote_subl.py:50-56 | raises only when no `file_size` was set, and then changes nothing; otherwise the data and `ready` are those of `Payload.Append`, and the headers stay the same |
| Parse.SetHeader | remote_subl.py:180-190 | `env[k] = v` with other keys untouched; `data` sets `file_size` and payload mode, unless `int()` raises; `display-name` sets host and base name, unless the split raises; the data is unchanged |
| Parse.Step | remote_subl.py:154-190 | an `open` line installs a fresh transfer, keeps `parsing_data`, and is the only step that starts a transfer; with no transfer and not in payload mode any other line changes nothing; only a payload line that does not raise and sets `ready` completes a transfer |
| Parse.PayloadStep | remote_subl.py:160-166 | payload mode is kept; `append` without a transfer raises `AttributeError` and completes nothing; with a transfer, the new transfer and the error are those of `Parse.AppendLine`, and the payload completes exactly when the append raised nothing and made the transfer ready |
| Parse.HeaderStep | remote_subl.py:168-190 | a header line never starts or completes a transfer; an undecodable line raises and changes nothing |
| Parse.OpenLineOf | remote_subl.py:155 | `open` with white space of any kind, line feeds included, on either side is an `open` line |
| Parse.OpenLineShape | remote_subl.py:155 | every `open` line is `open` with only white space before and after it |
| Parse.InitialInv | remote_subl.py:147-152 | a new session satisfies the parser invariant |
| Parse.StepKeepsInv | remote_subl.py:154-190 | every step that does not raise keeps the invariant, and the payload is completed only from a transfer that was not ready, so `open` runs at most once per transfer |
| Parse.OpenDuringPayload | remote_subl.py:155-161 | an `open` in payload mode leaves a fresh transfer still in payload mode, and the next line raises on the missing `file_size` |
| Parse.StepPayload | remote_subl.py:160-166 | in payload mode with a size, a line goes to `append`, never raises, and completes the transfer exactly when `append` sets `ready` |
| Parse.HeaderLineReads | remote_subl.py:172-179 | a header line `k: v` as the remote side writes it is not `open`, decodes, and splits back into `k` and `v` |
| Parse.StepHeaderAny | remote_subl.py:172-190 | any line `k:v` whose key has no colon, with any white space around key and value and any colons in the value, does in header mode exactly what `Parse.SetHeader` says for the stripped key and the stripped value |
| Parse.HeaderSplit | remote_subl.py:174-179 | stripping and splitting such a decoded line gives the stripped key and the stripped value |
| Trim.StripAround | remote_subl.py:174-179 | around a character that is not white space, `strip()` trims only the left end of what precedes it and the right end of what follows it |
| Trim.StripTrimLeft | remote_subl.py:179 | trimming the left end first does not change `strip()` |
| Trim.StripTrimRight | remote_subl.py:179 | trimming the right end first does not change `strip()` |
| Parse.StepHeaderLine | remote_subl.py:172-190 | a header line `k: v` in header mode does exactly what `Parse.SetHeader` says for `k` and `v` |
| Parse.StepDataHeader | remote_subl.py:180-184 | `data: n` stores the header, sets `file_size` to `n` and enters payload mode without raising |
| Parse.StepDisplayHeader | remote_subl.py:180-190 | `display-name: v` stores the header and raises exactly when `v` has two or more colons; with no colon it sets no host and base name `v`; with one colon it sets the two halves |
| Parse.StepNoColon | remote_subl.py:168-175 | in header mode, a decodable line with no colon after stripping changes nothing |
| Frames.NextLine | remote_subl.py:59-75 | the remote side's reader of the frames sent at these lines, the inverse that `ReadSaveFrame` and `ReadCloseFrame` use: a complete first line is split off so that line, line feed and rest make up the input, and the line holds no line feed |
| Frames.After | remote_subl.py:60 | part of the remote side's reader of the token line sent here, used by `ReadSaveFrame` and `ReadCloseFrame`: the rest after a prefix, which rebuilds the line |
| Frames.ReadTokenLine | remote_subl.py:60 | the token line of a token without `\n` reads back as the token's UTF-8 bytes |
| Frames.ReadDataLine | remote_subl.py:73 | the `data: N` line reads back as `N` |
| Frames.ReadSaveFrame | remote_subl.py:67-75 | a save frame reads back as the token's bytes and exactly the file content, and the reader stops right after it |
| Frames.SaveFrame | remote_subl.py:67-75 | the frame starts with the `save` line and ends with the file content and a line feed |
| Frames.CloseFrame | remote_subl.py:58-61 | the frame starts with the `close` line and ends with the token line's line feed and an empty line |
| Frames.ReadCloseFrame | remote_subl.py:58-61 | a close frame reads back as the token's bytes, and the reader stops right after it |
| Disk.Mkdtemp | remote_subl.py:88 | a new directory that no earlier call returned, empty, with every other file untouched |
| Disk.WriteTemp | remote_subl.py:98-111 | the write succeeds when the directory exists and the name names a file in it; a missing directory changes nothing and raises nothing, since `open` swallows the failure; a name that is empty, `.` or `..` makes the path a directory, and the cleanup's `os.remove` raises `IsADirectoryError` |
| Disk.SaveBuffer | remote_subl.py:200-207 | the editor's save leaves the buffer in a file whose directory exists, keeps every other file, and changes nothing when the path cannot be written |
| Disk.ReadFile | remote_subl.py:70-72 | succeeds exactly for an existing file, yielding its content |
| Disk.Unlink | remote_subl.py:63 | succeeds exactly for an existing file, which it removes; otherwise nothing changes |
| Disk.Rmdir | remote_subl.py:64 | succeeds exactly for an existing, empty directory, which it removes; otherwise nothing changes |
| Disk.WriteReadRemove | remote_subl.py:98-102 | a file written into a fresh directory reads back as written, and removing it and then the directory leaves the directories as they were |
| Registry.ScanTempDir | remote_subl.py:79-82 | reuse only of the directory of a registered transfer with the same `real-path` and the same truthy host; no match only when no registered transfer qualifies; a failed scan is a missing `real-path` or `host`; this transfer's own missing `real-path` raises exactly when the registry is not empty |
| Registry.ScanStops | remote_subl.py:79-82 | the scan's outcome is decided by the first registered transfer it does not go past: none gives no match, a missing `real-path` on it or on this transfer gives `KeyError`, a candidate while this transfer has no host gives `AttributeError`, and a match reuses its directory |
| Registry.ScanStopExists | remote_subl.py:79-82 | every scan has such a first transfer, or goes past them all |
| Registry.ScanFindsFirst | remote_subl.py:79-82 | when the headers are present, the scan reuses the directory of the first matching transfer |
| Registry.TempDir | remote_subl.py:77-91 | a reused directory belongs to a registered transfer; otherwise it is the one `mkdtemp` makes; a failure leaves the disk as it was |
| Registry.NoHostNoReuse | remote_subl.py:81 | a transfer whose host is None or empty always gets a new directory |
| Registry.Transfers | remote_subl.py:79 | `FILES.values()` in insertion order |
| Registry.Lookup | remote_subl.py:131 | finds an entry exactly when one is registered under the view, and the entry found is registered under it |
| Registry.Remove | remote_subl.py:132 | drops the view's entry and keeps every other entry, still one per view |
| Registry.Register | remote_subl.py:131-140 | the new entry is present and every other view's entry is kept |
| Registry.RegisterLookup | remote_subl.py:131-140 | after registering, there is still one entry per view, the new entry is the one found under its view, and every other view finds what it found before |
| Registry.LookupUnique | remote_subl.py:131 | with one entry per view, the entry held under a view is the one found |
| Registry.RegisterKeepsSharing | remote_subl.py:77-91 | registering a transfer in the directory `get_temp_dir` chose keeps the rule that two transfers share a directory exactly when they have the same `real-path` and the same truthy host |
| Registry.NoHostNoSharing | remote_subl.py:81 | a registered transfer without a truthy host shares its directory with no other |
| Connection.Send | remote_subl.py:59 | the data is appended to what was sent when the socket is open; sending on a closed socket raises and sends nothing |
| Connection.TryClose | remote_subl.py:192-196 | the count drops by one; the socket is closed exactly when the count reaches zero; only a second shutdown raises |
| Connection.Run | remote_subl.py:58-65 | what was sent only grows; a run that raises nothing has sent the close frame of every close in order and ends with the starting count plus opens minus closes; a closed socket is never reopened |
| Connection.RunPositive | remote_subl.py:58-65 | while the count stays positive, nothing raises, the socket stays open, every close frame is sent in order and the count is the start plus opens minus closes |
| Connection.ClosedByLastClose | remote_subl.py:192-196 | when the count stays positive until the last event and ends at zero, in any order of opens and closes, the last event is a close and it alone shuts the socket, after every close frame including its own was sent |
| Connection.OpensThenCloses | remote_subl.py:192-196 | K opens then K closes on a new connection shut the socket on the K-th close and not before |
| Connection.ReopenAfterZero | remote_subl.py:55-61 | after the count returns to zero, a new open and close raises on the close's first send, its frame is not sent, and the count stays at one |
| Actions.CloseIsEvent | remote_subl.py:58-65 | a close that keeps its temp file does to the connection exactly what a `Closed` event carrying its close frame does: same bytes sent, same count, same socket state, same exception |
| Actions.CloseAfterLast | remote_subl.py:55-61 | the close that brings the count to zero shuts the socket after sending its frame; a later close over that connection raises on its first send and changes neither the connection nor the disk |
| Actions.RemoveTemp | remote_subl.py:63-64 | succeeds exactly when the temp file exists and is the only file in its directory; it then removes both |
| Actions.CloseSteps | remote_subl.py:58-65 | without error, exactly the close frame is sent and the count drops; `remove=False` leaves the disk alone; a missing token or a failed removal raises before `try_close` |
| Actions.SaveSteps | remote_subl.py:67-75 | succeeds exactly when the socket is open, the token is set and the temp file exists; it then sends exactly the save frame of the file's content; the count and socket are untouched |
| Actions.OpenSteps | remote_subl.py:93-127 | an entry is produced exactly when nothing raised; it carries this transfer's headers, host and base name, the view the editor opened for the temp path, and, in an existing directory, the payload written to the temp file; the errors are the scan's, a missing `base_name`, or the cleanup of a name that is a directory; it raises nothing exactly when the scan succeeds, a `display-name` came and the temp path is not a directory; a failed scan leaves the disk as it was, while a missing `base_name` or the cleanup's error leaves the directory `get_temp_dir` made; when the chosen directory is gone, nothing is written |
| Actions.OpenKeepsSharing | remote_subl.py:93-140 | registering what `File.open` produced keeps one entry per view and the directory-sharing rule |
| Actions.EditThenSave | remote_subl.py:200-216 | whatever buffer the user saved into an existing temp file is what `save` sends back, in a frame that reads back as that buffer |
| Actions.OpenThenSave | remote_subl.py:67-75 | a transfer whose directory exists once it is opened, when saved unmodified, sends its payload back byte for byte in a save frame that reads back as that payload |
| Actions.SharedTempFileClose | remote_subl.py:62-65 | of two transfers sharing a temp file, closing the first deletes the file and its directory, and closing the second raises on the missing file after sending its close frame, without counting itself off |
| Remote.OwnersOfRegister | remote_subl.py:140 | registering adds at most the new transfer's session to the sessions with registered transfers |
| Remote.Session.constructor | remote_subl.py:147-152 | a new session has a zero count, nothing sent, an open socket and the initial parser |
| Remote.Session.Send | remote_subl.py:59 | the connection afterwards is `Connection.Send` of the one before |
| Remote.Session.TryClose | remote_subl.py:192-196 | the connection afterwards is `Connection.TryClose` of the one before |
| Remote.Session.ParseInput | remote_subl.py:154-190 | the parser and `nconn` move as `Parse.Step` says; a completed payload is opened as `Actions.OpenSteps` says, after which the session drops the transfer and leaves payload mode unless the open raised; only the displaced transfer's connection changes, as `close(remove=False)` says |
| Remote.Session.ReadLine | remote_subl.py:259 | a line that does not raise keeps the parser invariant; what was sent only grows |
| Remote.Session.PayloadInput | remote_subl.py:160-166 | `append` moves the parser as `Parse.PayloadStep` says; a completed payload is opened as in `ParseInput` |
| Remote.Session.Complete | remote_subl.py:162-165 | `File.open` as `Actions.OpenSteps` says, then `parsing_data = False` and `file = None` unless the open raised |
| Remote.Session.HeaderInput | remote_subl.py:168-190 | the parser afterwards is `Parse.HeaderStep` of the one before |
| Remote.Session.SetHeader | remote_subl.py:180-190 | the transfer and payload mode afterwards are `Parse.SetHeader` of the ones before |
| Remote.File.constructor | remote_subl.py:44-48 | a new transfer belongs to its session and has no headers, no data and `ready` unset |
| Remote.File.Append | remote_subl.py:50-56 | the transfer afterwards is `Parse.AppendLine` of the one before, raising only without a `file_size` |
| Remote.File.Place | remote_subl.py:93-123 | the disk, the entry and the error are those of `Actions.OpenSteps`; the registry invariant holds, and holds after registering the entry |
| Remote.File.Open | remote_subl.py:93-140 | the disk, registry, settings and error are those of `Actions.OpenSteps` and registration; the displaced transfer's connection gets `close(remove=False)`, and no other connection changes |
| Remote.Plugin.constructor | remote_subl.py:15 | an empty registry, no temp files and no view settings |
| Remote.Plugin.Close | remote_subl.py:58-65 | the owner's connection and the disk afterwards are those of `Actions.CloseSteps` |
| Remote.Plugin.Adopt | remote_subl.py:126-140 | the view gets its base-name setting; the previous entry is popped and closed without removal, whatever that raises; the new entry is registered; the registry invariant holds; only the displaced owner's connection changes |
| Remote.Plugin.Save | remote_subl.py:67-75 | the owner's connection afterwards is `Actions.SaveSteps` of the one before |
| Remote.Plugin.OnClose | remote_subl.py:218-227 | a view without a base-name setting changes nothing; an unregistered view raises `KeyError`; otherwise the entry is popped and closed with removal as `Actions.CloseSteps` says; the registry invariant holds and no other connection changes; a view that is not a remote file leaves every connection as it was |
| Remote.Plugin.OnPostSave | remote_subl.py:200-216 | a view without a base-name setting changes nothing; an unregistered view raises `KeyError`; otherwise the owner's connection gets what `Actions.SaveSteps` says, and no other connection changes; a view that is not a remote file leaves every connection as it was |
| Remote.Handle | remote_subl.py:248-259 | what was sent starts with the greeting; the loop runs `parse_input` on the lines `readline()` yields, and ends without an exception exactly when it parsed all of them; in that case the parser invariant holds at the end; the registry invariant always holds; when it ends, the session's socket is closed |

## Left out

- The editor: windows, `new_window`, the active window, status-bar text, `error_message` and `run_command` are left out. Opening a file is an oracle `editor` from temp path to view id. The `remote_subl.host` setting and the `:selection:0` encoded position are not modelled; the `remote_subl.base_name` setting is.
- `on_activated` and `RemoteSublUpdateStatusBarCommand` (remote_subl.py:229-244) only update the status bar, so they are not part of this model.
- `subl` and `set_timeout` (remote_subl.py:19-36, 143) launch a process and refocus the editor; they are left out.
- The TCP server, its threads, `plugin_loaded` and `unload_handler` (remote_subl.py:264-287) are left out. Concurrent sessions, and the lack of locking between them, are not modelled: every operation runs to completion alone.
- Logging through `say` (remote_subl.py:39-40) and `print` is left out.
- `socket.send` is taken to send all its data or raise. Partial sends, and a peer that goes away without the plugin closing the socket, are not modelled.
- `tempfile.mkdtemp` never fails, so the `OSError` branch of `get_temp_dir` (remote_subl.py:89-91) is not modelled. Other `OSError`s (permissions, a full disk) are not modelled either.
- `os.path.join` is taken as directory plus base name. A base name that is absolute or holds a path separator is not modelled.
- `int()` is modelled for ASCII digits, an optional sign and single underscores between digits. Non-ASCII Unicode digits are not modelled.
- Text.ParseInt: Python's limit on the number of digits `int()` converts from a string (4300 by default, above which it raises `ValueError`) is not modelled; a longer `data` value is accepted here.
- Remote.Session.ReadLine: states only the invariant the read loop needs; the full effect of a line is `Remote.Session.ParseInput`'s postcondition.
- Remote.Handle: states the greeting, how many lines were parsed and the parser invariant, but not the final registry or connection state line by line; each line's full effect is `Remote.Session.ParseInput`'s postcondition.
