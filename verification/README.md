# virtualfish: REPL framing and init-script loader, modelled in Dafny

This project models two sequential pieces of virtualfish.

**The fish REPL driver's framing protocol** (`virtualfish/test/repl.py`).
The test driver runs fish on a companion REPL script and talks to it through pipes.
It frames every message with the byte 0x00:

- the driver writes a command followed by one 0x00;
- the REPL answers with the command's standard output and a 0x00 on stdout;
- then its standard error and a 0x00 on stderr;
- then the exit status as decimal text and a 0x00 on stdout.

`q_until_null` reads one frame: it takes queue items until it meets the item `b'\0'`.
`Fish.run` sends one command and collects the three frames.
In the model, a queue is the byte sequence it will deliver. A read returns the frame and what is left of the stream. A stream that never carries the sentinel stands for the read that waits forever.

- `Frames` (`frames.dfy`): the frame reader on bytes (`ReadFrame`), its round trip and uniqueness, and the splitting of a whole stream into frames. It also holds the literal loop over queue items (`QUntilNull`). That loop compares each item with `b'\0'`, appends `c[0]` otherwise, and meets the empty item `read(1)` returns at end of stream. The read pump's queue of one-byte items (`Pump`) ties the loop to the byte-level reader.
- `Status` (`status.dfy`): `int()` applied to the status frame, restricted to ASCII, and the decimal rendering the REPL prints. The parser follows base-10 `int()` as Python 3.6 and later define it. It strips C-locale whitespace only: tab to carriage return, and space. It accepts one sign, and single underscores between digits.
- `Runner` (`runner.dfy`): a session as its three streams, one `run` call, and a series of calls.

**The init-script builder** `load` (`virtualfish/loader/__init__.py`), in module `Loader` (`loader.dfy`).
It builds the fish commands that set up virtualfish:

- the version line and the interpreter line;
- sourcing `virtual.fish`;
- sourcing one file per plugin, in order;
- the `emit virtualfish_did_setup_plugins` event.

It fails with `ValueError("Plugin does not exist: <name>")` on the first missing plugin.
The package version, `sys.executable`, the base directory and `os.path.exists` are parameters.
`os.path.join` is modelled as POSIX `posixpath.join` of two parts.

`Wrappers` (`wrappers.dfy`) holds the `Option` and `Result` types.

## Model

| member | source | states |
|---|---|---|
| Frames.ReadFrame | virtualfish/test/repl.py:36-42 | The reader waits forever exactly when the stream has no 0x00. Otherwise the frame holds no 0x00, the stream is frame + 0x00 + rest, and exactly frame length + 1 bytes are consumed. |
| Frames.FrameRoundTrip | virtualfish/test/repl.py:37-42 | For a payload without 0x00, reading payload + 0x00 + rest returns that payload and leaves exactly rest. |
| Frames.ReadFrameCharacterised | virtualfish/test/repl.py:36-42 | Reading gives (p, rest) if and only if p has no 0x00 and the stream is p + 0x00 + rest: the frame is the bytes before the first sentinel. |
| Frames.EmptyFrame | virtualfish/test/repl.py:37-41 | A stream that starts with 0x00 yields the empty frame and consumes exactly that one byte. |
| Frames.QUntilNull | virtualfish/test/repl.py:36-42 | The item loop returns one of three outcomes, decided by the first item that is not an ordinary non-empty, non-sentinel chunk. At a `b'\0'` item it returns the first bytes of all earlier items. At an empty item it raises IndexError. If there is no such item it waits forever. |
| Frames.PumpFrame | virtualfish/test/repl.py:36-42 | The read pump queues one single-byte chunk per byte (line 19). On that queue the item loop returns exactly the byte-level frame and leaves the chunks of exactly the remaining bytes. |
| Frames.PumpNoSentinel | virtualfish/test/repl.py:39-42 | The stream may end before any 0x00. Then the loop takes the empty item `read(1)` returns and fails on `c[0]`. Without an end of stream it waits forever. |
| Status.ParseRejectsDigitless | virtualfish/test/repl.py:91 | A status frame without a single digit, the empty frame included, is rejected: `int()` raises. |
| Status.ParsePlainDigits | virtualfish/test/repl.py:91 | A status frame made only of digits parses to the decimal number they write. |
| Status.ParseSigned | virtualfish/test/repl.py:91 | For any digit run `int()` accepts (digits, with single underscores between two digits), a leading `-` gives the negated value and a leading `+` gives the value itself. |
| Status.ParseRender | virtualfish/test/repl.py:91 | Parsing the decimal rendering of any integer status returns that status. |
| Status.ParseRenderPadded | virtualfish/test/repl.py:91 | Whitespace that `int()` strips (tab to carriage return, and space) around the rendering, such as a trailing newline, still parses to the same status. |
| Runner.CommandRoundTrip | virtualfish/test/repl.py:87-88 | The command bytes plus one 0x00, read as a frame by the REPL, give back exactly the command, provided it has no 0x00. |
| Runner.Run | virtualfish/test/repl.py:87-92 | On success, stdin grows by exactly the command and one 0x00. stderr loses exactly the error frame and its sentinel. stdout loses exactly the output frame, a status frame that parses to the returned status, and two sentinels. On a rejected status frame, stdin has grown the same way. That frame is one `int()` refuses. On streams that never end, the run blocks on stdout exactly when stdout has no 0x00. It blocks on stderr exactly when stdout has one and stderr has none. It blocks on the status frame exactly when both have one and stdout has no second one. |
| Runner.RunFrames | virtualfish/test/repl.py:87-92 | Take streams that hold an output frame and a status frame on stdout and an error frame on stderr. The run consumes exactly those three frames and appends the command and one 0x00 to stdin. It returns the output, the error and the parsed status when `int()` accepts the status frame. Otherwise it raises ValueError on that frame, leaving that same session. |
| Runner.RunReply | virtualfish/test/repl.py:87-92 | Against one well-formed reply (output frame and status frame on stdout, error frame on stderr), a run returns exactly that output, error and status, and leaves exactly the bytes after the reply. |
| Runner.RunAll | virtualfish/test/repl.py:72-92 | When a series of runs completes, it gives one result per command. The stdin stream is then the previous contents followed by each command and its 0x00, in order. |
| Runner.RunAllReplies | virtualfish/test/repl.py:72-92 | No cross-attribution: K runs over streams made of K well-formed replies return, for the k-th call, exactly the k-th reply's output, error and status. |
| Runner.ScriptRoundTrip | virtualfish/test/repl.py:87-88 | The REPL splits its stdin into frames and recovers every command in order, when no command contains 0x00. |
| Loader.FirstMissing | virtualfish/loader/__init__.py:16-21 | The index of the first plugin whose file does not exist: every earlier plugin exists and this one does not. |
| Loader.PluginLines | virtualfish/loader/__init__.py:16-21 | The loop succeeds if and only if every plugin file exists. It then gives one `. <path>` line per plugin, in input order. On failure the error is `Plugin does not exist: ` + the first missing plugin. |
| Loader.Load | virtualfish/loader/__init__.py:7-24 | Succeeds if and only if every plugin exists. The result has 4 + the number of plugins lines: version line, interpreter line, `. <base>/virtual.fish`, one source line per plugin in order, then `emit virtualfish_did_setup_plugins`. On failure it names the first missing plugin. |
| Loader.LoadNoPlugins | virtualfish/loader/__init__.py:7-24 | With no plugins the result is exactly the three header lines and the set-up event. |
| Loader.FixedLinesIndependent | virtualfish/loader/__init__.py:10-23 | The first three lines and the last line do not depend on the plugin list or on which files exist. |
| Loader.LoadAppendPlugin | virtualfish/loader/__init__.py:16-23 | Appending an existing plugin leaves success unchanged. It adds exactly its source line just before the final event. |
| Loader.JoinShape | virtualfish/loader/__init__.py:17 | A plugin path ends with `<plugin>.fish`. A relative name keeps the base in front. For a base with no trailing `/` and a name not starting with `/`, the path is base + `/` + name. |

## Left out

- Threads, daemon flags and blocking `Queue.get`/`put` (repl.py lines 11-34) are not modelled. Queues are the sequences they will deliver, and a read that would block forever is a `Pending`, `Blocked` or `Starved` outcome.
- Process creation with `subprocess.Popen`, and the hard-coded fish path, are not modelled: they are process I/O with no logic. The companion `repl.fish` script is not part of this model. Its replies are described by `Runner.StdoutReply` and `Runner.StderrReply`, following the emission order `run` relies on.
- The child's output does not react to what is written to its stdin. The stdout and stderr streams are given in advance, because the REPL's behaviour is not part of this model.
- The `__main__` demo (repl.py lines 94-102) needs a real fish process.
- Encoding a `str` command as UTF-8 (repl.py line 86) is left out: commands are bytes.
- `run` does not check that a command is free of 0x00 and neither does the model. The round-trip lemmas state that condition as a requirement.
- Status.ParseRejectsDigitless, Status.ParsePlainDigits, Status.ParseSigned: the status parser covers ASCII frames only. Python's `int()` also accepts Unicode digits and Unicode whitespace after UTF-8 decoding. The model rejects any byte outside ASCII, where Python may accept it or raise UnicodeDecodeError.
- Runner.Run: the stdout and stderr streams are taken as never ending, so a missing 0x00 is a `Blocked` outcome. When the child exits, `read(1)` returns `b''` and `q_until_null` raises IndexError instead. That end-of-stream error is modelled only at item level, by `Frames.QUntilNull` and `Frames.PumpNoSentinel`.
- Status.ParseRender: the limit on the digit count of `int()` is not modelled. Python 3.11 and later (and the 3.7.14, 3.8.14, 3.9.14 and 3.10.7 security releases) raise ValueError above 4300 digits. That limit can be changed at run time. The model parses any integer's rendering, as earlier Python versions do.
- `pkg_resources.get_distribution`, `sys.executable`, `os.path.abspath`/`dirname` and `os.path.exists` (loader lines 8-9 and 18) are parameters of `Loader.Load`.
