# adbFS core in Dafny

adbFS is a FUSE file system that mounts an Android device's storage
through adb. It keeps a local copy of every opened file in the staging
directory `/tmp/adbfs/`. Each copy is pulled from the device on open and
pushed back on write and flush. Remote commands run through
`adb shell busybox`. Directory listings and file status come from the
adb synchronization service.

This project models three sequential parts of the bridge and proves
properties about them:

- **String side of `adbfs.cpp`** (modules `Strings`, `ShellEscape` and
  `LinkParse`):
  - the escapers `shell_escape_command`, `adb_shell_escape_command` and
    `shell_escape_path`;
  - the command lines that `shell` and `adb_shell` build;
  - the mapping from a remote path to its local copy;
  - the parsing of `ls -l` output in `adb_readlink`.
- **Open-file bookkeeping** (module `Sessions`):
  - the global maps `fileTruncated` and `filePendingWrite`;
  - the callbacks `adb_open`, `adb_write`, `adb_flush`, `adb_release` and
    `adb_truncate`, as the class `Bridge`;
  - each method is proved equal to a pure step function on a
    `BridgeState`, and the lemmas are stated about the step functions.
  - The device and the host file system are not modelled. What the
    callbacks test (the stat result, the `pwrite` result) is a parameter.
  - Every call to the outside world is appended to a log of `Event`s:
    stat, pull, push, adb shell command, and host open, write, close and
    truncate.
- **Sync-protocol client of `adb_interface.c`** (modules `Wire`,
  `Transfer` and `SyncClient`), plus the two FUSE callbacks that only
  translate its results (module `Adapter`):
  - the transfer loops `readx` and `writex`;
  - the STAT record codec in `do_stat`;
  - `i_adb_stat`, `i_adb_ls` and `do_sync_ls_cb`;
  - `adb_getattr` and `adb_readdir`.

Modelling choices:

- **`string_replacer`** is defined in `utils.h`, which is not part of this
  model. It is modelled as a left-to-right, non-overlapping replace-all
  (`Strings.ReplaceAll`).
  - Each escaper is proved equal to a one-pass reference escaper
    (`Strings.EscapeChars`), which has a proved inverse
    (`Strings.UnescapeChars`).
- **Strings are byte strings.** The source's `std::string` and `char*`
  values hold bytes. Each `char` of a modelled string stands for one byte
  (0-255), so lengths, indices and buffer sizes count bytes.
  `LinkParse.Readlink` requires its first output line to be such a string
  (`Strings.IsByteString`). Every pattern the escapers, `find` and the
  local-path mapping look for is ASCII.
- **The adb transport** is given as a script: the successive results of
  `adb_read` or `adb_write` together with the `errno` each one leaves. The
  predicate `Transfer.Answers` says the script covers every call the loop
  makes.
- **`adb_connect`, `sync_ls`, the `stat` result and the bytes of the STAT
  response** are parameters.
- **Integer widths**:
  - Words on the wire are 32-bit little-endian: `Wire.EncodeLE` and
    `Wire.DecodeLE` over a `byte` newtype.
  - C's `strlen` result is stored in an `int`, so paths are assumed
    shorter than 2^31 bytes (`SyncClient.IsCPath`).

Quirks of the code that the model keeps:

- **`adb_truncate`** pulls the remote file when `i_adb_stat` *fails*, not
  when the file exists (adbfs.cpp:392-393).
- **`adb_release`** does not push a pending file. It erases the
  descriptor's entry and closes the descriptor (adbfs.cpp:342-347).
- **`adb_write`** pushes on every call, and its local path is the escaped
  empty string (adbfs.cpp:301-315).
  - A file that is written and then flushed is pushed twice: once by the
    write, with an empty local path, and once by the flush.
  - See `Sessions.DirtySessionPushes`.
  - A failed write need not report the error of the write itself. `errno`
    is read only after the close, the push and the sync (adbfs.cpp:313-318),
    and any of them can overwrite it.
- **`adb_readlink`** takes the first ` -> ` of the `ls -l` line as the
  separator, so a link whose name contains ` -> ` gets the wrong target
  (`LinkParse.FirstArrowWins`).
- **Local paths are not derived one way everywhere.**
  - `adb_open` pulls into and opens the space-escaped local path.
  - `adb_flush`, `adb_truncate` and an open after a truncate use the
    unescaped path.
  - The two name the same file exactly when the remote path has no space
    (`Sessions.OpenAndTruncateCopies`).
- **The colour-code deletions** at the end of `adb_shell_escape_command`
  can never match. Every `;` has already been escaped by then.

## Model

| member | source | states |
|---|---|---|
| Strings.Find | adbfs.cpp:504-506 | `s.find(pat)`: the result is the first index where `pat` occurs; there is no result exactly when `pat` does not occur |
| ShellEscape.EscapeInOrderSpec | adbfs.cpp:151-165 | a chain of single-character escaping replacements, with the backslash only first and no character repeated, escapes exactly the characters of the chain: no step creates a character that a later step escapes |
| ShellEscape.ShellEscapeCommandSpec | adbfs.cpp:134-139 | `shell_escape_command` puts a backslash before every backslash, quote and backtick and changes nothing else. The length grows by the number of those characters, a command without them is unchanged, and unescaping gives the command back |
| ShellEscape.AdbEscapeSpecialsSpec | adbfs.cpp:151-165 | the fifteen escaping replacements put a backslash before each of the fifteen special characters and change nothing else |
| ShellEscape.ColourCodesNeverMatch | adbfs.cpp:158-169 | the four colour-code deletions never change the escaped command, because every `;` already follows a backslash; the function equals its first fifteen steps |
| ShellEscape.AdbShellEscapeCommandSpec | adbfs.cpp:149-170 | `adb_shell_escape_command` escapes exactly its fifteen special characters. The length grows by their count, a command without them is unchanged, it can be undone, and every `;` in the result directly follows a backslash |
| ShellEscape.ShellEscapePathSpec | adbfs.cpp:179-182 | `shell_escape_path` puts a backslash before every space and changes nothing else; the length grows by the number of spaces, and unescaping gives the path back |
| ShellEscape.CommandLinesSpec | adbfs.cpp:98-124 | `shell(c)` runs `shell_escape_command(c)` with no prefix; `adb_shell(c)` runs exactly `adb shell busybox ` followed by the escaped command. In both, unescaping recovers `c` |
| ShellEscape.AdbShellCommandLineInjective | adbfs.cpp:117-124 | two remote commands give the same `adb_shell` command line exactly when they are the same command |
| ShellEscape.LocalPathForSpec | adbfs.cpp:254-256 | the local copy's path is `/tmp/adbfs/` followed by the remote path with `/` turned into `-` and every other character kept. It is the same length as the remote path plus the prefix, and has no `/` after the prefix |
| ShellEscape.LocalPathCollision | adbfs.cpp:327-329 | two remote paths share a local copy exactly when they have the same length and agree at every position once `/` is read as `-` |
| ShellEscape.LocalPathNotInjective | adbfs.cpp:379-381 | the mapping is not injective: `/a/b` and `/a-b` share a local copy |
| LinkParse.ReadlinkCommandSpec | adbfs.cpp:494-500 | the readlink command line is exactly the busybox prefix followed by `ls -l --color=none "<path with each quote made \'>"` passed through the fifteen-character escape of `adb_shell`, so the quote-escaped path is escaped a second time; unescaping the part after the prefix gives the `ls -l` command back |
| LinkParse.TrimLeadingSlashesSpec | adbfs.cpp:507-509 | skipping leading `/` removes the whole leading run of `/` and nothing else: the result is a suffix that does not start with `/` |
| LinkParse.LinkTargetOfLine | adbfs.cpp:503-509 | for a line `name -> target` whose name has no `>`, the parsed target is `target` with its leading `/` removed |
| LinkParse.FirstArrowWins | adbfs.cpp:503-509 | for the line `a -> b -> c`, the parsed target is `b -> c`: the first arrow is taken as the separator even when it belongs to the name |
| LinkParse.Readlink | adbfs.cpp:492-516 | on output whose first line is a byte string: no output, or a first line without ` -> `, gives `-EINVAL`; a target at least as long as the buffer gives `-ENOSYS`; otherwise the target and its NUL are copied, at most `size` bytes, and the result is 0 |
| Wire.DecodeEncodeLE | adb_interface.c:168 | reading back the little-endian bytes of a number that fits gives the number; the encoding has exactly `n` bytes |
| Wire.EncodeDecodeLE | adb_interface.c:183-185 | every byte string is the little-endian encoding of the number it decodes to, and that number fits its width |
| Wire.StatRequestLayout | adb_interface.c:164-168 | the STAT request header is eight bytes: the STAT tag, then the name length, as little-endian words |
| Wire.StatRecordRoundTrip | adb_interface.c:175-185 | decoding a STAT response that the device encoded from 32-bit fields gives back those fields |
| Wire.StatRecordDecodeEncode | adb_interface.c:175-185 | any sixteen response bytes decode to four 32-bit fields that encode back to the same bytes |
| Transfer.TransferSucceedsIff | adb_interface.c:42-56 | a transfer returns 0 or -1, and returns 0 exactly when the calls before the first lasting failure move at least `len` bytes |
| Transfer.ReadX | adb_interface.c:34-64 | `readx` returns the transfer result: 0 exactly when all `len` bytes moved, -1 otherwise. Interrupted calls are retried; a disconnect or any other error stops the loop |
| Transfer.WriteX | adb_interface.c:66-92 | `writex` returns 0 exactly when all `len` bytes moved and -1 otherwise, retrying interrupted calls |
| SyncClient.StatReplyRoundTrip | adb_interface.c:179-196 | a STAT response with the STAT tag and fields that are not all zero is accepted, and yields exactly those fields |
| SyncClient.StatReplyAccepted | adb_interface.c:179-188 | an accepted response is the encoding of the STAT tag and the fields read from it, and those fields are not all zero |
| SyncClient.AllZeroIsNotFound | adb_interface.c:183-188 | a response whose mode, size and time bytes are all zero is refused, whatever its id |
| SyncClient.DoStat | adb_interface.c:160-197 | `do_stat` sends the header, then the path without terminator, then reads sixteen bytes, stopping at the first failed transfer. It returns 0 exactly when all three transfers succeed and the response is accepted. Only then, and only for a non-NULL buffer, does it fill mode, size and mtime, leaving the rest unchanged |
| SyncClient.IStat | adb_interface.c:199-216 | `i_adb_stat` returns -1 when the connect fails (with no transfer) or `do_stat` fails; it returns 0, after calling `sync_quit`, exactly when both succeed. This is the contract documented at adb_interface.h:21-26: the buffer may be absent, and then only existence is reported |
| SyncClient.ILs | adb_interface.c:128-155 | `i_adb_ls` returns -1 for a missing callback, a failed connect or a failed `sync_ls`, and otherwise the number of entries. Entry `i` reaches the callback with its name, a zeroed stat holding its mode, size and time, and the caller's cookie. So, as documented at adb_interface.h:13-18, -1 is an error, 0 a success with no entries, and a positive result a success with that many entries |
| SyncClient.DoSyncLsCb | adb_interface.c:111-126 | the callback adds exactly one to the counter and forwards the name, a zeroed stat with the entry's mode, size and time, and the cookie unchanged |
| Adapter.Getattr | adbfs.cpp:201-210 | `adb_getattr` returns 0 exactly when the connect and the STAT exchange succeed, and `-ENOENT` otherwise. On success the zeroed buffer holds the device's mode, size and mtime; on failure it stays zero |
| Adapter.Readdir | adbfs.cpp:214-244 | `adb_readdir` returns 0 exactly when the listing succeeded with at least one entry, and `-ENOENT` otherwise, so an empty and a failed listing look the same. Every delivered entry reaches `filler` once, in order, with its stat |
| Sessions.Touch | adbfs.cpp:334 | reading a flag with `operator[]` inserts a missing key as false and keeps every other entry |
| Sessions.OpenAfterTruncateMark | adbfs.cpp:260-281 | opening a path that a truncate marked clears the mark, leaves every other flag, asks the device nothing, opens the unescaped local copy and returns 0 |
| Sessions.OpenMissing | adbfs.cpp:260-264 | opening an unmarked path that the device does not report returns `-ENOENT` after one stat, with no pull and no flag changed |
| Sessions.OpenPulls | adbfs.cpp:260-281 | opening an unmarked path that the device reports issues one stat and one pull into the space-escaped local path, then opens that path. It pushes nothing, changes no flag, and returns 0 whatever the pull and open do |
| Sessions.WriteMarksPending | adbfs.cpp:300-320 | a write marks its descriptor pending and leaves other descriptors alone. It pushes once with an empty local path, runs one `sync`, pulls nothing, and returns `pwrite`'s count or `-errno` |
| Sessions.FlushPushesIffPending | adbfs.cpp:323-340 | a flush pushes the unescaped local copy and runs `sync` exactly when its descriptor is pending. Afterwards the descriptor is present and clear, other descriptors are unchanged, and the result is 0 |
| Sessions.FlushIdempotent | adbfs.cpp:334-338 | a second flush with no write in between changes nothing and returns 0 |
| Sessions.ReleaseDrops | adbfs.cpp:342-347 | a release removes its descriptor, keeps every other descriptor, returns 0, and pushes and pulls nothing |
| Sessions.TruncateMarks | adbfs.cpp:374-401 | a truncate always leaves its path marked and every other mark unchanged. It issues one stat, pulls into the unescaped local path exactly when that stat fails, pushes nothing, and returns the host truncate's result |
| Sessions.OpenAndTruncateCopies | adbfs.cpp:266-279 | the local path an open pulls into equals the one a truncate uses exactly when the remote path has no space |
| Sessions.TruncateThenOpen | adbfs.cpp:392-396 | after a truncate, an open asks the device nothing, opens the local copy the truncate worked on, and clears the mark |
| Sessions.FlushTwiceThenRelease | adbfs.cpp:334-346 | from a pending descriptor, two flushes and a release push the local copy exactly once, pull nothing, and drop the descriptor |
| Sessions.OpenThenWrite | adbfs.cpp:260-316 | opening from the device and writing pulls once into the escaped local path, pushes once with an empty local path, and leaves the descriptor pending |
| Sessions.DirtySessionPushes | adbfs.cpp:300-346 | open, write, two flushes and release pull once and push exactly twice: first with an empty local path from the write, then from the local copy at the first flush |
| Sessions.Bridge.constructor | adbfs.cpp:88-89 | both maps start empty, with nothing logged |
| Sessions.Bridge.Open | adbfs.cpp:249-282 | `adb_open` changes the maps and the log as `OpenStep` says, and returns its result |
| Sessions.Bridge.Write | adbfs.cpp:300-320 | `adb_write` changes the maps and the log as `WriteStep` says, and returns its result |
| Sessions.Bridge.Flush | adbfs.cpp:323-340 | `adb_flush` changes the maps and the log as `FlushStep` says, and returns 0 |
| Sessions.Bridge.Release | adbfs.cpp:342-347 | `adb_release` erases the descriptor's entry as `ReleaseStep` says, and returns 0 |
| Sessions.Bridge.Truncate | adbfs.cpp:374-401 | `adb_truncate` changes the maps and the log as `TruncateStep` says, and returns the host truncate's result |

## Left out

- Startup and registration (`main`) and the reset of the staging directory (`clearTmpDir`): process and file-system I/O.
- `exec_command` and `make_array` from `utils.h`, which is not part of this model. Commands are modelled up to the command line handed to `exec_command`; command output is a parameter (`LinkParse.Readlink`'s `output`).
- `string_replacer` from `utils.h` is not part of this model: it is modelled as a left-to-right, non-overlapping replace-all.
- `adb_connect`, `sync_ls`, `sync_quit`, `do_sync_pull` and `do_sync_push` come from the adb client, which is not part of this model.
  - Their results are parameters.
  - `sync_quit` is recorded only as the `quit` flag.
  - Pulls and pushes are logged events.
- The numeric value of `ID_STAT` comes from `file_sync_service.h`, which is not part of this model. The proofs use only that it fits in 32 bits.
- `i_adb_pull` and `i_adb_push` (adb_interface.c:220-232, adb_interface.h:29-39) only forward to `do_sync_pull` and `do_sync_push`. Every caller ignores their results, so they are logged events without a result.
- Host file operations (`open`, `pwrite`, `close`, `truncate`) are logged events. Their results are parameters (`written`, `truncRet`) or, for `open`, not used. The `errno` a failed write reports is a parameter too: it is the error number as it stands after the close, the push and the sync (adbfs.cpp:313-318).
  - The descriptor `adb_open` stores in `fi->fh` is not modelled.
  - Later callbacks take the descriptor as a parameter.
- `adb_read`, `adb_access`, `adb_utimens`, `adb_mknod`, `adb_mkdir`, `adb_rename`, `adb_rmdir` and `adb_unlink` are not modelled. They touch neither map.
  - `adb_mknod` creates the host node, pushes it and runs `sync`, ignoring both results.
  - The others only run shell commands or host file operations whose results are ignored.
- The `stat -t` output that `adb_truncate` reads with `output.front()` and `make_array` is never used. The command is logged; what `front()` does on empty output is not modelled.
- `fileData` timestamp bumps: `fileCache` is defined in `utils.h`, which is not part of this model, and nothing reads the timestamps.
- Logging (`cout`, `DL`, `TRACE`) and the `ADB_TRACE` blocks.
- Concurrency: the callbacks are modelled as sequential calls on one bridge. The unsynchronised sharing of the global maps between FUSE threads is not captured.
- `SyncClient.ILs`: `assert(cb_func)` is taken as compiled out, so a missing callback returns -1 as the code after the assertion does.
- `SyncClient.DoStat`: requires a path shorter than 2^31 bytes with no NUL byte. A longer path would make `strlen`'s result wrap in the `int`, and that case is not modelled.
- `Transfer.ReadX`: requires a script that answers every call the loop makes. An endless run of interrupted calls, which would keep the loop running forever, is therefore not modelled. The same holds for `Transfer.WriteX`, `SyncClient.DoStat`, `SyncClient.IStat` and `Adapter.Getattr`.
- `Sessions.Bridge.Release`: requires the descriptor to have an entry. Erasing the iterator `find` returns for a missing key is undefined behaviour, so that case is not modelled.
- `struct stat` is a value (`SyncClient.StatBuf`) with the three fields the bridge writes and the others as a block; pointers and aliasing of the buffer are not modelled.
