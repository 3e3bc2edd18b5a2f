/** Open-file bookkeeping of the FUSE bridge (adbfs.cpp): the global maps
    `fileTruncated` (remote path to flag) and `filePendingWrite` (local file
    descriptor to flag), and the callbacks `adb_open`, `adb_write`,
    `adb_flush`, `adb_release` and `adb_truncate` that read and update them.
    The device and the host file system are outside the model: the results
    the callbacks test are parameters, and every call they make to the
    outside world is appended to a log of events. */
module Sessions {
  import opened Strings
  import opened ShellEscape
  import opened Posix

  /** A call the bridge makes outside itself. */
  datatype Event =
    | RemoteStat(path: string)                // i_adb_stat(path, NULL)
    | Pull(remote: string, local: string)     // i_adb_pull(rpath, lpath)
    | Push(local: string, remote: string)     // i_adb_push(lpath, rpath)
    | AdbShell(command: string)               // adb_shell(command)
    | LocalOpen(local: string)                // open on the host
    | LocalWrite(fd: int)                     // pwrite on the host
    | LocalClose(fd: int)                     // close on the host
    | LocalTruncate(local: string, size: int) // truncate on the host

  /** The bridge's state: both maps and everything it has called so far. */
  datatype BridgeState = BridgeState(truncated: map<string, bool>, pending: map<int, bool>, log: seq<Event>)

  /** The new state after a callback, and the value the callback returns. */
  datatype Outcome = Outcome(state: BridgeState, ret: int)

  /** The command `adb_write` and `adb_flush` hand to `adb_shell`. */
  const SyncCommand: string := "sync"

  /** The command `adb_truncate` hands to `adb_shell` before its stat. */
  function StatTCommand(path: string): string
  {
    "stat -t \"" + path + "\""
  }

  /** The flag stored for `k`, false when there is none. */
  predicate Get<K>(m: map<K, bool>, k: K)
  {
    k in m && m[k]
  }

  /** Reading `m[k]` with `operator[]`: a missing key is inserted with the
      value false; everything else stays. */
  function Touch<K(!new)>(m: map<K, bool>, k: K): (r: map<K, bool>)
    ensures k in r && (r[k] <==> Get(m, k))
    ensures forall j :: j != k ==> (j in r <==> j in m)
    ensures forall j :: j in m ==> j in r && r[j] == m[j]
  {
    if k in m then m else m[k := false]
  }

  // ---------------------------------------------------------------------
  // What each callback does, as a function of the state before it

  /** `adb_open(path, fi)`. `statRet` is what `i_adb_stat(path, NULL)`
      returns when it is called. */
  function OpenStep(s: BridgeState, p: string, statRet: int): Outcome
  {
    var t := Touch(s.truncated, p);
    if !Get(s.truncated, p) then
      if statRet != 0 then
        Outcome(s.(truncated := t, log := s.log + [RemoteStat(p)]), -ENOENT)
      else
        var local := ShellEscapePath(LocalPathFor(p));
        Outcome(s.(truncated := t, log := s.log + [RemoteStat(p), Pull(p, local), LocalOpen(local)]), 0)
    else
      Outcome(s.(truncated := t[p := false], log := s.log + [LocalOpen(LocalPathFor(p))]), 0)
  }

  /** `adb_write(path, buf, size, offset, fi)` on descriptor `fd`. `written`
      is what `pwrite` returns; `errno` is the error number as it stands
      after the close, the push and the sync that follow the write, which
      may have overwritten the one `pwrite` left. */
  function WriteStep(s: BridgeState, p: string, fd: int, written: int, errno: int): Outcome
  {
    var local := ShellEscapePath("");
    Outcome(s.(pending := s.pending[fd := true],
               log := s.log + [LocalWrite(fd), LocalClose(fd), Push(local, p), AdbShell(SyncCommand)]),
            if written == -1 then -errno else written)
  }

  /** `adb_flush(path, fi)` on descriptor `fd`. */
  function FlushStep(s: BridgeState, p: string, fd: int): Outcome
  {
    if Get(s.pending, fd) then
      Outcome(s.(pending := s.pending[fd := false],
                 log := s.log + [Push(LocalPathFor(p), p), AdbShell(SyncCommand)]), 0)
    else
      Outcome(s.(pending := Touch(s.pending, fd)), 0)
  }

  /** `adb_release(path, fi)` on descriptor `fd`; erasing the entry found for
      `fd` requires that there is one. */
  function ReleaseStep(s: BridgeState, fd: int): Outcome
    requires fd in s.pending
  {
    Outcome(s.(pending := s.pending - {fd}, log := s.log + [LocalClose(fd)]), 0)
  }

  /** `adb_truncate(path, size)`. `statRet` is what `i_adb_stat(path, NULL)`
      returns and `truncRet` what the host `truncate` returns. */
  function TruncateStep(s: BridgeState, p: string, size: int, statRet: int, truncRet: int): Outcome
  {
    var local := LocalPathFor(p);
    var pull := if statRet != 0 then [Pull(p, local)] else [];
    Outcome(s.(truncated := s.truncated[p := true],
               log := s.log + [AdbShell(StatTCommand(p)), RemoteStat(p)] + pull + [LocalTruncate(local, size)]),
            truncRet)
  }

  // ---------------------------------------------------------------------
  // Views of the log

  datatype Kind = StatKind | PullKind | PushKind | ShellKind

  predicate IsKind(e: Event, k: Kind)
  {
    match k
    case StatKind => e.RemoteStat?
    case PullKind => e.Pull?
    case PushKind => e.Push?
    case ShellKind => e.AdbShell?
  }

  /** The events of kind `k`, in order. */
  function Only(evs: seq<Event>, k: Kind): seq<Event>
    decreases |evs|
  {
    if evs == [] then []
    else if IsKind(evs[0], k) then [evs[0]] + Only(evs[1..], k)
    else Only(evs[1..], k)
  }

  lemma {:induction false} OnlyConcat(a: seq<Event>, b: seq<Event>, k: Kind)
    ensures Only(a + b, k) == Only(a, k) + Only(b, k)
    decreases |a|
  {
    if a == [] {
      assert a + b == b;
    } else {
      assert (a + b)[1..] == a[1..] + b;
      OnlyConcat(a[1..], b, k);
    }
  }

  /** The one-event log `[e]` viewed for kind `k`. */
  function Keep(e: Event, k: Kind): seq<Event>
  {
    if IsKind(e, k) then [e] else []
  }

  lemma OnlyCons(e: Event, rest: seq<Event>, k: Kind)
    ensures Only([e] + rest, k) == Keep(e, k) + Only(rest, k)
  {
    assert ([e] + rest)[1..] == rest;
  }

  /** Viewing a two-event log keeps each event of the kind, in order. */
  lemma Only2(e1: Event, e2: Event, k: Kind)
    ensures Only([e1, e2], k) == Keep(e1, k) + Keep(e2, k)
  {
    assert Only([e2], k) == Keep(e2, k) by {
      OnlyCons(e2, [], k);
      assert [e2] + [] == [e2];
    }
    OnlyCons(e1, [e2], k);
    assert [e1] + [e2] == [e1, e2];
  }

  lemma Only3(e1: Event, e2: Event, e3: Event, k: Kind)
    ensures Only([e1, e2, e3], k) == Keep(e1, k) + (Keep(e2, k) + Keep(e3, k))
  {
    var t := Only([e2, e3], k);
    assert Only([e1, e2, e3], k) == Keep(e1, k) + t by {
      OnlyCons(e1, [e2, e3], k);
      assert [e1] + [e2, e3] == [e1, e2, e3];
    }
    assert t == Keep(e2, k) + Keep(e3, k) by {
      Only2(e2, e3, k);
    }
  }

  lemma Only4(e1: Event, e2: Event, e3: Event, e4: Event, k: Kind)
    ensures Only([e1, e2, e3, e4], k) == Keep(e1, k) + (Keep(e2, k) + (Keep(e3, k) + Keep(e4, k)))
  {
    var t := Only([e2, e3, e4], k);
    assert Only([e1, e2, e3, e4], k) == Keep(e1, k) + t by {
      OnlyCons(e1, [e2, e3, e4], k);
      assert [e1] + [e2, e3, e4] == [e1, e2, e3, e4];
    }
    assert t == Keep(e2, k) + (Keep(e3, k) + Keep(e4, k)) by {
      Only3(e2, e3, e4, k);
    }
  }

  /** The events a step appended. */
  function Added(s: BridgeState, o: Outcome): seq<Event>
    requires |s.log| <= |o.state.log|
  {
    o.state.log[|s.log|..]
  }

  /** Every key other than `k` is present in both maps or in neither, with
      the same flag. */
  ghost predicate SameElsewhere<K(!new)>(m: map<K, bool>, n: map<K, bool>, k: K)
  {
    forall j :: j != k ==> (j in m <==> j in n) && Get(m, j) == Get(n, j)
  }

  // ---------------------------------------------------------------------
  // Properties of each callback

  /** Opening a file that a truncate left marked consumes the mark, asks the
      device nothing and opens the unescaped local copy the truncate made. */
  lemma OpenAfterTruncateMark(s: BridgeState, p: string, statRet: int)
    requires Get(s.truncated, p)
    ensures var o := OpenStep(s, p, statRet);
      |s.log| <= |o.state.log| &&
      o.ret == 0 && !Get(o.state.truncated, p) && SameElsewhere(s.truncated, o.state.truncated, p) &&
      o.state.pending == s.pending &&
      Only(Added(s, o), StatKind) == [] && Only(Added(s, o), PullKind) == [] &&
      Added(s, o) == [LocalOpen(LocalPathFor(p))]
  {
    var o := OpenStep(s, p, statRet);
    assert Added(s, o) == [LocalOpen(LocalPathFor(p))];
  }

  /** Opening an unmarked file that the device does not report fails with
      `-ENOENT` after one stat, without a pull or a change of any flag. */
  lemma OpenMissing(s: BridgeState, p: string, statRet: int)
    requires !Get(s.truncated, p) && statRet != 0
    ensures var o := OpenStep(s, p, statRet);
      |s.log| <= |o.state.log| &&
      o.ret == -ENOENT &&
      (forall q :: Get(o.state.truncated, q) == Get(s.truncated, q)) &&
      o.state.pending == s.pending &&
      Added(s, o) == [RemoteStat(p)] && Only(Added(s, o), PullKind) == []
  {
    var o := OpenStep(s, p, statRet);
    assert Added(s, o) == [RemoteStat(p)];
  }

  /** Opening an unmarked file the device reports issues exactly one stat
      and one pull, into the space-escaped local path, and then opens that
      same path; it returns 0 whatever the pull and the open do. */
  lemma OpenPulls(s: BridgeState, p: string)
    ensures var o := OpenStep(s, p, 0);
      |s.log| <= |o.state.log| &&
      (!Get(s.truncated, p) ==>
        o.ret == 0 &&
        (forall q :: Get(o.state.truncated, q) == Get(s.truncated, q)) &&
        o.state.pending == s.pending &&
        Only(Added(s, o), StatKind) == [RemoteStat(p)] &&
        Only(Added(s, o), PullKind) == [Pull(p, ShellEscapePath(LocalPathFor(p)))] &&
        Only(Added(s, o), PushKind) == [] &&
        Added(s, o)[|Added(s, o)| - 1] == LocalOpen(ShellEscapePath(LocalPathFor(p))))
  {
    var o := OpenStep(s, p, 0);
    if !Get(s.truncated, p) {
      var local := ShellEscapePath(LocalPathFor(p));
      assert Added(s, o) == [RemoteStat(p), Pull(p, local), LocalOpen(local)];
      Only3(RemoteStat(p), Pull(p, local), LocalOpen(local), StatKind);
      Only3(RemoteStat(p), Pull(p, local), LocalOpen(local), PullKind);
      Only3(RemoteStat(p), Pull(p, local), LocalOpen(local), PushKind);
    }
  }

  /** A write marks its descriptor pending, pushes once with an empty local
      path and runs one sync, and returns `pwrite`'s count or `-errno`. */
  lemma WriteMarksPending(s: BridgeState, p: string, fd: int, written: int, errno: int)
    ensures var o := WriteStep(s, p, fd, written, errno);
      |s.log| <= |o.state.log| &&
      Get(o.state.pending, fd) && SameElsewhere(s.pending, o.state.pending, fd) &&
      o.state.truncated == s.truncated &&
      Only(Added(s, o), PushKind) == [Push("", p)] &&
      Only(Added(s, o), ShellKind) == [AdbShell(SyncCommand)] &&
      Only(Added(s, o), PullKind) == [] &&
      o.ret == (if written == -1 then -errno else written)
  {
    var o := WriteStep(s, p, fd, written, errno);
    assert ShellEscapePath("") == "";
    var sync := AdbShell(SyncCommand);
    assert Added(s, o) == [LocalWrite(fd), LocalClose(fd), Push("", p), sync];
    Only4(LocalWrite(fd), LocalClose(fd), Push("", p), sync, PushKind);
    Only4(LocalWrite(fd), LocalClose(fd), Push("", p), sync, ShellKind);
    Only4(LocalWrite(fd), LocalClose(fd), Push("", p), sync, PullKind);
  }

  /** A flush pushes the unescaped local copy and syncs exactly when its
      descriptor is pending, and leaves the descriptor present and clear. */
  lemma FlushPushesIffPending(s: BridgeState, p: string, fd: int)
    ensures var o := FlushStep(s, p, fd);
      |s.log| <= |o.state.log| &&
      o.ret == 0 &&
      fd in o.state.pending && !Get(o.state.pending, fd) &&
      SameElsewhere(s.pending, o.state.pending, fd) &&
      o.state.truncated == s.truncated &&
      Only(Added(s, o), PushKind) == (if Get(s.pending, fd) then [Push(LocalPathFor(p), p)] else []) &&
      Only(Added(s, o), ShellKind) == (if Get(s.pending, fd) then [AdbShell(SyncCommand)] else [])
  {
    var o := FlushStep(s, p, fd);
    if Get(s.pending, fd) {
      var push, sync := Push(LocalPathFor(p), p), AdbShell(SyncCommand);
      assert Added(s, o) == [push, sync];
      Only2(push, sync, PushKind);
      Only2(push, sync, ShellKind);
    } else {
      assert Added(s, o) == [];
    }
  }

  /** A second flush with no write in between changes nothing. */
  lemma FlushIdempotent(s: BridgeState, p: string, fd: int)
    ensures var t := FlushStep(s, p, fd).state;
      FlushStep(t, p, fd) == Outcome(t, 0)
  {
    var t := FlushStep(s, p, fd).state;
    assert fd in t.pending && !t.pending[fd];
    assert Touch(t.pending, fd) == t.pending;
  }

  /** A release drops its descriptor without pushing anything. */
  lemma ReleaseDrops(s: BridgeState, fd: int)
    requires fd in s.pending
    ensures var o := ReleaseStep(s, fd);
      |s.log| <= |o.state.log| &&
      o.ret == 0 && fd !in o.state.pending &&
      SameElsewhere(s.pending, o.state.pending, fd) &&
      o.state.truncated == s.truncated &&
      Only(Added(s, o), PushKind) == [] && Only(Added(s, o), PullKind) == []
  {
    var o := ReleaseStep(s, fd);
    assert Added(s, o) == [LocalClose(fd)];
  }

  /** A truncate always leaves its path marked, pulls into the unescaped
      local path exactly when the device stat fails, and returns what the
      host truncate returns. */
  lemma TruncateMarks(s: BridgeState, p: string, size: int, statRet: int, truncRet: int)
    ensures var o := TruncateStep(s, p, size, statRet, truncRet);
      |s.log| <= |o.state.log| &&
      o.ret == truncRet &&
      Get(o.state.truncated, p) && SameElsewhere(s.truncated, o.state.truncated, p) &&
      o.state.pending == s.pending &&
      Only(Added(s, o), StatKind) == [RemoteStat(p)] &&
      Only(Added(s, o), PullKind) == (if statRet != 0 then [Pull(p, LocalPathFor(p))] else []) &&
      Only(Added(s, o), PushKind) == []
  {
    var o := TruncateStep(s, p, size, statRet, truncRet);
    var local := LocalPathFor(p);
    var shell, stat, trunc := AdbShell(StatTCommand(p)), RemoteStat(p), LocalTruncate(local, size);
    if statRet != 0 {
      assert Added(s, o) == [shell, stat, Pull(p, local), trunc];
      Only4(shell, stat, Pull(p, local), trunc, StatKind);
      Only4(shell, stat, Pull(p, local), trunc, PullKind);
      Only4(shell, stat, Pull(p, local), trunc, PushKind);
    } else {
      assert Added(s, o) == [shell, stat, trunc];
      Only3(shell, stat, trunc, StatKind);
      Only3(shell, stat, trunc, PullKind);
      Only3(shell, stat, trunc, PushKind);
    }
  }

  /** `adb_open` pulls into and opens the space-escaped local path, while
      `adb_truncate` and an open after a truncate use the path as it is:
      the two name the same file exactly when the remote path holds no
      space. */
  lemma OpenAndTruncateCopies(p: string)
    ensures ShellEscapePath(LocalPathFor(p)) == LocalPathFor(p) <==>
      forall i :: 0 <= i < |p| ==> p[i] != ' '
  {
    ShellEscapePathSpec(LocalPathFor(p));
    if forall i :: 0 <= i < |p| ==> p[i] != ' ' {
      LocalPathKeepsNoSpace(p);
    } else {
      var k :| 0 <= k < |p| && p[k] == ' ';
      LocalPathKeepsSpace(p, k);
    }
  }

  lemma LocalPathKeepsNoSpace(p: string)
    requires forall i :: 0 <= i < |p| ==> p[i] != ' '
    ensures forall i :: 0 <= i < |LocalPathFor(p)| ==> LocalPathFor(p)[i] != ' '
  {
    var lp := LocalPathFor(p);
    LocalPathForSpec(p);
    forall i | 0 <= i < |lp|
      ensures lp[i] != ' '
    {
      if i < |StagingDir| {
        assert lp[i] == lp[..|StagingDir|][i];
      } else {
        assert lp[i] == Dashed(p[i - |StagingDir|]);
      }
    }
  }

  lemma LocalPathKeepsSpace(p: string, k: nat)
    requires k < |p| && p[k] == ' '
    ensures CountIn(LocalPathFor(p), {' '}) > 0
  {
    LocalPathForSpec(p);
    assert LocalPathFor(p)[|StagingDir| + k] == ' ';
    CountInPositive(LocalPathFor(p), {' '}, |StagingDir| + k);
  }

  // ---------------------------------------------------------------------
  // Sequences of callbacks

  /** Truncating and then opening a path asks the device nothing during the
      open, opens the local copy the truncate worked on, and consumes the
      mark the truncate set. */
  lemma TruncateThenOpen(s: BridgeState, p: string, size: int, statRet: int, truncRet: int, statRet2: int)
    ensures var t := TruncateStep(s, p, size, statRet, truncRet).state;
      var o := OpenStep(t, p, statRet2);
      |t.log| <= |o.state.log| &&
      o.ret == 0 && !Get(o.state.truncated, p) &&
      SameElsewhere(s.truncated, o.state.truncated, p) &&
      Added(t, o) == [LocalOpen(LocalPathFor(p))]
  {
    var t := TruncateStep(s, p, size, statRet, truncRet).state;
    OpenAfterTruncateMark(t, p, statRet2);
  }

  /** From a pending descriptor, two flushes and a release push the local
      copy once, pull nothing, and drop the descriptor. */
  lemma FlushTwiceThenRelease(s: BridgeState, p: string, fd: int)
    requires Get(s.pending, fd)
    ensures var s1 := FlushStep(s, p, fd).state;
      var s2 := FlushStep(s1, p, fd).state;
      fd in s2.pending &&
      var s3 := ReleaseStep(s2, fd).state;
      |s.log| <= |s3.log| &&
      fd !in s3.pending &&
      Only(s3.log[|s.log|..], PushKind) == [Push(LocalPathFor(p), p)] &&
      Only(s3.log[|s.log|..], PullKind) == []
  {
    var o1 := FlushStep(s, p, fd);
    var s1 := o1.state;
    assert FlushStep(s1, p, fd).state == s1 by {
      FlushIdempotent(s, p, fd);
    }
    var o3 := ReleaseStep(s1, fd);
    var a1, a3 := Added(s, o1), Added(s1, o3);
    assert a1 == [Push(LocalPathFor(p), p), AdbShell(SyncCommand)];
    assert a3 == [LocalClose(fd)];
    Only2(Push(LocalPathFor(p), p), AdbShell(SyncCommand), PushKind);
    Only2(Push(LocalPathFor(p), p), AdbShell(SyncCommand), PullKind);
    assert o3.state.log[|s.log|..] == a1 + a3;
    OnlyConcat(a1, a3, PushKind);
    OnlyConcat(a1, a3, PullKind);
  }

  /** Opening a file from the device and writing it pulls once into the
      space-escaped local path, pushes once with an empty local path, and
      leaves the descriptor pending. */
  lemma OpenThenWrite(s: BridgeState, p: string, fd: int, written: int, errno: int)
    requires !Get(s.truncated, p)
    ensures var s1 := OpenStep(s, p, 0).state;
      var s2 := WriteStep(s1, p, fd, written, errno).state;
      |s.log| <= |s2.log| &&
      Get(s2.pending, fd) &&
      Only(s2.log[|s.log|..], PushKind) == [Push("", p)] &&
      Only(s2.log[|s.log|..], PullKind) == [Pull(p, ShellEscapePath(LocalPathFor(p)))]
  {
    var o1 := OpenStep(s, p, 0);
    var s1 := o1.state;
    var o2 := WriteStep(s1, p, fd, written, errno);
    var a1, a2 := Added(s, o1), Added(s1, o2);
    var pull := Pull(p, ShellEscapePath(LocalPathFor(p)));
    assert Only(a1, PushKind) == [] && Only(a1, PullKind) == [pull] by {
      OpenPulls(s, p);
    }
    assert Get(o2.state.pending, fd) && Only(a2, PushKind) == [Push("", p)] && Only(a2, PullKind) == [] by {
      WriteMarksPending(s1, p, fd, written, errno);
    }
    assert o2.state.log[|s.log|..] == a1 + a2;
    OnlyConcat(a1, a2, PushKind);
    OnlyConcat(a1, a2, PullKind);
  }

  /** A file opened from the device, written once and flushed twice before
      release is pushed twice in all: once by the write, with an empty local
      path, and once by the first flush, from the local copy; the second
      flush and the release push nothing, and the descriptor is gone. */
  lemma DirtySessionPushes(s: BridgeState, p: string, fd: int, written: int, errno: int)
    requires !Get(s.truncated, p)
    ensures var s1 := OpenStep(s, p, 0).state;
      var s2 := WriteStep(s1, p, fd, written, errno).state;
      var s3 := FlushStep(s2, p, fd).state;
      var s4 := FlushStep(s3, p, fd).state;
      fd in s4.pending &&
      var s5 := ReleaseStep(s4, fd).state;
      |s.log| <= |s5.log| &&
      fd !in s5.pending &&
      Only(s5.log[|s.log|..], PushKind) == [Push("", p), Push(LocalPathFor(p), p)] &&
      Only(s5.log[|s.log|..], PullKind) == [Pull(p, ShellEscapePath(LocalPathFor(p)))]
  {
    var s2 := WriteStep(OpenStep(s, p, 0).state, p, fd, written, errno).state;
    OpenThenWrite(s, p, fd, written, errno);
    FlushTwiceThenRelease(s2, p, fd);
    var s5 := ReleaseStep(FlushStep(FlushStep(s2, p, fd).state, p, fd).state, fd).state;
    var a, b := s2.log[|s.log|..], s5.log[|s2.log|..];
    assert s5.log[|s.log|..] == a + b;
    OnlyConcat(a, b, PushKind);
    OnlyConcat(a, b, PullKind);
  }

  // ---------------------------------------------------------------------
  // The bridge itself

  /** The bridge's global maps, and the log of its calls to the outside. */
  class Bridge {
    var fileTruncated: map<string, bool>
    var filePendingWrite: map<int, bool>
    var log: seq<Event>

    function State(): BridgeState
      reads this
    {
      BridgeState(fileTruncated, filePendingWrite, log)
    }

    constructor()
      ensures State() == BridgeState(map[], map[], [])
    {
      fileTruncated := map[];
      filePendingWrite := map[];
      log := [];
    }

    method Open(path: string, statRet: int) returns (ret: int)
      modifies this
      ensures State() == OpenStep(old(State()), path, statRet).state
      ensures ret == OpenStep(old(State()), path, statRet).ret
    {
      var local := LocalPathFor(path);
      var marked := Get(fileTruncated, path);
      fileTruncated := Touch(fileTruncated, path);
      if !marked {
        log := log + [RemoteStat(path)];
        if statRet != 0 {
          return -ENOENT;
        }
        local := ShellEscapePath(LocalPathFor(path));
        log := log + [Pull(path, local)];
      } else {
        fileTruncated := fileTruncated[path := false];
      }
      log := log + [LocalOpen(local)];
      return 0;
    }

    method Write(path: string, fd: int, written: int, errno: int) returns (ret: int)
      modifies this
      ensures State() == WriteStep(old(State()), path, fd, written, errno).state
      ensures ret == WriteStep(old(State()), path, fd, written, errno).ret
    {
      var local := ShellEscapePath("");
      filePendingWrite := filePendingWrite[fd := true];
      log := log + [LocalWrite(fd)];
      log := log + [LocalClose(fd)];
      log := log + [Push(local, path)];
      log := log + [AdbShell(SyncCommand)];
      ret := written;
      if ret == -1 {
        ret := -errno;
      }
    }

    method Flush(path: string, fd: int) returns (ret: int)
      modifies this
      ensures State() == FlushStep(old(State()), path, fd).state
      ensures ret == 0
    {
      var local := LocalPathFor(path);
      var pending := Get(filePendingWrite, fd);
      filePendingWrite := Touch(filePendingWrite, fd);
      if pending {
        filePendingWrite := filePendingWrite[fd := false];
        log := log + [Push(local, path)];
        log := log + [AdbShell(SyncCommand)];
      }
      return 0;
    }

    method Release(fd: int) returns (ret: int)
      requires fd in filePendingWrite
      modifies this
      ensures State() == ReleaseStep(old(State()), fd).state
      ensures ret == 0
    {
      filePendingWrite := filePendingWrite - {fd};
      log := log + [LocalClose(fd)];
      return 0;
    }

    method Truncate(path: string, size: int, statRet: int, truncRet: int) returns (ret: int)
      modifies this
      ensures State() == TruncateStep(old(State()), path, size, statRet, truncRet).state
      ensures ret == truncRet
    {
      var local := LocalPathFor(path);
      log := log + [AdbShell(StatTCommand(path))];
      log := log + [RemoteStat(path)];
      if statRet != 0 {
        log := log + [Pull(path, local)];
      }
      fileTruncated := fileTruncated[path := true];
      log := log + [LocalTruncate(local, size)];
      return truncRet;
    }
  }
}
