/** The client half of the device's synchronization service used by the
    bridge (adb_interface.c): `do_stat`, `i_adb_stat`, `i_adb_ls` and its
    callback `do_sync_ls_cb`. The transport, `adb_connect`, `sync_ls` and
    `sync_quit` are outside the model: their results are parameters. */
module SyncClient {
  import opened Wire
  import opened Transfer
  import opened Strings

  /** The fields of `struct stat` the bridge fills in, and the others as a
      block that `do_stat` never writes. */
  datatype StatBuf = StatBuf(mode: nat, size: nat, mtime: nat, rest: seq<int>)

  /** Number of `struct stat` fields besides mode, size and mtime. */
  const RestFields: nat := 10

  /** A `struct stat` set to all zero bytes. */
  const ZeroStat: StatBuf := StatBuf(0, 0, 0, seq(RestFields, _ => 0))

  /** Mode, size and modification time as the device reported them. */
  datatype StatFields = StatFields(mode: nat, size: nat, mtime: nat)

  /** The STAT response fields copied into a stat buffer; the other fields
      keep their values. */
  function Fill(st: StatBuf, f: StatFields): StatBuf
  {
    st.(mode := f.mode, size := f.size, mtime := f.mtime)
  }

  /** One transport call `do_stat` makes: a `writex` of these bytes or a
      `readx` of this many bytes. */
  datatype TransportCall = Sent(bytes: seq<byte>) | Received(count: nat)

  /** A path as C hands it over: no NUL byte inside, and a length that
      `strlen` can return into an `int`. */
  predicate IsCPath(path: seq<byte>)
  {
    |path| < 0x8000_0000 && forall i :: 0 <= i < |path| ==> path[i] != 0
  }

  /** The full exchange of a STAT request: the eight-byte header, the path
      without its terminator, then the sixteen-byte response. */
  function StatExchange(path: seq<byte>): seq<TransportCall>
  {
    [Sent(StatRequest(|path|)), Sent(path), Received(16)]
  }

  /** The checks `do_stat` applies to a decoded response: the id must be the
      STAT tag, and a response whose mode, size and time are all zero means
      the path does not exist. */
  function CheckStatReply(rec: StatRecord): Option<StatFields>
  {
    if rec.id != ID_STAT then None
    else if rec.mode == 0 && rec.size == 0 && rec.time == 0 then None
    else Some(StatFields(rec.mode, rec.size, rec.time))
  }

  /** What a STAT exchange yields: the three fields, or nothing when a
      transfer failed or the response was refused. */
  function StatOutcome(path: seq<byte>, reqWrites: seq<IoResult>, pathWrites: seq<IoResult>,
                       statReads: seq<IoResult>, reply: seq<byte>): Option<StatFields>
    requires |reply| == 16
    requires Answers(reqWrites, 8) && Answers(pathWrites, |path|) && Answers(statReads, 16)
  {
    if TransferResult(reqWrites, 8) != 0 || TransferResult(pathWrites, |path|) != 0 then None
    else if TransferResult(statReads, 16) != 0 then None
    else CheckStatReply(DecodeStatRecord(reply))
  }

  /** A device that answers with the STAT tag and fields that are not all
      zero is understood: the client reads back exactly those fields. */
  lemma StatReplyRoundTrip(f: StatFields)
    requires f.mode < WordLimit && f.size < WordLimit && f.mtime < WordLimit
    requires !(f.mode == 0 && f.size == 0 && f.mtime == 0)
    ensures CheckStatReply(DecodeStatRecord(EncodeStatRecord(StatRecord(ID_STAT, f.mode, f.size, f.mtime)))) == Some(f)
  {
    StatRecordRoundTrip(StatRecord(ID_STAT, f.mode, f.size, f.mtime));
  }

  /** An accepted response is exactly the encoding of the STAT tag and the
      fields read from it, and those fields are not all zero. */
  lemma StatReplyAccepted(b: seq<byte>)
    requires |b| == 16
    requires CheckStatReply(DecodeStatRecord(b)).Some?
    ensures var f := CheckStatReply(DecodeStatRecord(b)).value;
      EncodeStatRecord(StatRecord(ID_STAT, f.mode, f.size, f.mtime)) == b &&
      !(f.mode == 0 && f.size == 0 && f.mtime == 0)
  {
    StatRecordDecodeEncode(b);
  }

  lemma {:induction false} DecodeZeros(b: seq<byte>)
    requires forall i :: 0 <= i < |b| ==> b[i] == 0
    ensures DecodeLE(b) == 0
    decreases |b|
  {
    if b != [] {
      DecodeZeros(b[1..]);
    }
  }

  /** A response whose last twelve bytes are zero reports that the path
      does not exist, whatever its id. */
  lemma AllZeroIsNotFound(b: seq<byte>)
    requires |b| == 16
    requires forall i :: 4 <= i < 16 ==> b[i] == 0
    ensures CheckStatReply(DecodeStatRecord(b)) == None
  {
    DecodeZeros(b[4..8]);
    DecodeZeros(b[8..12]);
    DecodeZeros(b[12..16]);
  }

  /** `do_stat(fd, path, st)`. `st` is `None` for a NULL pointer. The three
      scripts answer the `writex` of the header, the `writex` of the path
      and the `readx` of the response; `reply` holds the response bytes. */
  method DoStat(path: seq<byte>, st: Option<StatBuf>, reqWrites: seq<IoResult>,
                pathWrites: seq<IoResult>, statReads: seq<IoResult>, reply: seq<byte>)
    returns (ret: int, stOut: Option<StatBuf>, calls: seq<TransportCall>)
    requires IsCPath(path) && |reply| == 16
    requires Answers(reqWrites, 8) && Answers(pathWrites, |path|) && Answers(statReads, 16)
    ensures ret == 0 || ret == -1
    ensures ret == 0 <==> StatOutcome(path, reqWrites, pathWrites, statReads, reply).Some?
    ensures stOut == if ret == 0 && st.Some?
      then Some(Fill(st.value, StatOutcome(path, reqWrites, pathWrites, statReads, reply).value))
      else st
    ensures TransferResult(reqWrites, 8) != 0 ==> calls == StatExchange(path)[..1]
    ensures TransferResult(reqWrites, 8) == 0 && TransferResult(pathWrites, |path|) != 0 ==>
      calls == StatExchange(path)[..2]
    ensures TransferResult(reqWrites, 8) == 0 && TransferResult(pathWrites, |path|) == 0 ==>
      calls == StatExchange(path)
  {
    stOut := st;
    var len := |path|;
    var req := StatRequest(len);
    calls := [Sent(req)];
    var w, moved := WriteX(reqWrites, 8);
    if w != 0 {
      return -1, stOut, calls;
    }
    calls := calls + [Sent(path)];
    w, moved := WriteX(pathWrites, len);
    if w != 0 {
      return -1, stOut, calls;
    }
    calls := calls + [Received(16)];
    var r, got := ReadX(statReads, 16);
    if r != 0 {
      return -1, stOut, calls;
    }
    var rec := DecodeStatRecord(reply);
    if rec.id != ID_STAT {
      return -1, stOut, calls;
    }
    if rec.mode == 0 && rec.size == 0 && rec.time == 0 {
      return -1, stOut, calls;
    }
    if st.Some? {
      stOut := Some(Fill(st.value, StatFields(rec.mode, rec.size, rec.time)));
    }
    return 0, stOut, calls;
  }

  /** `i_adb_stat(path, st)`. `connectFd` is what `adb_connect("sync:")`
      returned; `quit` says whether `sync_quit` was called. */
  method IStat(path: seq<byte>, st: Option<StatBuf>, connectFd: int, reqWrites: seq<IoResult>,
               pathWrites: seq<IoResult>, statReads: seq<IoResult>, reply: seq<byte>)
    returns (ret: int, stOut: Option<StatBuf>, calls: seq<TransportCall>, quit: bool)
    requires IsCPath(path) && |reply| == 16
    requires Answers(reqWrites, 8) && Answers(pathWrites, |path|) && Answers(statReads, 16)
    ensures ret == 0 || ret == -1
    ensures ret == 0 <==> connectFd >= 0 && StatOutcome(path, reqWrites, pathWrites, statReads, reply).Some?
    ensures quit <==> ret == 0
    ensures stOut == if ret == 0 && st.Some?
      then Some(Fill(st.value, StatOutcome(path, reqWrites, pathWrites, statReads, reply).value))
      else st
    ensures connectFd < 0 ==> calls == []
    ensures |calls| <= 3 && calls == StatExchange(path)[..|calls|]
  {
    if connectFd < 0 {
      return -1, st, [], false;
    }
    ret, stOut, calls := DoStat(path, st, reqWrites, pathWrites, statReads, reply);
    if ret != 0 {
      return -1, stOut, calls, false;
    }
    quit := true;  // sync_quit(fd)
    return 0, stOut, calls, quit;
  }

  /** One directory entry as `sync_ls` hands it to its callback. */
  datatype LsEntry = LsEntry(mode: nat, size: nat, time: nat, name: seq<byte>)

  /** One call of the caller's `i_adb_ls_cb(name, st, cookie)`; `cookie` is
      the caller's opaque pointer. */
  datatype CbCall = CbCall(name: seq<byte>, st: StatBuf, cookie: int)

  /** `i_adb_ls(path, cb_func, cookie)`. `cbGiven` says whether `cb_func` is
      non-NULL; `listing` holds the entries `sync_ls` delivers to
      `do_sync_ls_cb`, and `lsStatus` what `sync_ls` returns. */
  method ILs(cbGiven: bool, cookie: int, connectFd: int, listing: seq<LsEntry>, lsStatus: int)
    returns (ret: int, calls: seq<CbCall>, quit: bool)
    ensures ret == if !cbGiven || connectFd < 0 || lsStatus != 0 then -1 else |listing|
    ensures quit <==> ret >= 0
    ensures !cbGiven || connectFd < 0 ==> calls == []
    ensures cbGiven && connectFd >= 0 ==> |calls| == |listing|
    ensures forall i :: 0 <= i < |calls| ==>
      i < |listing| &&
      calls[i] == CbCall(listing[i].name, Fill(ZeroStat, StatFields(listing[i].mode, listing[i].size, listing[i].time)), cookie)
  {
    if !cbGiven {
      return -1, [], false;
    }
    if connectFd < 0 {
      return -1, [], false;
    }
    var counter := 0;
    calls := [];
    var k := 0;
    while k < |listing|
      invariant 0 <= k <= |listing|
      invariant counter == k && |calls| == k
      invariant forall i :: 0 <= i < k ==>
        calls[i] == CbCall(listing[i].name, Fill(ZeroStat, StatFields(listing[i].mode, listing[i].size, listing[i].time)), cookie)
    {
      var call;
      counter, call := DoSyncLsCb(listing[k], cookie, counter);
      calls := calls + [call];
      k := k + 1;
    }
    if lsStatus != 0 {
      return -1, calls, false;
    }
    quit := true;  // sync_quit(fd)
    return counter, calls, quit;
  }

  /** `do_sync_ls_cb`: counts the entry and forwards it to the caller's
      callback with a zeroed stat carrying the entry's mode, size and time. */
  method DoSyncLsCb(e: LsEntry, cookie: int, counter: int) returns (counter': int, call: CbCall)
    ensures counter' == counter + 1
    ensures call.name == e.name && call.cookie == cookie
    ensures call.st.mode == e.mode && call.st.size == e.size && call.st.mtime == e.time
    ensures call.st.rest == ZeroStat.rest
  {
    var st := Fill(ZeroStat, StatFields(e.mode, e.size, e.time));
    counter' := counter + 1;
    call := CbCall(e.name, st, cookie);
  }
}
