/** The two FUSE callbacks that only translate the sync client's results:
    `adb_getattr` and `adb_readdir` of adbfs.cpp. */
module Adapter {
  import opened Strings
  import opened Wire
  import opened Posix
  import opened Transfer
  import opened SyncClient

  /** One call of FUSE's `filler(buf, name, st, 0)`. */
  datatype Filled = Filled(name: seq<byte>, st: StatBuf)

  /** `adb_getattr(path, stbuf)`: zeroes the buffer, asks `i_adb_stat` to
      fill it, and reports any failure as a missing file. The connection
      and transport results are parameters as for `IStat`. */
  method Getattr(path: seq<byte>, connectFd: int, reqWrites: seq<IoResult>,
                 pathWrites: seq<IoResult>, statReads: seq<IoResult>, reply: seq<byte>)
    returns (ret: int, stbuf: StatBuf)
    requires IsCPath(path) && |reply| == 16
    requires Answers(reqWrites, 8) && Answers(pathWrites, |path|) && Answers(statReads, 16)
    ensures ret == 0 || ret == -ENOENT
    ensures ret == 0 <==> connectFd >= 0 && StatOutcome(path, reqWrites, pathWrites, statReads, reply).Some?
    ensures ret == 0 ==> stbuf == Fill(ZeroStat, StatOutcome(path, reqWrites, pathWrites, statReads, reply).value)
    ensures ret != 0 ==> stbuf == ZeroStat
  {
    stbuf := ZeroStat;
    var r, st, calls, quit := IStat(path, Some(stbuf), connectFd, reqWrites, pathWrites, statReads, reply);
    stbuf := st.value;
    if r != 0 {
      return -ENOENT, stbuf;
    }
    return 0, stbuf;
  }

  /** `adb_readdir(path, buf, filler, ...)`: lists the directory through
      `i_adb_ls` with a callback that hands every entry to `filler`. An
      empty listing and a failed one both become `-ENOENT`. The cookie
      value stands for the address of the callback's `readdir_cb_info`. */
  method Readdir(cookie: int, connectFd: int, listing: seq<LsEntry>, lsStatus: int)
    returns (ret: int, filled: seq<Filled>)
    ensures ret == 0 || ret == -ENOENT
    ensures ret == 0 <==> connectFd >= 0 && lsStatus == 0 && |listing| > 0
    ensures connectFd < 0 ==> filled == []
    ensures connectFd >= 0 ==> |filled| == |listing|
    ensures forall i :: 0 <= i < |filled| ==>
      i < |listing| &&
      filled[i] == Filled(listing[i].name, Fill(ZeroStat, StatFields(listing[i].mode, listing[i].size, listing[i].time)))
  {
    var res, calls, quit := ILs(true, cookie, connectFd, listing, lsStatus);
    // readdir_cb: every callback call becomes one filler call
    filled := seq(|calls|, i requires 0 <= i < |calls| => Filled(calls[i].name, calls[i].st));
    if res <= 0 {
      return -ENOENT, filled;
    }
    return 0, filled;
  }
}
