/** `readx` and `writex` of adb_interface.c: move exactly `len` bytes over
    the transport, calling `adb_read`/`adb_write` until done, retrying
    interrupted calls and giving up on any other failure or on a
    disconnect. The results of the successive `adb_read`/`adb_write` calls
    are given as a script. */
module Transfer {
  import opened Posix

  /** The result of one `adb_read` or `adb_write` call and the `errno` it
      left behind. */
  datatype IoResult = IoResult(r: int, errno: int)

  predicate Interrupted(res: IoResult)
  {
    res.r < 0 && res.errno == EINTR
  }

  /** `script` holds a result for every call the loop makes when `len`
      bytes remain, and no call moves more bytes than it was asked for. */
  predicate Answers(script: seq<IoResult>, len: nat)
    decreases |script|
  {
    len == 0 ||
    (script != [] &&
     if script[0].r > 0 then script[0].r <= len && Answers(script[1..], len - script[0].r)
     else if Interrupted(script[0]) then Answers(script[1..], len)
     else true)
  }

  /** The return value of the transfer loop. */
  function TransferResult(script: seq<IoResult>, len: nat): int
    requires Answers(script, len)
    decreases |script|
  {
    if len == 0 then 0
    else if script[0].r > 0 then TransferResult(script[1..], len - script[0].r)
    else if Interrupted(script[0]) then TransferResult(script[1..], len)
    else -1
  }

  /** Bytes moved by the calls of `script` before the first call that
      fails for good (a disconnect or a non-interrupt error). */
  function Delivered(script: seq<IoResult>): nat
    decreases |script|
  {
    if script == [] then 0
    else if script[0].r > 0 then script[0].r + Delivered(script[1..])
    else if Interrupted(script[0]) then Delivered(script[1..])
    else 0
  }

  /** A transfer returns 0 exactly when the calls before the first lasting
      failure move at least `len` bytes, and -1 otherwise. */
  lemma {:induction false} TransferSucceedsIff(script: seq<IoResult>, len: nat)
    requires Answers(script, len)
    ensures TransferResult(script, len) == 0 || TransferResult(script, len) == -1
    ensures TransferResult(script, len) == 0 <==> Delivered(script) >= len
    decreases |script|
  {
    if len > 0 {
      if script[0].r > 0 {
        TransferSucceedsIff(script[1..], len - script[0].r);
      } else if Interrupted(script[0]) {
        TransferSucceedsIff(script[1..], len);
      }
    }
  }

  /** `readx(fd, ptr, len)`: returns 0 or -1, and how far the pointer
      advanced. */
  method ReadX(script: seq<IoResult>, len: nat) returns (ret: int, moved: nat)
    requires Answers(script, len)
    ensures ret == TransferResult(script, len)
    ensures ret == 0 || ret == -1
    ensures ret == 0 <==> moved == len
    ensures moved <= len
  {
    var remaining: nat := len;
    moved := 0;
    var k := 0;
    while remaining > 0
      invariant 0 <= k <= |script|
      invariant moved + remaining == len
      invariant Answers(script[k..], remaining)
      invariant TransferResult(script[k..], remaining) == TransferResult(script, len)
      decreases |script| - k
    {
      var res := script[k];  // adb_read(fd, p, remaining)
      assert script[k..][1..] == script[k + 1..];
      k := k + 1;
      if res.r > 0 {
        remaining := remaining - res.r;
        moved := moved + res.r;
      } else {
        if res.r < 0 {
          if res.errno == EINTR {
            continue;
          }
        }
        return -1, moved;
      }
    }
    return 0, moved;
  }

  /** `writex(fd, ptr, len)`: returns 0 or -1, and how far the pointer
      advanced. */
  method WriteX(script: seq<IoResult>, len: nat) returns (ret: int, moved: nat)
    requires Answers(script, len)
    ensures ret == TransferResult(script, len)
    ensures ret == 0 || ret == -1
    ensures ret == 0 <==> moved == len
    ensures moved <= len
  {
    var remaining: nat := len;
    moved := 0;
    var k := 0;
    while remaining > 0
      invariant 0 <= k <= |script|
      invariant moved + remaining == len
      invariant Answers(script[k..], remaining)
      invariant TransferResult(script[k..], remaining) == TransferResult(script, len)
      decreases |script| - k
    {
      var res := script[k];  // adb_write(fd, p, remaining)
      assert script[k..][1..] == script[k + 1..];
      k := k + 1;
      if res.r > 0 {
        remaining := remaining - res.r;
        moved := moved + res.r;
      } else {
        if res.r < 0 {
          if res.errno == EINTR {
            continue;
          }
        }
        return -1, moved;
      }
    }
    return 0, moved;
  }
}
