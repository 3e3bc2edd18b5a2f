/** `adb_readlink` of adbfs.cpp: the remote `ls -l` command it runs and the
    parsing of the first output line into a link target copied into the
    caller's buffer. */
module LinkParse {
  import opened Strings
  import opened ShellEscape
  import opened Posix

  /** What separates a link's name from its target in `ls -l` output. */
  const Arrow: string := " -> "

  /** The command line `adb_readlink` hands to `exec_command`: the path has
      its quotes escaped first and is put between double quotes. */
  function ReadlinkCommand(path: string): string
  {
    AdbShellCommandLine("ls -l --color=none \"" + ReplaceAll(path, "'", "\\'") + "\"")
  }

  /** The command line is the busybox prefix followed by the `ls -l`
      command for the quote-escaped path between double quotes, escaped
      once more by `adb_shell_escape_command`: a quote in the path reaches
      the device with three backslashes before it. Unescaping the part
      after the prefix gives the `ls -l` command back. */
  lemma ReadlinkCommandSpec(path: string)
    ensures ReadlinkCommand(path) ==
      AdbPrefix + EscapeChars("ls -l --color=none \"" + ReplaceAll(path, "'", "\\'") + "\"", AdbSpecials)
    ensures |ReadlinkCommand(path)| >= |AdbPrefix|
    ensures ReadlinkCommand(path)[..|AdbPrefix|] == AdbPrefix
    ensures UnescapeChars(ReadlinkCommand(path)[|AdbPrefix|..], AdbSpecials) ==
      "ls -l --color=none \"" + ReplaceAll(path, "'", "\\'") + "\""
  {
    CommandLinesSpec("ls -l --color=none \"" + ReplaceAll(path, "'", "\\'") + "\"");
  }

  /** The text left once every leading `/` is removed. */
  function TrimLeadingSlashes(s: string): string
    decreases |s|
  {
    if s != [] && s[0] == '/' then TrimLeadingSlashes(s[1..]) else s
  }

  /** Trimming removes a run of `/` from the front, all of it, and nothing
      else: the result is a suffix that does not start with `/`. */
  lemma {:induction false} TrimLeadingSlashesSpec(s: string)
    ensures |TrimLeadingSlashes(s)| <= |s|
    ensures TrimLeadingSlashes(s) == s[|s| - |TrimLeadingSlashes(s)|..]
    ensures TrimLeadingSlashes(s) == [] || TrimLeadingSlashes(s)[0] != '/'
    ensures forall i :: 0 <= i < |s| - |TrimLeadingSlashes(s)| ==> s[i] == '/'
    decreases |s|
  {
    if s != [] && s[0] == '/' {
      TrimLeadingSlashesSpec(s[1..]);
    }
  }

  /** The link target named by one line of `ls -l` output: the text after
      the first " -> " with its leading `/` removed, if there is an arrow. */
  function LinkTarget(line: string): Option<string>
  {
    match Find(line, Arrow)
    case None => None
    case Some(i) => Some(TrimLeadingSlashes(line[i + |Arrow|..]))
  }

  /** No arrow starts inside a name that holds no `>`. */
  lemma NoArrowInName(name: string, target: string, j: nat)
    requires forall i :: 0 <= i < |name| ==> name[i] != '>'
    requires j < |name|
    ensures !OccursAt(name + Arrow + target, Arrow, j)
  {
    var line := name + Arrow + target;
    assert line[j + 2] != '>';
    if j + |Arrow| <= |line| {
      assert line[j..j + |Arrow|][2] == line[j + 2];
    }
  }

  /** A line `name -> target` whose name holds no `>` names `target`, with
      its leading `/` removed: the first arrow is the one after the name. */
  lemma LinkTargetOfLine(name: string, target: string)
    requires forall i :: 0 <= i < |name| ==> name[i] != '>'
    ensures LinkTarget(name + Arrow + target) == Some(TrimLeadingSlashes(target))
  {
    var line := name + Arrow + target;
    assert OccursAt(line, Arrow, |name|) by {
      assert line[|name|..|name| + |Arrow|] == Arrow;
    }
    forall j: nat | j < |name|
      ensures !OccursAt(line, Arrow, j)
    {
      NoArrowInName(name, target, j);
    }
    var i := Find(line, Arrow).value;
    assert i == |name|;
    assert line[i + |Arrow|..] == target;
  }

  /** The first arrow is taken as the separator even when the name holds
      one: a link named `a -> b` pointing at `c` is read as pointing at
      `b -> c`. */
  lemma FirstArrowWins()
    ensures LinkTarget("a -> b -> c") == Some("b -> c")
  {
    var line := "a -> b -> c";
    assert OccursAt(line, Arrow, 1) by {
      assert line[1..5] == Arrow;
    }
    assert !OccursAt(line, Arrow, 0) by {
      assert line[0..4][0] == 'a';
    }
    assert Find(line, Arrow) == Some(1);
    assert line[5..] == "b -> c";
  }

  /** `adb_readlink` given the lines the remote `ls -l` printed and the
      caller's buffer size: the result code and the bytes copied into the
      buffer (a target with its terminating NUL, or nothing). */
  method Readlink(output: seq<string>, size: nat) returns (ret: int, copied: string)
    requires output != [] ==> IsByteString(output[0])
    ensures output == [] ==> ret == -EINVAL && copied == []
    ensures output != [] && LinkTarget(output[0]).None? ==> ret == -EINVAL && copied == []
    ensures output != [] && LinkTarget(output[0]).Some? && |LinkTarget(output[0]).value| >= size ==>
      ret == -ENOSYS && copied == []
    ensures output != [] && LinkTarget(output[0]).Some? && |LinkTarget(output[0]).value| < size ==>
      ret == 0 && copied == LinkTarget(output[0]).value + ['\0']
    ensures ret == 0 ==> 0 < |copied| <= size
  {
    if |output| == 0 {
      return -EINVAL, [];
    }
    var res := output[0];
    var found := Find(res, Arrow);
    if found.None? {
      return -EINVAL, [];
    }
    var start := found.value + |Arrow|;
    assert LinkTarget(res) == Some(TrimLeadingSlashes(res[start..]));
    var pos := start;
    while pos < |res| && res[pos] == '/'
      invariant start <= pos <= |res|
      invariant TrimLeadingSlashes(res[pos..]) == TrimLeadingSlashes(res[start..])
    {
      assert res[pos..][1..] == res[pos + 1..];
      pos := pos + 1;
    }
    assert TrimLeadingSlashes(res[pos..]) == res[pos..];
    var mySize := |res| - pos;
    if mySize >= size {
      return -ENOSYS, [];
    }
    copied := res[pos..] + ['\0'];
    ret := 0;
  }
}
