/** The string side of adbfs.cpp: the two command escapers, the path
    escaper, the command lines handed to `exec_command`, and the mapping
    from a remote path to its file in the local staging directory. */
module ShellEscape {
  import opened Strings

  /** Characters `shell_escape_command` puts a backslash in front of:
      backslash, single quote, backtick. */
  const ShellSpecials: set<char> := CharsOf(ShellEscapeOrder)

  /** Characters `adb_shell_escape_command` puts a backslash in front of. */
  const AdbSpecials: set<char> := CharsOf(AdbEscapeOrder)

  /** What `adb_shell` puts in front of every escaped remote command. */
  const AdbPrefix: string := "adb shell busybox "

  /** The local staging directory. */
  const StagingDir: string := "/tmp/adbfs/"

  // ---------------------------------------------------------------------
  // Escapers, as the chains of replacements the source applies

  /** The replacement characters of `shell_escape_command`, in order. */
  const ShellEscapeOrder: string := "\\'`"

  /** The first fifteen replacement characters of `adb_shell_escape_command`,
      in order. */
  const AdbEscapeOrder: string := "\\()'`|&;<>*#%=~"

  /** The four fragments the last replacements of `adb_shell_escape_command`
      delete, in order. */
  const ColourCodes: seq<string> := ["/[0;0m", "/[1;32m", "/[1;34m", "/[1;36m"]

  /** One replacement step of the escapers: every `c` becomes backslash-`c`. */
  function EscapeWith(s: string, c: char): string
  {
    ReplaceAll(s, [c], ['\\', c])
  }

  /** A fixed chain of escaping steps, applied in the order given. */
  function EscapeInOrder(s: string, order: string): string
    decreases |order|
  {
    if order == [] then s else EscapeInOrder(EscapeWith(s, order[0]), order[1..])
  }

  /** A fixed chain of deletions, applied in the order given. */
  function DeleteInOrder(s: string, pats: seq<string>): string
    requires forall i :: 0 <= i < |pats| ==> pats[i] != []
    decreases |pats|
  {
    if pats == [] then s else DeleteInOrder(ReplaceAll(s, pats[0], ""), pats[1..])
  }

  function ShellEscapeCommand(cmd: string): string
  {
    EscapeInOrder(cmd, ShellEscapeOrder)
  }

  /** The first fifteen replacements of `adb_shell_escape_command`. */
  function AdbEscapeSpecials(cmd: string): string
  {
    EscapeInOrder(cmd, AdbEscapeOrder)
  }

  /** The last four replacements of `adb_shell_escape_command`, which try
      to delete colour-code fragments. */
  function StripColourCodes(cmd: string): string
  {
    DeleteInOrder(cmd, ColourCodes)
  }

  function AdbShellEscapeCommand(cmd: string): string
  {
    StripColourCodes(AdbEscapeSpecials(cmd))
  }

  function ShellEscapePath(path: string): string
  {
    ReplaceAll(path, " ", "\\ ")
  }

  /** The command line `shell(command)` hands to `exec_command`. */
  function ShellCommandLine(command: string): string
  {
    ShellEscapeCommand(command)
  }

  /** The command line `adb_shell(command)` hands to `exec_command`. */
  function AdbShellCommandLine(command: string): string
  {
    AdbPrefix + AdbShellEscapeCommand(command)
  }

  /** The local cache file for a remote path: the staging directory
      followed by the path with every `/` turned into `-`. */
  function LocalPathFor(remote: string): string
  {
    StagingDir + ReplaceAll(remote, "/", "-")
  }

  // ---------------------------------------------------------------------
  // What the escapers compute

  /** The characters of a chain of escaping steps. */
  function CharsOf(order: string): set<char>
  {
    set c | c in order
  }

  /** A chain of escaping steps over distinct characters, none already
      escaped, in which the backslash can only come first, escapes exactly
      the characters of the chain: earlier steps never create characters
      that later steps would escape. */
  lemma {:induction false} EscapeInOrderSpec(s: string, special: set<char>, order: string)
    requires forall i :: 0 <= i < |order| ==> order[i] !in special
    requires forall i, j :: 0 <= i < j < |order| ==> order[i] != order[j]
    requires forall i :: 0 < i < |order| ==> order[i] != '\\'
    requires order != [] && order[0] == '\\' ==> special == {}
    ensures EscapeInOrder(EscapeChars(s, special), order) == EscapeChars(s, special + CharsOf(order))
    decreases |order|
  {
    if order != [] {
      var c := order[0];
      ReplaceExtendsEscape(s, special, c);
      EscapeInOrderSpec(s, special + {c}, order[1..]);
      assert order == [c] + order[1..];
      assert special + {c} + CharsOf(order[1..]) == special + CharsOf(order);
    } else {
      assert special + CharsOf(order) == special;
    }
  }

  /** The same, started from the unescaped string. */
  lemma EscapeChainSpec(s: string, order: string)
    requires forall i, j :: 0 <= i < j < |order| ==> order[i] != order[j]
    requires forall i :: 0 < i < |order| ==> order[i] != '\\'
    ensures EscapeInOrder(s, order) == EscapeChars(s, CharsOf(order))
  {
    EscapeNothing(s);
    EscapeInOrderSpec(s, {}, order);
    assert {} + CharsOf(order) == CharsOf(order);
  }

  /** A chain of deletions of fragments that do not occur changes nothing. */
  lemma {:induction false} DeleteAbsent(s: string, pats: seq<string>)
    requires forall i :: 0 <= i < |pats| ==> pats[i] != [] && !Occurs(s, pats[i])
    ensures DeleteInOrder(s, pats) == s
    decreases |pats|
  {
    if pats != [] {
      ReplaceAbsent(s, pats[0], "");
      DeleteAbsent(s, pats[1..]);
    }
  }

  /** `shell_escape_command` doubles every backslash and puts a backslash
      before every quote and backtick; nothing else changes. */
  lemma ShellEscapeCommandSpec(cmd: string)
    ensures ShellEscapeCommand(cmd) == EscapeChars(cmd, ShellSpecials)
    ensures |ShellEscapeCommand(cmd)| == |cmd| + CountIn(cmd, ShellSpecials)
    ensures (forall i :: 0 <= i < |cmd| ==> cmd[i] !in ShellSpecials) ==> ShellEscapeCommand(cmd) == cmd
    ensures UnescapeChars(ShellEscapeCommand(cmd), ShellSpecials) == cmd
  {
    EscapeChainSpec(cmd, ShellEscapeOrder);
    EscapeLength(cmd, ShellSpecials);
    if forall i :: 0 <= i < |cmd| ==> cmd[i] !in ShellSpecials {
      EscapeIdentity(cmd, ShellSpecials);
    }
    UnescapeEscape(cmd, ShellSpecials);
  }

  /** The fifteen escaping replacements put a backslash before each of the
      fifteen special characters and change nothing else. */
  lemma AdbEscapeSpecialsSpec(cmd: string)
    ensures AdbEscapeSpecials(cmd) == EscapeChars(cmd, AdbSpecials)
  {
    EscapeChainSpec(cmd, AdbEscapeOrder);
  }

  /** In the escaped command every `;` follows a backslash, so none of the
      four colour-code fragments (each has `;` after a digit) can occur, and
      the last four replacements of `adb_shell_escape_command` never change
      anything: the function equals its first fifteen steps. */
  lemma ColourCodesNeverMatch(cmd: string)
    ensures AdbShellEscapeCommand(cmd) == AdbEscapeSpecials(cmd)
  {
    AdbEscapeSpecialsSpec(cmd);
    SemicolonsEscaped(cmd);
    ColourCodesAbsent(EscapeChars(cmd, AdbSpecials));
  }

  lemma SemicolonsEscaped(cmd: string)
    ensures forall i :: 0 <= i < |EscapeChars(cmd, AdbSpecials)| && EscapeChars(cmd, AdbSpecials)[i] == ';' ==>
      0 < i && EscapeChars(cmd, AdbSpecials)[i - 1] == '\\'
  {
    assert AdbEscapeOrder[7] == ';';
    EscapedBefore(cmd, AdbSpecials, ';');
  }

  lemma ColourCodesAbsent(t: string)
    requires forall i :: 0 <= i < |t| && t[i] == ';' ==> 0 < i && t[i - 1] == '\\'
    ensures StripColourCodes(t) == t
  {
    forall i | 0 <= i < |ColourCodes|
      ensures ColourCodes[i] != [] && !Occurs(t, ColourCodes[i])
    {
      NoOccurrenceAfterEscape(t, ColourCodes[i], ';', 3);
    }
    DeleteAbsent(t, ColourCodes);
  }

  /** `adb_shell_escape_command` puts a backslash before each of its
      fifteen special characters, changes nothing else, can be undone, and
      leaves every `;` directly after a backslash. */
  lemma AdbShellEscapeCommandSpec(cmd: string)
    ensures AdbShellEscapeCommand(cmd) == EscapeChars(cmd, AdbSpecials)
    ensures |AdbShellEscapeCommand(cmd)| == |cmd| + CountIn(cmd, AdbSpecials)
    ensures (forall i :: 0 <= i < |cmd| ==> cmd[i] !in AdbSpecials) ==> AdbShellEscapeCommand(cmd) == cmd
    ensures UnescapeChars(AdbShellEscapeCommand(cmd), AdbSpecials) == cmd
    ensures forall i :: 0 <= i < |AdbShellEscapeCommand(cmd)| && AdbShellEscapeCommand(cmd)[i] == ';' ==>
      0 < i && AdbShellEscapeCommand(cmd)[i - 1] == '\\'
  {
    var t := EscapeChars(cmd, AdbSpecials);
    assert AdbShellEscapeCommand(cmd) == t by {
      ColourCodesNeverMatch(cmd);
      AdbEscapeSpecialsSpec(cmd);
    }
    EscapeLength(cmd, AdbSpecials);
    if forall i :: 0 <= i < |cmd| ==> cmd[i] !in AdbSpecials {
      EscapeIdentity(cmd, AdbSpecials);
    }
    UnescapeEscape(cmd, AdbSpecials);
    SemicolonsEscaped(cmd);
  }

  /** `shell_escape_path` puts a backslash before every space and changes
      nothing else; it can be undone, so two paths never share an escape. */
  lemma ShellEscapePathSpec(path: string)
    ensures ShellEscapePath(path) == EscapeChars(path, {' '})
    ensures |ShellEscapePath(path)| == |path| + CountIn(path, {' '})
    ensures (forall i :: 0 <= i < |path| ==> path[i] != ' ') ==> ShellEscapePath(path) == path
    ensures UnescapeChars(ShellEscapePath(path), {' '}) == path
  {
    EscapeNothing(path);
    ReplaceExtendsEscape(path, {}, ' ');
    assert ShellEscapePath(path) == ReplaceAll(EscapeChars(path, {}), [' '], ['\\', ' ']);
    assert {} + {' '} == {' '};
    EscapeLength(path, {' '});
    if forall i :: 0 <= i < |path| ==> path[i] != ' ' {
      EscapeIdentity(path, {' '});
    }
    UnescapeEscape(path, {' '});
  }

  /** `shell` runs the locally escaped command with no prefix; `adb_shell`
      runs exactly "adb shell busybox " followed by the remotely escaped
      command. In both the original command is recoverable, so distinct
      commands give distinct command lines. */
  lemma CommandLinesSpec(command: string)
    ensures ShellCommandLine(command) == EscapeChars(command, ShellSpecials)
    ensures UnescapeChars(ShellCommandLine(command), ShellSpecials) == command
    ensures AdbShellCommandLine(command) == AdbPrefix + EscapeChars(command, AdbSpecials)
    ensures |AdbShellCommandLine(command)| >= |AdbPrefix|
    ensures AdbShellCommandLine(command)[..|AdbPrefix|] == AdbPrefix
    ensures UnescapeChars(AdbShellCommandLine(command)[|AdbPrefix|..], AdbSpecials) == command
  {
    ShellEscapeCommandSpec(command);
    AdbShellEscapeCommandSpec(command);
    var r := AdbShellCommandLine(command);
    assert r[|AdbPrefix|..] == AdbShellEscapeCommand(command);
  }

  /** Two remote commands give the same `adb_shell` command line exactly
      when they are the same command. */
  lemma AdbShellCommandLineInjective(a: string, b: string)
    ensures AdbShellCommandLine(a) == AdbShellCommandLine(b) <==> a == b
  {
    if AdbShellCommandLine(a) == AdbShellCommandLine(b) {
      CommandLinesSpec(a);
      CommandLinesSpec(b);
      assert EscapeChars(a, AdbSpecials) == AdbShellCommandLine(a)[|AdbPrefix|..];
      assert EscapeChars(b, AdbSpecials) == AdbShellCommandLine(b)[|AdbPrefix|..];
      EscapeInjective(a, b, AdbSpecials);
    }
  }

  // ---------------------------------------------------------------------
  // Local cache path

  /** The character that stands for `x` in a local cache file name. */
  function Dashed(x: char): char
  {
    if x == '/' then '-' else x
  }

  /** The local cache path is the staging directory followed by the remote
      path, of the same length, with `/` turned into `-` and every other
      character kept; after the prefix it holds no `/`. */
  lemma LocalPathForSpec(remote: string)
    ensures |LocalPathFor(remote)| == |StagingDir| + |remote|
    ensures LocalPathFor(remote)[..|StagingDir|] == StagingDir
    ensures forall i :: 0 <= i < |remote| ==> LocalPathFor(remote)[|StagingDir| + i] == Dashed(remote[i])
    ensures forall i :: |StagingDir| <= i < |LocalPathFor(remote)| ==> LocalPathFor(remote)[i] != '/'
  {
    ReplaceCharPointwise(remote, '/', '-');
    var r := LocalPathFor(remote);
    forall i | |StagingDir| <= i < |r|
      ensures r[i] != '/'
    {
      assert r[i] == Dashed(remote[i - |StagingDir|]);
    }
  }

  /** Two remote paths share a local cache file exactly when they have the
      same length and agree at every position once `/` is read as `-`. */
  lemma LocalPathCollision(p: string, q: string)
    ensures LocalPathFor(p) == LocalPathFor(q) <==>
      |p| == |q| && forall i :: 0 <= i < |p| ==> Dashed(p[i]) == Dashed(q[i])
  {
    LocalPathForSpec(p);
    LocalPathForSpec(q);
    var lp, lq := LocalPathFor(p), LocalPathFor(q);
    if |p| == |q| && forall i :: 0 <= i < |p| ==> Dashed(p[i]) == Dashed(q[i]) {
      forall i | 0 <= i < |lp|
        ensures lp[i] == lq[i]
      {
        if i < |StagingDir| {
          assert lp[..|StagingDir|][i] == lq[..|StagingDir|][i];
        } else {
          var j := i - |StagingDir|;
          assert lp[|StagingDir| + j] == Dashed(p[j]);
          assert lq[|StagingDir| + j] == Dashed(q[j]);
        }
      }
    }
    if lp == lq {
      forall i | 0 <= i < |p|
        ensures Dashed(p[i]) == Dashed(q[i])
      {
        assert lp[|StagingDir| + i] == lq[|StagingDir| + i];
      }
    }
  }

  /** The mapping is not injective: "/a/b" and "/a-b" share a cache file. */
  lemma LocalPathNotInjective()
    ensures "/a/b" != "/a-b" && LocalPathFor("/a/b") == LocalPathFor("/a-b")
  {
    var p, q := "/a/b", "/a-b";
    assert p[2] != q[2];
    assert forall i :: 0 <= i < |p| ==> Dashed(p[i]) == Dashed(q[i]);
    LocalPathCollision(p, q);
  }
}
