/**
 * The automatic uninstaller: after a package is installed, run the uninstall
 * command of every registry key captured in the package's registry snapshot,
 * record a failure message on the package result for every command that exits
 * non-zero, and leave the last such exit code as the process exit code.
 */
module AutomaticUninstaller {
  import opened CommandLine
  import opened Installers

  datatype Option<T> = None | Some(value: T)

  /** One uninstaller entry captured from the registry. */
  datatype RegistryKey = RegistryKey(uninstallString: string, hasQuietUninstall: bool, installerType: InstallerType)

  /** The captured registry keys, in enumeration order; the list itself may be null. */
  datatype RegistrySnapshot = RegistrySnapshot(registryKeys: Option<seq<RegistryKey>>)

  /** The stored information about a package; the snapshot may be null. */
  datatype PackageInformation = PackageInformation(registrySnapshot: Option<RegistrySnapshot>)

  /** The parts of the configuration the uninstaller reads. */
  datatype Configuration = Configuration(autoUninstaller: bool, commandExecutionTimeoutSeconds: int)

  datatype ResultType = Info | Note | Warn | Error

  datatype ResultMessage = ResultMessage(messageType: ResultType, message: string)

  /** One call of the external command executor. */
  datatype Invocation = Invocation(executable: string, arguments: string, timeoutSeconds: int)

  const FailureText: string := " Auto uninstaller failed. Please remove machine installation manually."

  /** or_empty_list_if_null: a null list reads as an empty one; any other list is kept as it is. */
  function OrEmptyListIfNull(keys: Option<seq<RegistryKey>>): (r: seq<RegistryKey>)
    ensures r == [] <==> keys.None? || keys.value == []
    ensures r != [] ==> r == keys.value
  {
    if keys.Some? then keys.value else []
  }

  /**
   * The keys the uninstaller works through: none when the feature is off or the
   * package has no snapshot, otherwise the snapshot's keys in order.
   */
  function KeysToUninstall(config: Configuration, info: PackageInformation): (r: seq<RegistryKey>)
    ensures r == [] <==> || !config.autoUninstaller
                         || info.registrySnapshot.None?
                         || info.registrySnapshot.value.registryKeys.None?
                         || info.registrySnapshot.value.registryKeys.value == []
    ensures r != [] ==> r == info.registrySnapshot.value.registryKeys.value
  {
    if !config.autoUninstaller then []
    else if info.registrySnapshot.None? then []
    else OrEmptyListIfNull(info.registrySnapshot.value.registryKeys)
  }

  /** The fragments of the uninstall string: to_string, then the split. */
  function Fragments(uninstallString: string): seq<string>
  {
    Split(ToString(uninstallString))
  }

  /** The uninstaller path: the first fragment, quotes removed ("" when there is none). */
  function Executable(uninstallString: string): string
  {
    RemoveSurroundingQuotes(FirstOrEmpty(Fragments(uninstallString)))
  }

  /**
   * The executable path contains no separator; it is empty exactly when there
   * is no fragment or the first fragment is a bare pair of quotes; and it is the
   * first fragment itself exactly when that fragment is not quoted.
   */
  lemma ExecutablePath(uninstallString: string)
    ensures var pieces, exe := Fragments(uninstallString), Executable(uninstallString);
            && DelimiterFree(exe)
            && (exe == "" <==> pieces == [] || pieces[0] == "\"\"")
            && (pieces != [] ==> (exe == pieces[0] <==> !IsQuoted(pieces[0])))
  {
    var pieces := Fragments(uninstallString);
    var first := FirstOrEmpty(pieces);
    assert pieces != [] ==> first in pieces;
    QuotesKeepDelimiterFree(first);
  }

  /** The split fragments after List.Remove of the executable path. */
  function RemainingArguments(uninstallString: string): seq<string>
  {
    RemoveFirst(Fragments(uninstallString), Executable(uninstallString))
  }

  /**
   * List.Remove leaves one fragment fewer when the executable path is among
   * the fragments and all of them otherwise, and every argument left is a
   * non-empty, separator-free fragment of the split.
   */
  lemma RemainingArgumentsOfSplit(uninstallString: string)
    ensures var pieces, args := Fragments(uninstallString), RemainingArguments(uninstallString);
            && |args| == (if Executable(uninstallString) in pieces then |pieces| - 1 else |pieces|)
            && forall a :: a in args ==> a in pieces && a != "" && DelimiterFree(a)
  {
    RemoveFirstShrinks(Fragments(uninstallString), Executable(uninstallString));
  }

  /** The argument list handed to the executor, before joining. */
  function UninstallArguments(key: RegistryKey, fragments: UninstallFragments): seq<string>
  {
    var rest := RemainingArguments(key.uninstallString);
    if key.hasQuietUninstall then rest
    else rest + [fragments.For(SelectInstaller(key.installerType))]
  }

  /** The command run for one registry key, with the configured timeout. */
  function CommandFor(key: RegistryKey, timeout: int, fragments: UninstallFragments): Invocation
  {
    Invocation(Executable(key.uninstallString), Join(UninstallArguments(key, fragments), " "), timeout)
  }

  /** The commands run for the keys, one per key and in the keys' order. */
  function Commands(keys: seq<RegistryKey>, timeout: int, fragments: UninstallFragments): (cmds: seq<Invocation>)
    ensures |cmds| == |keys|
    ensures forall i :: 0 <= i < |keys| ==> cmds[i] == CommandFor(keys[i], timeout, fragments)
  {
    seq(|keys|, i requires 0 <= i < |keys| => CommandFor(keys[i], timeout, fragments))
  }

  /** The exit codes of the first n commands run, where exitCodeOf(k) is the exit code of the k-th one. */
  function ExitCodes(n: nat, exitCodeOf: nat -> int): (codes: seq<int>)
    ensures |codes| == n
    ensures forall k :: 0 <= k < n ==> codes[k] == exitCodeOf(k)
  {
    seq(n, k requires 0 <= k => exitCodeOf(k))
  }

  /** The messages added for a run of commands with these exit codes, in order. */
  function FailureMessages(codes: seq<int>): (ms: seq<ResultMessage>)
    ensures |ms| <= |codes|
    ensures forall m :: m in ms ==> m == ResultMessage(Error, FailureText)
  {
    if codes == [] then []
    else
      FailureMessages(codes[..|codes| - 1])
      + (if codes[|codes| - 1] != 0 then [ResultMessage(Error, FailureText)] else [])
  }

  /** The positions of the failing commands. */
  function FailingIndices(codes: seq<int>): set<nat>
  {
    set i: nat | i < |codes| && codes[i] != 0
  }

  /**
   * The exit code left behind: each non-zero code overwrites it, zeros never
   * do. It is therefore the initial code or one of the non-zero codes.
   */
  function FinalExitCode(codes: seq<int>, initial: int): (r: int)
    ensures r == initial || (r != 0 && r in codes)
  {
    if codes == [] then initial
    else if codes[|codes| - 1] != 0 then codes[|codes| - 1]
    else FinalExitCode(codes[..|codes| - 1], initial)
  }

  /** An empty uninstall string gives an empty executable path and no arguments. */
  lemma ParseEmpty()
    ensures Executable("") == ""
    ensures RemainingArguments("") == []
  {
    SplitEmpty();
  }

  /**
   * An uninstall string of blanks reads as empty, so it too gives an empty
   * executable path and no arguments.
   */
  lemma ParseBlank(uninstallString: string)
    requires IsBlank(uninstallString)
    ensures Executable(uninstallString) == ""
    ensures RemainingArguments(uninstallString) == []
  {
    SplitEmpty();
  }

  /**
   * When the first fragment carries no surrounding quotes it is the executable,
   * List.Remove deletes exactly it, and the arguments are the other fragments
   * in order.
   */
  lemma ParseUnquoted(uninstallString: string)
    requires Fragments(uninstallString) != []
    requires !IsQuoted(Fragments(uninstallString)[0])
    ensures Executable(uninstallString) == Fragments(uninstallString)[0]
    ensures RemainingArguments(uninstallString) == Fragments(uninstallString)[1..]
  {
    var pieces := Fragments(uninstallString);
    assert IndexOf(pieces, pieces[0]) == 0;
  }

  /**
   * When the first fragment is quoted, the executable is the fragment without
   * its quotes, so List.Remove does not find the fragment itself: the quoted
   * fragment stays as the first argument, and at most one later fragment equal
   * to the unquoted path is removed instead.
   */
  lemma ParseQuoted(uninstallString: string)
    requires Fragments(uninstallString) != []
    requires IsQuoted(Fragments(uninstallString)[0])
    ensures Executable(uninstallString) != Fragments(uninstallString)[0]
    ensures RemainingArguments(uninstallString)
         == [Fragments(uninstallString)[0]] + RemoveFirst(Fragments(uninstallString)[1..], Executable(uninstallString))
    ensures |RemainingArguments(uninstallString)| >= |Fragments(uninstallString)| - 1
  {
    var pieces := Fragments(uninstallString);
    var exe := Executable(uninstallString);
    assert pieces == [pieces[0]] + pieces[1..];
    RemoveFirstMultiset(pieces, exe);
  }

  /**
   * List.Remove takes out at most one fragment, the first one equal to the
   * executable path; every other fragment stays, in order.
   */
  lemma ParseRemovesAtMostOne(uninstallString: string)
    ensures var pieces, exe := Fragments(uninstallString), Executable(uninstallString);
            && multiset(RemainingArguments(uninstallString)) == multiset(pieces) - multiset{exe}
            && (exe !in pieces ==> RemainingArguments(uninstallString) == pieces)
            && (exe in pieces ==>
                  var i := IndexOf(pieces, exe);
                  exe !in pieces[..i] && RemainingArguments(uninstallString) == pieces[..i] + pieces[i + 1..])
  {
    var pieces, exe := Fragments(uninstallString), Executable(uninstallString);
    assert RemainingArguments(uninstallString) == RemoveFirst(pieces, exe);
    RemoveFirstMultiset(pieces, exe);
  }

  /** A quoted path followed by two switches splits into the quoted path and the bare switch letters. */
  lemma SplitExample()
    ensures Split("\"C:\\x.exe\" /S -q") == ["\"C:\\x.exe\"", "S", "q"]
  {
    var raw := "\"C:\\x.exe\" /S -q";
    var ps := ["\"C:\\x.exe\"", "S", "q"];
    var ds := [" /", " -"];
    assert Interleave(ps, ds) == raw by {
      assert Interleave(ps[2..], ds[2..]) == "q";
      assert Interleave(ps[1..], ds[1..]) == "S" + " -" + "q";
    }
    forall p | p in ps ensures DelimiterFree(p) {
    }
    PiecesUnique(ps, ds);
    RemoveEmptyEntriesNoneEmpty(ps);
  }

  /** That uninstall string is not blank, so its fragments are its split. */
  lemma FragmentsExample()
    ensures Fragments("\"C:\\x.exe\" /S -q") == ["\"C:\\x.exe\"", "S", "q"]
  {
    var raw := "\"C:\\x.exe\" /S -q";
    assert !IsWhiteSpace(raw[1]);
    assert ToString(raw) == raw;
    SplitExample();
  }

  /**
   * For that uninstall string the quoted path is not removed from the
   * arguments, and the switches have lost their '/' and '-'.
   */
  lemma ParseExample()
    ensures Executable("\"C:\\x.exe\" /S -q") == "C:\\x.exe"
    ensures RemainingArguments("\"C:\\x.exe\" /S -q") == ["\"C:\\x.exe\"", "S", "q"]
  {
    var raw := "\"C:\\x.exe\" /S -q";
    var ps := ["\"C:\\x.exe\"", "S", "q"];
    FragmentsExample();
    var exe := "C:\\x.exe";
    assert ps[0] == ['"'] + exe + ['"'];
    QuotesRoundTrip(exe);
    assert Executable(raw) == RemoveSurroundingQuotes(ps[0]) == exe;
    assert exe !in ps by {
      assert exe != ps[0] && exe != ps[1] && exe != ps[2];
    }
    assert RemainingArguments(raw) == RemoveFirst(ps, exe);
  }

  /**
   * A key that already uninstalls quietly gets no installer arguments: its
   * argument list is the split remainder whatever its installer type.
   */
  lemma QuietKeyArguments(key: RegistryKey, fragments: UninstallFragments)
    requires key.hasQuietUninstall
    ensures forall t :: UninstallArguments(key.(installerType := t), fragments) == RemainingArguments(key.uninstallString)
    ensures Join(UninstallArguments(key, fragments), " ") == Join(RemainingArguments(key.uninstallString), " ")
  {
  }

  /**
   * A key that does not uninstall quietly gets exactly one fragment, its
   * installer's, after the split remainder, and the joined argument string
   * ends with it.
   */
  lemma {:induction false} NonQuietKeyArguments(key: RegistryKey, fragments: UninstallFragments)
    requires !key.hasQuietUninstall
    ensures var rest := RemainingArguments(key.uninstallString);
            var args := UninstallArguments(key, fragments);
            var fragment := fragments.For(SelectInstaller(key.installerType));
            && |args| == |rest| + 1
            && args[..|rest|] == rest
            && args[|rest|] == fragment
            && Join(args, " ") == if rest == [] then fragment else Join(rest, " ") + " " + fragment
  {
    var rest := RemainingArguments(key.uninstallString);
    JoinAppend(rest, fragments.For(SelectInstaller(key.installerType)), " ");
  }

  /**
   * The command for a key runs its executable path with the configured
   * timeout; for a key that does not uninstall quietly the argument string
   * ends with the selected installer's fragment, after one space when anything
   * precedes it.
   */
  lemma CommandArguments(key: RegistryKey, timeout: int, fragments: UninstallFragments)
    ensures var c := CommandFor(key, timeout, fragments);
            && c.executable == Executable(key.uninstallString)
            && c.timeoutSeconds == timeout
            && (!key.hasQuietUninstall ==>
                  var f := fragments.For(SelectInstaller(key.installerType));
                  var rest := RemainingArguments(key.uninstallString);
                  c.arguments == if rest == [] then f else Join(rest, " ") + " " + f)
  {
    if !key.hasQuietUninstall {
      NonQuietKeyArguments(key, fragments);
    }
  }

  /** For an MSI key without a quiet uninstall, the MSI installer's fragment ends the argument string. */
  lemma MsiKeyArguments(key: RegistryKey, timeout: int, fragments: UninstallFragments)
    requires !key.hasQuietUninstall && key.installerType == Msi
    ensures var rest := Join(RemainingArguments(key.uninstallString), " ");
            CommandFor(key, timeout, fragments).arguments
              == if RemainingArguments(key.uninstallString) == [] then fragments.msi else rest + " " + fragments.msi
  {
    CommandArguments(key, timeout, fragments);
  }

  /** With the feature off, no snapshot, or a null key list, nothing is run and nothing is recorded. */
  lemma {:induction false} NothingToUninstall(config: Configuration, info: PackageInformation, fragments: UninstallFragments,
                                              exitCodeOf: nat -> int, initial: int)
    requires || !config.autoUninstaller
             || info.registrySnapshot.None?
             || info.registrySnapshot.value.registryKeys.None?
    ensures var codes := ExitCodes(|KeysToUninstall(config, info)|, exitCodeOf);
            && Commands(KeysToUninstall(config, info), config.commandExecutionTimeoutSeconds, fragments) == []
            && FailureMessages(codes) == []
            && FinalExitCode(codes, initial) == initial
  {
    var codes := ExitCodes(|KeysToUninstall(config, info)|, exitCodeOf);
    assert codes == [];
  }

  /** One failure message per failing command, all of them the same error. */
  lemma {:induction false} FailureMessagesCount(codes: seq<int>)
    ensures |FailureMessages(codes)| == |FailingIndices(codes)|
    decreases |codes|
  {
    if codes != [] {
      var n := |codes| - 1;
      var prefix := codes[..n];
      FailureMessagesCount(prefix);
      var last := if codes[n] != 0 then {n} else {};
      assert FailingIndices(codes) == FailingIndices(prefix) + last by {
        forall i: nat | i in FailingIndices(codes) && i != n ensures i in FailingIndices(prefix) {
          assert prefix[i] == codes[i];
        }
      }
      assert n !in FailingIndices(prefix);
    }
  }

  /** Zero exit codes never change the exit code. */
  lemma {:induction false} FinalExitCodeAllZero(codes: seq<int>, initial: int)
    requires forall i :: 0 <= i < |codes| ==> codes[i] == 0
    ensures FinalExitCode(codes, initial) == initial
    decreases |codes|
  {
    if codes != [] {
      FinalExitCodeAllZero(codes[..|codes| - 1], initial);
    }
  }

  /** The exit code left behind is that of the last failing command: last write wins. */
  lemma {:induction false} FinalExitCodeLastFailure(codes: seq<int>, initial: int, j: nat)
    requires j < |codes| && codes[j] != 0
    requires forall k :: j < k < |codes| ==> codes[k] == 0
    ensures FinalExitCode(codes, initial) == codes[j]
    decreases |codes|
  {
    if j < |codes| - 1 {
      var prefix := codes[..|codes| - 1];
      FinalExitCodeLastFailure(prefix, initial, j);
    }
  }

  /**
   * When exactly one of the commands fails, exactly one message is added and
   * the exit code left behind is that command's.
   */
  lemma SingleFailure(codes: seq<int>, initial: int, k: nat)
    requires k < |codes| && codes[k] != 0
    requires forall i :: 0 <= i < |codes| && i != k ==> codes[i] == 0
    ensures FailureMessages(codes) == [ResultMessage(Error, FailureText)]
    ensures FinalExitCode(codes, initial) == codes[k]
  {
    FailureMessagesCount(codes);
    assert FailingIndices(codes) == {k};
    FinalExitCodeLastFailure(codes, initial, k);
    var ms := FailureMessages(codes);
    assert |ms| == 1 && ms[0] in ms;
  }

  lemma PrefixSnoc<T>(s: seq<T>, i: nat)
    requires i < |s|
    ensures s[..i + 1] == s[..i] + [s[i]] && s[..i + 1][..i] == s[..i]
  {
  }

  /** One more command: its failure, if any, adds one message and overwrites the exit code. */
  lemma RunStep(codes: seq<int>, i: nat, initial: int)
    requires i < |codes|
    ensures FailureMessages(codes[..i + 1])
         == FailureMessages(codes[..i]) + (if codes[i] != 0 then [ResultMessage(Error, FailureText)] else [])
    ensures FinalExitCode(codes[..i + 1], initial)
         == if codes[i] != 0 then codes[i] else FinalExitCode(codes[..i], initial)
  {
    PrefixSnoc(codes, i);
  }

  /**
   * The preparation of one key's command line: split the uninstall string,
   * take the unquoted first fragment as the executable, remove it from the
   * list, and append the installer's fragment unless the key is quiet.
   */
  method PrepareUninstall(key: RegistryKey, fragments: UninstallFragments) returns (uninstallExe: string, uninstallArgs: seq<string>)
    ensures uninstallExe == Executable(key.uninstallString)
    ensures uninstallArgs == UninstallArguments(key, fragments)
  {
    uninstallArgs := Split(ToString(key.uninstallString));
    uninstallExe := RemoveSurroundingQuotes(FirstOrEmpty(uninstallArgs));
    uninstallArgs := RemoveFirst(uninstallArgs, uninstallExe);
    if !key.hasQuietUninstall {
      var installer := SelectInstaller(key.installerType);
      uninstallArgs := uninstallArgs + [fragments.For(installer)];
    }
  }

  /** The package result the uninstaller appends its messages to. */
  class PackageResult {
    var messages: seq<ResultMessage>

    constructor (messages: seq<ResultMessage>)
      ensures this.messages == messages
    {
      this.messages := messages;
    }
  }

  class AutomaticUninstallerService {
    /** The process exit code (Environment.ExitCode). */
    var exitCode: int
    /** Every command handed to the executor so far, in order. */
    ghost var executed: seq<Invocation>

    constructor (exitCode: int)
      ensures this.exitCode == exitCode && executed == []
    {
      this.exitCode := exitCode;
      executed := [];
    }

    /**
     * Runs the uninstall command of every key of the package's snapshot, in
     * order, without stopping at a failure. `info` is what the package
     * information lookup returns, `fragments` what the installer classes
     * produce, and exitCodeOf(k) the exit code of the k-th command run.
     */
    method Run(packageResult: PackageResult, config: Configuration, info: PackageInformation,
               fragments: UninstallFragments, exitCodeOf: nat -> int)
      modifies this, packageResult
      ensures var cmds := Commands(KeysToUninstall(config, info), config.commandExecutionTimeoutSeconds, fragments);
              var codes := ExitCodes(|cmds|, exitCodeOf);
              && executed == old(executed) + cmds
              && packageResult.messages == old(packageResult.messages) + FailureMessages(codes)
              && exitCode == FinalExitCode(codes, old(exitCode))
    {
      if config.autoUninstaller {
        if info.registrySnapshot.Some? {
          var keys := OrEmptyListIfNull(info.registrySnapshot.value.registryKeys);
          assert keys == KeysToUninstall(config, info);
          UninstallEach(packageResult, keys, config.commandExecutionTimeoutSeconds, fragments, exitCodeOf);
          return;
        }
      }
      assert KeysToUninstall(config, info) == [];
      assert ExitCodes(0, exitCodeOf) == [];
    }

    /**
     * One key: prepare its command line, run it (the executor answers with
     * `code`), and on a non-zero exit code overwrite the exit code and add the
     * failure message; a zero exit code changes neither.
     */
    method UninstallKey(packageResult: PackageResult, key: RegistryKey, timeout: int,
                        fragments: UninstallFragments, code: int)
      modifies this, packageResult
      ensures executed == old(executed) + [CommandFor(key, timeout, fragments)]
      ensures packageResult.messages
           == old(packageResult.messages) + (if code != 0 then [ResultMessage(Error, FailureText)] else [])
      ensures exitCode == if code != 0 then code else old(exitCode)
    {
      var uninstallExe, uninstallArgs := PrepareUninstall(key, fragments);
      var command := Invocation(uninstallExe, Join(uninstallArgs, " "), timeout);
      executed := executed + [command];
      if code != 0 {
        exitCode := code;
        packageResult.messages := packageResult.messages + [ResultMessage(Error, FailureText)];
      }
    }

    /**
     * The loop over the keys: prepare each key's command line, run it, and on a
     * non-zero exit code overwrite the exit code and add the failure message.
     */
    method UninstallEach(packageResult: PackageResult, keys: seq<RegistryKey>, timeout: int,
                         fragments: UninstallFragments, exitCodeOf: nat -> int)
      modifies this, packageResult
      ensures var codes := ExitCodes(|keys|, exitCodeOf);
              && executed == old(executed) + Commands(keys, timeout, fragments)
              && packageResult.messages == old(packageResult.messages) + FailureMessages(codes)
              && exitCode == FinalExitCode(codes, old(exitCode))
    {
      ghost var cmds := Commands(keys, timeout, fragments);
      ghost var codes := ExitCodes(|keys|, exitCodeOf);
      var i := 0;
      while i < |keys|
        invariant 0 <= i <= |keys|
        invariant executed == old(executed) + cmds[..i]
        invariant packageResult.messages == old(packageResult.messages) + FailureMessages(codes[..i])
        invariant exitCode == FinalExitCode(codes[..i], old(exitCode))
      {
        UninstallKey(packageResult, keys[i], timeout, fragments, exitCodeOf(i));
        RunStep(codes, i, old(exitCode));
        PrefixSnoc(cmds, i);
        i := i + 1;
      }
      assert codes[..|keys|] == codes;
      assert cmds[..|keys|] == cmds;
    }
  }
}
