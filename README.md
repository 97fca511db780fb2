# Automatic uninstaller — a Dafny model

This project models Chocolatey's `AutomaticUninstallerService`. After a package is
installed, this service goes through the registry snapshot stored for the package.
For each captured uninstall key it runs the key's uninstall command. Before running
it, the service:

- reads the raw `UninstallString` through `to_string`, which turns a null or blank string into `""`;
- splits the result on the literal separators `" /"` and `" -"`, dropping empty entries;
- takes the first fragment, with its surrounding quotes removed, as the executable;
- calls `List.Remove` on the fragment list with that executable;
- appends the silent-uninstall arguments of the key's installer family, unless the key already uninstalls quietly.

After each command, every non-zero exit code overwrites the process exit code and adds one
error message to the package result. A failing key never stops the loop.

The project has three modules:

- `CommandLine` (`command_line.dfy`) holds the pure string and list operations. These are the
  separator split, the quote stripping, `List.Remove` and `join`. The split is characterised
  twice, on the fragments before empty ones are dropped. Gluing those fragments back together
  with their separators gives the input again. Conversely, any way of writing the input as
  separator-free fragments joined by separators gives exactly those fragments. Dropping the
  empty fragments then keeps the others in order, each as often as it occurs.
- `Installers` (`installers.dfy`) holds the mapping from installer-type tag to installer class.
- `AutomaticUninstaller` (`automatic_uninstaller.dfy`) holds the stored package information as
  datatypes. It also holds the specification functions for one run, and a `PackageResult` class
  and the `AutomaticUninstallerService` class. In the service class, `Run` checks the feature and
  the snapshot, `UninstallEach` is the loop over the keys, and `UninstallKey` is one pass of its
  body. Each is proved against those functions.

The external process call is an oracle. `exitCodeOf(k)` is the exit code returned by the k-th
command that `Run` starts. `Environment.ExitCode` is the `exitCode` field of the service. The
ghost field `executed` records every command handed to the executor: executable path, joined
argument string and timeout.

Behaviour of the code as written, which the model keeps:

- The separator text is discarded. For `"C:\x.exe" /S -q` the fragments are `"C:\x.exe"`,
  `S` and `q`, so the switches reach the uninstaller without their `/` and `-`.
- `List.Remove` is called with the unquoted path. A quoted first fragment is therefore never
  removed and is passed on as the first argument. If a later fragment equals the unquoted path,
  that fragment is removed instead.
- An empty uninstall string still leads to an executor call, with `""` as the executable.
  So does a string of white space only, because `to_string` reads it as `""`.
- Separator matching and `List.Remove` compare strings ordinally, character by character.

## Model

| member | source | states |
|---|---|---|
| CommandLine.ToString | src/chocolatey/infrastructure.app/services/AutomaticUninstallerService.cs:51 | a null, empty or white-space-only uninstall string reads as the empty string; any other string is used unchanged |
| CommandLine.Split | src/chocolatey/infrastructure.app/services/AutomaticUninstallerService.cs:51 | every fragment of the split is non-empty and contains neither `" /"` nor `" -"` |
| CommandLine.PiecesReassemble | src/chocolatey/infrastructure.app/services/AutomaticUninstallerService.cs:51 | gluing the fragments (empty ones included) back together with the separators found gives the uninstall string again; every separator found is `" /"` or `" -"`, and no fragment contains one |
| CommandLine.Pieces | src/chocolatey/infrastructure.app/services/AutomaticUninstallerService.cs:51 | the split before empty entries are dropped has one fragment more than there are separator occurrences, and its first fragment is a prefix of the input |
| CommandLine.PiecesUnique | src/chocolatey/infrastructure.app/services/AutomaticUninstallerService.cs:51 | any decomposition of a string into separator-free fragments joined by separators is exactly the fragments before empty ones are dropped, so every separator occurrence is a split point |
| CommandLine.RemoveEmptyEntries | src/chocolatey/infrastructure.app/services/AutomaticUninstallerService.cs:51 | the kept fragments are exactly the non-empty ones of the input |
| CommandLine.RemoveEmptyEntriesMultiset | src/chocolatey/infrastructure.app/services/AutomaticUninstallerService.cs:51 | each non-empty fragment is kept as many times as it occurs, and no empty fragment is kept |
| CommandLine.RemoveEmptyEntriesAppend | src/chocolatey/infrastructure.app/services/AutomaticUninstallerService.cs:51 | the fragments kept from a + b are those kept from a followed by those kept from b, so the kept fragments stay in input order |
| CommandLine.RemoveEmptyEntriesNoneEmpty | src/chocolatey/infrastructure.app/services/AutomaticUninstallerService.cs:51 | a list with no empty fragment is kept whole |
| CommandLine.SplitKeepsAllButDelimiters | src/chocolatey/infrastructure.app/services/AutomaticUninstallerService.cs:51 | the split fragments, concatenated, are the uninstall string with every separator occurrence deleted, so no other character is lost or reordered |
| CommandLine.SplitEmpty | src/chocolatey/infrastructure.app/services/AutomaticUninstallerService.cs:51 | an empty uninstall string yields no fragments |
| CommandLine.SplitWithoutDelimiter | src/chocolatey/infrastructure.app/services/AutomaticUninstallerService.cs:51 | a non-empty string without separators is a single fragment, itself |
| CommandLine.RemoveSurroundingQuotes | src/chocolatey/infrastructure.app/services/AutomaticUninstallerService.cs:52 | the result differs from the input exactly when the input is enclosed in double quotes, and then the input is the result with one quote added on each side |
| CommandLine.QuotesRoundTrip | src/chocolatey/infrastructure.app/services/AutomaticUninstallerService.cs:52 | quoting any string and removing the quotes gives it back |
| CommandLine.FirstOrEmpty | src/chocolatey/infrastructure.app/services/AutomaticUninstallerService.cs:52 | the first fragment when there is one; on a list without empty entries the result is empty exactly when the list is |
| CommandLine.QuotesRemovedOnce | src/chocolatey/infrastructure.app/services/AutomaticUninstallerService.cs:52 | under the assumed `remove_surrounding_quotes`, only one layer of quotes is removed: a quoted string quoted once more comes back still quoted (a corollary of `QuotesRoundTrip`) |
| CommandLine.IndexOf | src/chocolatey/infrastructure.app/services/AutomaticUninstallerService.cs:54 | the position found holds the element and no earlier position does; -1 exactly when the element is absent |
| CommandLine.RemoveFirst | src/chocolatey/infrastructure.app/services/AutomaticUninstallerService.cs:54 | `List.Remove` leaves the list unchanged when the element is absent, and otherwise deletes only the first occurrence, keeping everything else in order |
| CommandLine.RemoveFirstMultiset | src/chocolatey/infrastructure.app/services/AutomaticUninstallerService.cs:54 | `List.Remove` takes away at most one copy of the element and nothing else |
| CommandLine.Join | src/chocolatey/infrastructure.app/services/AutomaticUninstallerService.cs:85-88 | no items join to the empty string, and otherwise the joined string starts with the first item |
| CommandLine.JoinLength | src/chocolatey/infrastructure.app/services/AutomaticUninstallerService.cs:85-88 | the joined string is as long as all items together plus one separator per pair of neighbours |
| CommandLine.JoinAppend | src/chocolatey/infrastructure.app/services/AutomaticUninstallerService.cs:82-88 | an argument appended to the list ends the joined argument string, after a single space |
| Installers.SelectInstaller | src/chocolatey/infrastructure.app/services/AutomaticUninstallerService.cs:58-78 | Msi, InnoSetup and Nsis each select their own installer, and only that tag selects it; every other tag (InstallShield included) selects CustomInstaller |
| Installers.SelectInstallerOnto | src/chocolatey/infrastructure.app/services/AutomaticUninstallerService.cs:61-78 | every installer kind is selected by some tag, and each dedicated kind by exactly one tag |
| AutomaticUninstaller.OrEmptyListIfNull | src/chocolatey/infrastructure.app/services/AutomaticUninstallerService.cs:47 | the list is empty exactly when it is null or has no keys; otherwise it is the key list itself |
| AutomaticUninstaller.KeysToUninstall | src/chocolatey/infrastructure.app/services/AutomaticUninstallerService.cs:39-47 | no key is processed exactly when the feature is off, there is no registry snapshot, or its key list is null or empty; otherwise every key of the snapshot is, in order |
| AutomaticUninstaller.ExecutablePath | src/chocolatey/infrastructure.app/services/AutomaticUninstallerService.cs:51-52 | the executable path contains no separator; it is empty exactly when there is no fragment or the first fragment is a bare pair of quotes; it equals the first fragment exactly when that fragment is not quoted |
| AutomaticUninstaller.RemainingArgumentsOfSplit | src/chocolatey/infrastructure.app/services/AutomaticUninstallerService.cs:51-54 | one fragment fewer than the split when the executable path is among the fragments, all of them otherwise; every argument left is a non-empty, separator-free fragment of the split |
| AutomaticUninstaller.CommandArguments | src/chocolatey/infrastructure.app/services/AutomaticUninstallerService.cs:51-88 | the command runs the executable path with the configured timeout; for a key without quiet uninstall its argument string ends with the installer's fragment, after one space when other arguments precede it |
| AutomaticUninstaller.ParseEmpty | src/chocolatey/infrastructure.app/services/AutomaticUninstallerService.cs:51-54 | an empty uninstall string gives the empty executable path and no arguments, without any failing lookup |
| AutomaticUninstaller.ParseBlank | src/chocolatey/infrastructure.app/services/AutomaticUninstallerService.cs:51-54 | an uninstall string of white space only also gives the empty executable path and no arguments |
| AutomaticUninstaller.ParseUnquoted | src/chocolatey/infrastructure.app/services/AutomaticUninstallerService.cs:51-54 | when the first fragment is not quoted it is the executable, and the arguments are exactly the remaining fragments in order |
| AutomaticUninstaller.ParseQuoted | src/chocolatey/infrastructure.app/services/AutomaticUninstallerService.cs:52-54 | when the first fragment is quoted, the executable differs from it, the quoted fragment stays first in the arguments, and at most one later fragment is removed |
| AutomaticUninstaller.ParseRemovesAtMostOne | src/chocolatey/infrastructure.app/services/AutomaticUninstallerService.cs:54 | the arguments are the fragments minus the first one equal to the executable path, or all the fragments when none is equal |
| AutomaticUninstaller.SplitExample | src/chocolatey/infrastructure.app/services/AutomaticUninstallerService.cs:51 | `"C:\x.exe" /S -q` splits into `"C:\x.exe"`, `S`, `q` |
| AutomaticUninstaller.ParseExample | src/chocolatey/infrastructure.app/services/AutomaticUninstallerService.cs:51-54 | for `"C:\x.exe" /S -q` the executable is `C:\x.exe` and the arguments are `"C:\x.exe"`, `S`, `q` |
| AutomaticUninstaller.QuietKeyArguments | src/chocolatey/infrastructure.app/services/AutomaticUninstallerService.cs:51-56 | a quiet-capable key gets no installer fragment; its arguments are the split remainder whatever its installer type |
| AutomaticUninstaller.NonQuietKeyArguments | src/chocolatey/infrastructure.app/services/AutomaticUninstallerService.cs:51-85 | a key without quiet uninstall gets exactly one extra argument, its installer's fragment, after the unchanged split remainder, and the joined argument string ends with it |
| AutomaticUninstaller.MsiKeyArguments | src/chocolatey/infrastructure.app/services/AutomaticUninstallerService.cs:61-88 | for an MSI key without quiet uninstall, the argument string passed to the executor, whatever the timeout, ends with the MSI installer's fragment |
| AutomaticUninstaller.PrepareUninstall | src/chocolatey/infrastructure.app/services/AutomaticUninstallerService.cs:51-83 | the split, quote removal, `List.Remove` and `Add` on the argument list produce exactly the executable and arguments the specification functions describe |
| AutomaticUninstaller.FailureMessages | src/chocolatey/infrastructure.app/services/AutomaticUninstallerService.cs:100-106 | every message added is the Error "Auto uninstaller failed…" message, and there are never more messages than commands |
| AutomaticUninstaller.FailureMessagesCount | src/chocolatey/infrastructure.app/services/AutomaticUninstallerService.cs:100-106 | the number of messages added equals the number of commands whose exit code is non-zero |
| AutomaticUninstaller.FinalExitCode | src/chocolatey/infrastructure.app/services/AutomaticUninstallerService.cs:100-102 | the exit code left behind is the initial one or one of the non-zero exit codes |
| AutomaticUninstaller.FinalExitCodeAllZero | src/chocolatey/infrastructure.app/services/AutomaticUninstallerService.cs:100-102 | when every exit code is zero the process exit code is left unchanged |
| AutomaticUninstaller.FinalExitCodeLastFailure | src/chocolatey/infrastructure.app/services/AutomaticUninstallerService.cs:100-102 | the process exit code ends as the exit code of the last failing command: last write wins |
| AutomaticUninstaller.SingleFailure | src/chocolatey/infrastructure.app/services/AutomaticUninstallerService.cs:47-111 | when exactly one command fails, exactly one error message is added and the exit code is that command's |
| AutomaticUninstaller.NothingToUninstall | src/chocolatey/infrastructure.app/services/AutomaticUninstallerService.cs:39-47 | with the feature off, no registry snapshot, or a null key list, no command runs, no message is added and the exit code is unchanged |
| AutomaticUninstaller.AutomaticUninstallerService.UninstallKey | src/chocolatey/infrastructure.app/services/AutomaticUninstallerService.cs:49-106 | one key's command, the executable path and the joined arguments with the configured timeout, is handed to the executor; a non-zero exit code overwrites the exit code and adds one Error message; a zero exit code changes neither |
| AutomaticUninstaller.AutomaticUninstallerService.UninstallEach | src/chocolatey/infrastructure.app/services/AutomaticUninstallerService.cs:47-111 | the keys are processed in order, one command each, none skipped after a failure; the messages gain one failure message per failing command; the exit code ends as `FinalExitCode` of the exit codes |
| AutomaticUninstaller.AutomaticUninstallerService.Run | src/chocolatey/infrastructure.app/services/AutomaticUninstallerService.cs:35-118 | one command per key, in snapshot order, each the one the key's parsing describes, with the configured timeout, none skipped after a failure; the package's existing messages are kept and followed by one failure message per failing command; the exit code ends as `FinalExitCode` of the exit codes |

## Left out

- `CommandExecutor.execute` is not part of this model. It spawns a process with a timeout and two output callbacks. The model replaces it with the oracle `exitCodeOf`: the k-th command run returns `exitCodeOf(k)`. In the model the exit code does not depend on the command's text. Timeouts, output streaming and a process that cannot be launched (an exception that leaves `run`) are not modelled.
- All logging, including the two line-filtering output callbacks, is left out because it has no effect on the result.
- `get_package_information` is an external lookup. Its result is the `info` parameter of `Run`, and its snapshot may be absent.
- The installer classes and their `build_uninstall_command_arguments` are not part of this model. Each class's fragment is a given string in `UninstallFragments`.
- The extension helpers are not part of this model, so each has an assumed definition:
  - `remove_surrounding_quotes` removes one leading and one trailing `"` when both are present and the string has at least two characters.
  - `to_string` turns a null, empty or white-space-only uninstall string into `""` and returns any other string unchanged. The model's `uninstallString` is therefore a plain string, with null read as `""`.
- ToString: white space means space, tab, line feed, vertical tab, form feed and carriage return. The other Unicode white-space characters .NET recognises are not listed.
  - `or_empty_list_if_null` treats a null key list as empty.
  - `join` puts the separator between neighbours.
- `Environment.ExitCode` is process-wide state. Here it is the field `exitCode` of the service object.
- `InstallerType`: the members that the switch and the model name are Unknown, Custom, Msi, Nsis, InnoSetup and InstallShield. `Other` stands for any other member of the enumeration. `ResultType` lists only four severities, and only Error is produced here.
- `PackageResult` carries only its message list. The package it names is only used for the lookup and for logging.
