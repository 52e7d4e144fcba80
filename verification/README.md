# rust-config-mgmt-tool: the convergence run of `main`, in Dafny

The tool reads a manifest of packages and files and converges the host to it.
It runs `apt-get update`. It installs each package. For each file, it copies
the source over the target when the contents differ, creating the parent
folder first if that folder is missing, and it always runs chown and chmod.
At the end it restarts the service named by every file whose content was
replaced.

This project models that decision procedure as a pure planner. `Plan.Converge`
takes the parsed manifest (`Manifest.ConfigType`) and a view of the host
(`HostView.Host`). It returns the ordered list of commands the program issues
(`Actions.Action`), together with how the run ended: `Completed`, or
`Aborted(k)` when `fs::copy` failed for the file at position `k` and `?`
returned the error from `main`.

The host view holds:
- one `Probe` per file position, which gives the answers the host returns when
  the run reaches that file: whether `file_diff::diff` reports equal content,
  whether the parent is a directory, and whether the copy succeeds;
- `parentOf`, standing for `Path::parent`;
- `resolveSource`, standing for the join of `source` onto the config file's
  folder.

The exit statuses of `apt-get update`, `apt-get install` and
`service ... restart` only choose which message is printed. Those of `mkdir`,
`chown` and `chmod` are never read; their stderr is forwarded as it is. None
of them changes the commands that follow, so the plan takes no input for
them, and a failed update or install cannot change anything that follows by
construction.

`Agent.RunMain` writes the same run as `main`'s three loops, including the
early return on a failed copy and the empty-name check in the restart loop.
It is proved equal to `Plan.Converge`.

Modules: `Manifest` (records), `Actions` (commands), `HostView`, `Packages`
(install argument and package loop), `Files` (one file entry and the file
loop), `FileLoop` (facts about the file loop), `Triggers` (restart loop),
`Plan` (the whole run and its properties), `Agent` (the loops as methods),
`Scenarios` (concrete runs).

Points of the code worth stating outright:
- Triggers go into a plain vector with no membership test, so restarts are not
  deduplicated. A service named by two changed files is restarted twice
  (`Scenarios.SharedTrigger`).
- A failed copy ends the whole run through `?`. Nothing runs after it: no
  chown or chmod for that file, no later file, no restart.
- An empty `ensure` is not "latest", so the install argument becomes `name=`
  (`Packages.EmptyEnsurePinsEmptyVersion`), an install pinned to an empty
  version.
- The result of `mkdir -p` is not checked. A failed mkdir changes the run only
  if the following copy then fails.

## Model

| member | source | states |
|---|---|---|
| Packages.InstallArg | src/main.rs:72-76 | the install argument starts with the package name; it is exactly the name iff `ensure` is "latest", and otherwise the name is followed by '=' and the `ensure` value |
| Packages.ReadInstallArg | src/main.rs:72 | the split of `name[=version]` at the first '=': the name part has no '='; an unpinned reading is the whole argument; a pinned one rebuilds the argument as name, '=', version |
| Packages.InstallArgRoundTrip | src/main.rs:72-76 | for any name without '=', splitting the argument at the first '=' recovers exactly the manifest's request: that name, pinned to `ensure` unless `ensure` is "latest" |
| Packages.EmptyEnsurePinsEmptyVersion | src/main.rs:74-75 | an empty `ensure` yields `name=`, an install pinned to an empty version |
| Packages.InstallAll | src/main.rs:70-92 | one install per package, in manifest order, each with that package's formatted argument |
| Files.ReconcileFile | src/main.rs:101-141 | an unchanged file gets only chown and chmod, with no trigger; the entry aborts exactly when the content differs and the copy fails; at most one trigger is recorded, exactly when the content differed, the copy succeeded and the trigger is non-empty, and it is that trigger |
| Files.ChangedFileOrder | src/main.rs:105-120 | for a changed file, mkdir of the parent is issued exactly when the parent is not a directory and comes first; the copy follows, and chown and chmod come only after the copy |
| Files.UnchangedFileNoCopy | src/main.rs:102-105 | an unchanged file issues no mkdir and no copy |
| Files.FileEnforcement | src/main.rs:120-140 | unless the copy failed, chown with `owner:group` and chmod with `mode` are issued once each and close the entry; after a failed copy the copy is the last action and there is no chown or chmod |
| Files.ReconcileFiles | src/main.rs:94-142 | the collected triggers are never empty; the file loop issues only mkdir, copy, chown and chmod; an abort names a position whose copy failed |
| FileLoop.FilesCompleted | src/main.rs:94-142 | the file loop completes iff no copy fails; it then records the triggers of the replaced files in manifest order, duplicates kept, and issues chown and chmod for every file in manifest order |
| FileLoop.FilesAborted | src/main.rs:120 | when the first failing copy is at position k, the loop's output is the loop over the files before k, then file k's mkdir and copy, with status Aborted(k) |
| FileLoop.AllEqualFiles | src/main.rs:102-140 | when every file compares equal, the loop issues only chown and chmod for each file and records no trigger |
| FileLoop.FiredCount | src/main.rs:122-125 | a service occurs among the fired triggers once for each replaced file that names it |
| Triggers.Dispatch | src/main.rs:145-159 | the restart loop issues no more restarts than there are triggers, each restarting a non-empty service taken from the trigger list (the one-restart-per-entry count is `Triggers.DispatchCount`) |
| Triggers.DispatchGuardNeverFilters | src/main.rs:145-150 | on a list with no empty name, the empty-name check drops nothing: one restart per entry, same order |
| Triggers.DispatchCount | src/main.rs:145-150 | a non-empty service is restarted as many times as it occurs in the trigger list |
| Plan.UpdateThenInstalls | src/main.rs:58-92 | the run starts with `apt-get update` and issues it exactly once, whatever the host answers; right after it come the installs, one per package in manifest order with that package's argument; no install appears anywhere else |
| Plan.StageOrder | src/main.rs:58-159 | the run goes through four stages in order (update, installs, file commands, restarts), so every restart comes after every file's commands |
| Plan.Converge | src/main.rs:58-161 | the whole run: it begins with `apt-get update`, holds more commands than there are packages, and ends normally iff no file's copy fails (the only `?` on a command result, line 120) |
| Plan.CompletedShape | src/main.rs:144-159 | a normal run is update, installs and file actions, followed by the restarts of the fired triggers |
| Plan.RestartsFollowFiredTriggers | src/main.rs:94-150 | on a normal run, the restarts are exactly the fired triggers, one each, in manifest order, not deduplicated |
| Plan.RestartCount | src/main.rs:122-150 | on a normal run, service s is restarted exactly as many times as there are replaced files whose trigger is s |
| Plan.EnforcementPerFile | src/main.rs:128-140 | every file the run reaches gets chown then chmod once each, in manifest order, changed or not; after an abort at k, only the files before k get them |
| FileLoop.FirstFailure | src/main.rs:95-120 | an aborted file loop stopped at the first position whose copy fails |
| FileLoop.FilesEnforcement | src/main.rs:120-140 | the file loop issues chown then chmod, once each and in manifest order, for exactly the files it reaches: all of them, or those before the failing copy |
| Plan.CopyFailureAborts | src/main.rs:120 | the first failing copy at k ends the run with status Aborted(k), and that copy is the last action; the run holds nothing for later files and no restart |
| Plan.AllEqualIsQuiet | src/main.rs:102-105 | when every file compares equal, the run is update, installs and chown/chmod per file; there is no mkdir, no copy and no restart |
| Agent.InstallPackages | src/main.rs:70-92 | the package loop issues the install for each package's formatted argument, in order |
| Agent.HandleFile | src/main.rs:101-140 | one pass of the file loop's body, with its early exit on a failed copy, matches the single-file plan |
| Agent.ReconcileEach | src/main.rs:94-142 | the file loop with its trigger vector and early return produces the file-loop plan, and completes iff no copy fails |
| Agent.RestartAll | src/main.rs:145-159 | the restart loop produces the dispatch plan; it restarts only services found in the trigger list |
| Agent.RunMain | src/main.rs:58-161 | the whole run, as `main` writes it, equals the plan; it completes iff no copy fails |
| Scenarios.SinglePackageSingleFile | src/main.rs:58-159 | for one "latest" package and one changed file with a missing folder: update, install `jq`, mkdir, copy, chown `root:root`, chmod `0644`, restart `app` |
| Scenarios.SharedTrigger | src/main.rs:122-150 | two files naming the same service: it is restarted once per changed file, so twice when both changed |

## Left out

- Command-line parsing with `structopt` (src/main.rs:12-16, 42) is argument plumbing and is left out.
- Opening the manifest and decoding it with `serde_yaml`, and the fatal error when that fails (src/main.rs:50-51), are left out. These belong to a foreign library. The model starts from the parsed `ConfigType`.
- Resolving `source` against the config file's folder (src/main.rs:46-47, 99) is the host-view function `resolveSource`. Path joining is not modelled.
- `Path::parent` on the target (src/main.rs:110) is the host-view function `parentOf`.
- The byte comparison of `file_diff::diff` and the `is_dir` test (src/main.rs:102, 111) are probe answers, not file I/O. The model does not relate probe answers to each other; for example, it does not force a folder created for one file to be seen as a directory by a later file. Each probe is whatever the host answers at that moment.
- Running commands, their exit statuses, stderr forwarding and every `println!` are left out. The statuses of update, install and restart only choose a message, and those of mkdir, chown and chmod are never read, so none of them is an input.
- Panics from `.expect` and `.unwrap` (failed spawn, missing parent, non-UTF-8 path, failed stderr write) are left out. The model assumes these calls succeed.
- The process exit code of the `Err` returned after a failed copy is left out. The model reports it as the `Aborted` status.
- Plan.AllEqualIsQuiet: idempotence across two runs is not modelled, only the case where every file compares equal. Probe answers are unconstrained, so nothing ties one run's copies to the next run's comparisons. In fact two entries with the same `filename` and sources of different content make every run copy again: the first entry's comparison always sees the second entry's content.
- Packages.ReadInstallArg: splits at the first '=' and is not a model of apt's own argument parser, which is outside this code. The two may read an argument differently when the name or `ensure` contains '=' or '/'.
