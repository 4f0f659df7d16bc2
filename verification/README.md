# A verified model of podup

podup runs Docker Compose projects on Podman. This project models the parts of it
whose correctness is least visible from any one function, and proves what they keep:

- **`FileReplace.dfy`**: `write_private` and the capped readers as processes over one
  directory. Every system call is one step, any call may fail, reads and writes are
  partial, and the steps of all processes interleave freely. The rename is the atomic
  step of the `rename` function of POSIX.1-2017 System Interfaces.
- **`ProjectLock.dfy`**: the project lock around a foreground `up`, for any number of
  processes and containers that exit on their own.
- **`SelfUpdate.dfy`**, **`Fleet.dfy`**: the gated update with its fetches, and the
  two-release key rotation over a fleet served by a source that may lie about anything
  it cannot sign.
- **`Chunked.dfy`**: chunked transfer coding (section 7.1 of RFC 9112), encoder and
  decoder, over a socket that splits its bytes at will.
- **`Substitute.dfy`**, **`ScopedCell.dfy`**: `${VAR}` substitution with its caps, its document and project
  budget and its warnings, and the thread-local cells its guards set.
- **`Dotenv.dfy`**, **`EnvFiles.dfy`**, **`TextOrder.dfy`**: the dotenv parser, and the
  two merges of env files that must agree.
- **`HostPaths.dfy`**: the two foldings of `.` and `..`, and the audit of bind sources.
- **`UnitQuoting.dfy`**, **`YamlBooleans.dfy`**, **`ConfigTree.dfy`**,
  **`ControlEscape.dfy`**, **`JsonText.dfy`**: rewritings of text and trees that must keep their meaning.
- **`Prelude.dfy`**, **`Utf8.dfy`**, **`ByteBits.dfy`**: the text and byte primitives of Rust's `str` the rest uses.

Where the source works step by step there is a class or a method with the source's
loops, whose contract ties it to a specification function or to a state machine; the
results are lemmas about those. Ed25519, SHA-256, the host environment, the files'
contents and Unicode's letter tables are parameters, so every result holds for all of
them. Of the installer the order of its questions is modelled: the installed file is
asked for its version before the swap, the new one after it. What is heard is computed
from what a podup binary writes, framed in blank lines or not; whether it answers at all,
and whether the process lives to ask, is left open.

`dafny verify dfyconfig.toml` checks the whole project with Dafny 4.11.

## Where the code and its description differ

The model follows the code. These lemmas say exactly where a description does not hold:

- `ProjectLock.OneMutatorAtATime`, `ProjectLock.ChangesNeedTheLock`,
  `ProjectLock.FinalStopIsComplete`: the lock is described as serialising the commands
  that change containers, and a rebuild or restart by `watch` as the mutation it exists
  for (internal/command_line/dispatch/mod.rs:141-143). A standalone `watch` takes no lock,
  so all three hold exactly of the command lists these lemmas name;
  `ProjectLock.WatchChangesBehindTheLock` is a run in which they fail. An `autostart`
  command that has systemd start, stop or restart the containers
  (internal/backends/autostart/quadlet/mod.rs:113, 259, 302, 370-378) takes no lock either,
  and is a `Watch` here.
- `SelfUpdate.BlankFirstLineIsNoAnswer`, `SelfUpdate.SelfTestTellsVersions`,
  `Fleet.FramedFleetStandsStill`: an update is described as installing the release it
  verified. `parse_cli` writes a blank line before the version
  (internal/command_line/startup/mod.rs:348-357, and tests/cli/surface/cli_aliases.rs:60-75
  asks for it), the installer reads the first line only, and so every update to a release
  that writes like this code fails its self-test and is rolled back. The results on the
  rotation name the framing in their conditions.
- `Fleet.UnforcedStepGoesBackIff`: an unforced update is described as never putting an
  older version over a newer one (internal/update/install/mod.rs:36-40), and the
  self-test as closing the way back through old signed releases. An installed file that
  does not answer is not compared, and a process that ends between swap and self-test
  leaves the new file there: `Fleet.AnUnansweredProbeGoesBack`,
  `Fleet.AnUntestedSwapGoesBack`.
- `Fleet.WhoCanTakeWhat`, `Fleet.ForceCanUndoTheMigration`: convergence of the rotation
  needs every machine to pass through a migration release, and nobody to force it back.
- `EnvFiles.RunsWithTheMergedMap`: the environment that runs and the one `config` prints
  agree, whatever the order of the keys, exactly when each key containing `=` only says
  again what is passed anyway (`EnvFiles.AKeyWithEqualsRunsAsAnother` where it does not);
  only a map-form `environment:` can have such a key.
- `HostPaths.AnonymousVolumesAreJudged`: a short volume without a colon is meant to be
  skipped as an anonymous volume, and is judged as a bind when it is an absolute path
  (`HostPaths.EtcAloneIsReported`).
- `HostPaths.FoldingsAgreeIffBelowRoot`: `normalize_lexically` keeps a `..` at the root,
  where a cleaned path drops it (`HostPaths.ParentOfTheRoot`).
- `YamlBooleans.QuotingTwiceIffNoDoubleCr`: quoting is idempotent on a text unless it
  holds two carriage returns before a newline, since reading lines takes one of them off
  (`YamlBooleans.DoubleCrIsReadAway`).
- `UnitQuoting.LineReadsBackIffNoDollar`: `$` is the one character the quoting of
  `PodmanArgs=` values leaves to the reader (`UnitQuoting.DollarIsRefused`).

## Model

| member | source | states |
|---|---|---|
| FileReplace.TargetIsAlwaysOneVersion | internal/backends/quadlet/unit_file.rs:48-91 | After any interleaving of any number of writers and readers, with any call failing, the name stands for the entry it started with or for one writer's complete text with mode 0600, and for something exactly if it did at the start or a writer succeeded |
| FileReplace.ReaderGetsOneVersion | internal/parsing/input/filesystem.rs:20-104 | A capped, head or mode-returning read that succeeds gives the bytes and the `0o666` bits of one whole version (the first `max` bytes for the head form); a refusal for size means that version really is longer than the limit |
| FileReplace.HandleWasTheTarget | internal/parsing/input/filesystem.rs:118-142 | The inode a reader ever has open is what the name stood for at the reader's own `open` call |
| FileReplace.NoWriterTouchesAnother | internal/backends/quadlet/unit_file.rs:65-90 | In every reachable state a call of a writer changes no inode and no entry it did not create, the target name excepted |
| FileReplace.TempsAreNotShared | internal/backends/quadlet/unit_file.rs:66-79 | No two writers share a temporary entry, two with one process id included, and none uses a name that was already there |
| FileReplace.NothingElseIsLeft | internal/backends/quadlet/unit_file.rs:81-90 | When every writer has returned, the directory holds its original entries, the target and what a failed cleanup left, and nothing else |
| FileReplace.OnlyAFailedCleanupLeavesATemp | internal/backends/quadlet/unit_file.rs:87-89 | A writer leaves its temporary file behind only if its own `remove_file` call failed |
| FileReplace.PowerCutLeavesOneVersion | internal/backends/quadlet/unit_file.rs:81-86 | Because of `sync_all` before the rename, whatever entry of the target a power cut leaves on the disk holds one whole version, if the entry it started with was on the disk |
| FileReplace.EveryWriterFinishes | internal/backends/quadlet/unit_file.rs:64-91 | A writer returns after at most as many of its own calls as its text has bytes, plus 20, whatever the others do |
| FileReplace.FailsIffACallGoesWrong | internal/backends/quadlet/unit_file.rs:64-91 | A writer gives up exactly when one of its own calls goes wrong: the kernel refuses it, or its 17th create finds its name taken as the others did, or, its text whole and on the disk, a directory stands at the target |
| FileReplace.WritersSucceedUnlessACallGoesWrong | internal/backends/quadlet/unit_file.rs:81-91 | After as many of its own calls as it can need a writer has succeeded exactly when none of them went wrong, and then right after one of its calls the target stood for its whole text, private and on the disk |
| FileReplace.SuccessPutsTheText | internal/backends/quadlet/unit_file.rs:81-86 | A writer that has succeeded put its whole text at the target with one of its own calls |
| FileReplace.ReadsFailOnlyForACause | internal/parsing/input/filesystem.rs:118-160 | A read ends in an I/O error exactly when the kernel refuses one of its calls or its `open` finds nothing or a link, and is refused as no regular file only when its `lstat` or its `open` met something else |
| FileReplace.VersionsAreFinal | internal/backends/quadlet/unit_file.rs:81-86 | Once the target has stood for an inode, no later call of any writer changes that inode |
| FileReplace.RunKeepsInv | internal/backends/quadlet/unit_file.rs:48-91 | The invariant behind these results holds in every reachable state |
| FileReplace.Directory.OpenTemp | internal/backends/quadlet/unit_file.rs:64-80 | The retry loop: at most 17 exclusive creates; success leaves an empty own file open, failure leaves nothing |
| FileReplace.Directory.WriteAll | internal/backends/quadlet/unit_file.rs:81-83 | `write_all` by partial writes: all of the text is written or the writer goes to its cleanup |
| FileReplace.Directory.WritePrivate | internal/backends/quadlet/unit_file.rs:56-91 | The code itself, with any calls of others between any two of its own, is a run of the protocol; it succeeds exactly when none of its calls goes wrong, and then one of them put its whole, synced, private inode at the target |
| FileReplace.Directory.ReadFile | internal/parsing/input/filesystem.rs:20-32 | `reject_non_regular`, `open_regular` and the capped read, with others running in between, return one whole version or an error with its cause, in finitely many calls |
| ProjectLock.OneMutatorAtATime | internal/command_line/main_runner/stages/post_parse.rs:249-260 | At most one podup process is in a phase that changes containers, in every run, exactly when the commands do not put a standalone `watch` beside another one that may change them; `is_mutating` leaves `watch` out |
| ProjectLock.OnlyOneMutates | internal/command_line/startup/mod.rs:26-45 | Run by run: where no standalone `watch` stands beside another command that may change containers, no two processes are in such a phase at once |
| ProjectLock.WatchChangesBehindTheLock | internal/backends/engine/host_files/watch/actions.rs:281-295 | A run in which a standalone `watch` restarts the container another command has just stopped under the lock |
| ProjectLock.ChangesNeedTheLock | internal/backends/engine/project/lock/mod.rs:20-50 | Every change a process makes to the project is made while it holds the lock, in every run, exactly when there is no standalone `watch` |
| ProjectLock.OnlyAWatchChangesUnlocked | internal/command_line/dispatch/rest.rs:313-313 | Whoever changes the project without the lock is a standalone `watch` |
| ProjectLock.WhoLetsGoOfTheLock | internal/command_line/dispatch/mod.rs:130-155 | An attached `up` that may stop the project from inside the attach, or that watches, holds the lock from its first call to its last; any other lets go of it exactly while it follows logs |
| ProjectLock.LockIsNeverOrphaned | internal/backends/engine/project/lock/mod.rs:36-50 | Whoever holds the lock is a live process in a phase that should hold it |
| ProjectLock.SnapshotWasTakenUnderTheLock | internal/command_line/dispatch/mod.rs:149-150 | The snapshot an `up` carries was taken by that `up`, at a moment when it held the lock |
| ProjectLock.FinalStopTouchesOnlyItsSnapshot | internal/backends/engine/lifecycle/commands/running/stop.rs:145-177 | The final stop runs under the lock and only ever turns a running container into a stopped one, captured in that `up`'s own snapshot, of a service in its scope, and never the container of a `run` |
| ProjectLock.LaterContainersAreNotCaptured | internal/backends/engine/lifecycle/commands/running/stop.rs:124-143 | A container created after the snapshot is not in it, since ids are never reused |
| ProjectLock.FinalStopIsComplete | internal/backends/engine/lifecycle/commands/running/stop.rs:145-177 | When the final stop is through, every captured container of the scope that is still the same container is stopped, in every run, exactly when there is no standalone `watch`, or this `up` never comes to a final stop, or no service is in its scope |
| ProjectLock.RunKeepsInv | internal/command_line/dispatch/mod.rs:36-212 | The invariant behind these results holds in every reachable state |
| ProjectLock.ResultsAreEarned | internal/command_line/dispatch/mod.rs:165-212 | In every run a process returns an interrupt, a broken stream or a container's exit code only after that event of its own, and an `up` that attaches succeeds only after its streams ended or a container exited with 0; an engine error and being killed have their events too |
| ProjectLock.Host.LockProject | internal/backends/engine/project/lock/mod.rs:36-50 | Taking the lock among other processes: the process returns holding it, or failed without it |
| ProjectLock.Host.BringUp | internal/command_line/dispatch/mod.rs:78-144 | The `--exit-code-from` check comes before anything starts; `--no-start`, and a plain detached `up`, end there |
| ProjectLock.Host.SnapshotAndRelease | internal/command_line/dispatch/mod.rs:149-153 | The snapshot comes first, and the lock is dropped after it exactly when the attach cannot stop the project |
| ProjectLock.Host.StopSnapshot | internal/command_line/dispatch/mod.rs:182-211 | Unless an engine call fails, the final stop returns success for streams that ended, the interrupt or the broken stream for the other outcomes, with every captured container of the scope stopped unless a standalone `watch` is about |
| ProjectLock.Host.Up | internal/command_line/dispatch/mod.rs:44-212 | The `Up` arm, with other processes and container exits between any two engine calls, is a run of the protocol, never returns holding the lock, and returns a result its own events in that run have earned; an unknown `--exit-code-from` service is reported exactly by the commands that name one |
| SelfUpdate.ParseVersionIsExact | internal/update/verify.rs:67-94 | A tag is accepted as a version exactly when, trimmed and without one `v`, it is three runs of ASCII digits in range between dots: nothing malformed passes for newer |
| SelfUpdate.ShownVersionReadsBack | internal/update/verify.rs:67-94 | Every version has a tag, with and without `v`, that reads back as it |
| SelfUpdate.ExpectedDigest | internal/update/verify.rs:164-187 | The search over the manifest's lines computes the specified lookup, errors included |
| SelfUpdate.DigestIsTheFirstListed | internal/update/verify.rs:167-186 | An accepted lookup is the digest of the first line naming the asset, 64 lowercase hex digits, whatever later lines say; it reports the asset as missing exactly when no line names it |
| SelfUpdate.NamesIffListed | internal/update/verify.rs:167-176 | A line names the asset exactly when its characters are white space, a word, white space, any stars, the name and white space |
| SelfUpdate.ManifestReadsBack | internal/update/verify.rs:164-187 | In the text of a manifest the first line that lists the asset decides: 64 hex digits of either case come back in lower case, any other word is a malformed digest |
| SelfUpdate.PlainLinesList | internal/update/verify.rs:161-163 | The two spellings of the format, two spaces or a space and a star, list the asset |
| SelfUpdate.HexDigits | internal/update/verify.rs:190-199 | The nibble loop prints the digest in hex |
| SelfUpdate.HexIsFaithful | internal/update/verify.rs:190-199 | The hex text is two lowercase characters a byte and tells digests apart |
| SelfUpdate.ConstantTimeEq | internal/update/verify.rs:205-214 | Folding every byte difference into one accumulator, without early exit, decides equality |
| SelfUpdate.ReleasePubkeys | internal/update/verify.rs:99-116 | Keys come back exactly when some slot is not empty and every such slot holds a real key, and then they are exactly those slots, in order |
| SelfUpdate.VerifySignature | internal/update/verify.rs:122-146 | A signature is accepted exactly when it has 64 bytes, every used slot holds a real key and some used slot verifies it |
| SelfUpdate.VerifyDigest | internal/update/verify.rs:220-230 | Data is accepted exactly when its hash in hex is the expected text, whatever the case of the latter |
| SelfUpdate.RunWithVerifier | internal/update/mod.rs:80-133 | An install happens exactly when every gate passes, of exactly the verified bytes; the fetches are a prefix of manifest, signature, asset, and the asset is requested only for a genuine manifest that lists it; each early return is named with the condition it comes from |
| SelfUpdate.GenuineReleaseInstalls | internal/update/mod.rs:114-132 | A signed manifest whose first line for the asset is the hash of the binary as `sha256_hex` prints it is installed, unless the installer refuses |
| SelfUpdate.FetchAndInstall | internal/update/mod.rs:114-132 | The gated tail of the update: no byte is installed that the signed manifest does not vouch for |
| SelfUpdate.InstalledBytesAreTheFirstListed | internal/update/mod.rs:119-125 | The installed bytes hash to the word of the first manifest line whose characters list the asset |
| SelfUpdate.OneManifestOneDigest | internal/update/verify.rs:220-230 | Two payloads accepted under one manifest have the same SHA-256 |
| SelfUpdate.BlankFirstLineIsNoAnswer | internal/update/install/self_test.rs:142-164 | Output that begins with a line feed is heard as nothing, whatever follows: no version is read from it and no self-test passes with it |
| SelfUpdate.WordsOfVersionLine | internal/command_line/cli/mod.rs:91-105 | The line clap renders for `--version` is the words `podup`, `version` and the version after a `v` |
| SelfUpdate.PrintedIsRead | internal/update/install/self_test.rs:83-94 | The version a binary prints is read from its output exactly when the output is not framed in blank lines, as `parse_cli` frames it |
| SelfUpdate.SelfTestTellsVersions | internal/update/install/self_test.rs:63-74 | A binary that answers passes the self-test for a version exactly when its output is not framed and that is the version it prints |
| Fleet.StepIsTheUpdate | internal/update/install/mod.rs:42-121 | A step of the fleet that comes to its self-test is `run_with_verifier` with the installer's two questions, computed from what the binaries write: the code installs exactly when the attempt gets to the swap and its file stays, and never a framed one |
| Fleet.FramedFleetStandsStill | internal/command_line/startup/mod.rs:347-357 | While every release is framed, no update that comes to its self-test ever changes a machine, forced or not, whatever the source serves |
| Fleet.SignedIffTrusted | internal/update/verify.rs:122-146 | When a signature verifies under its signer's key alone, the manifest gate is exactly trust in the signer |
| Fleet.OnlyTrustedReleasesAreInstalled | internal/update/verify.rs:13-25 | Whatever a source serves, a machine of the fleet only ever moves to a published release signed by a key the updating process trusts |
| Fleet.UnforcedStepGoesBackIff | internal/update/install/mod.rs:73-94 | Without `--force` an update puts an older version over a newer one exactly when it gets to the swap and either the installed file gave no answer and the tag is older, or nobody came to ask the new file, which is older; only then can it go back in the rotation |
| Fleet.GuardedRunMovesForward | internal/update/install/mod.rs:40-94 | Neither the version of a machine nor its place in the rotation ever goes back, however old the processes that finish late, while no update is forced, every new file is asked, and the installed one answers whenever it is newer than the updating process |
| Fleet.AnUnansweredProbeGoesBack | internal/update/install/self_test.rs:76-94 | The input that fails without the answer, framed or not: a process from before the migration finishes late and, unforced, takes a machine from after it back |
| Fleet.AnUntestedSwapGoesBack | internal/update/install/mod.rs:101-131 | The input that fails without the self-test, framed or not: an old release under a newer tag stays when the process ends between swap and self-test |
| Fleet.RotatedIsReachable | internal/update/verify.rs:31-36 | Two updates lead from before the migration to the state these inputs start from, tested where the releases are not framed and cut off before the self-test where they are, and the invariant holds there |
| Fleet.WhoCanTakeWhat | internal/update/verify.rs:26-43 | With both questions asked, a machine takes a later release exactly when that is not framed, and unless it is from before the migration and the release is from after it |
| Fleet.MigratedMachinesConverge | internal/update/verify.rs:31-36 | A machine that took a migration release, and whose updates are guarded as above, takes of the later releases exactly those that are not framed, and after the migration trusts only the new key |
| Fleet.AfterStaysAfter | internal/update/verify.rs:34-36 | From then on it trusts only the new key, for as long as its updates are guarded |
| Fleet.ForceCanUndoTheMigration | internal/update/install/mod.rs:42-46 | A forced reinstall of an old release, framed or not, takes the new key away again, and with it the way forward, whatever the binaries answer |
| Chunked.ReadChunkedBody | internal/backends/engine/fake_podman.rs:427-490 | However the bytes are split between the buffered prefix and the socket's reads, the result is the walk over all of them; an I/O error leaves a prefix of that payload |
| Chunked.DecodeOfEncode | internal/backends/engine/fake_podman.rs:298-304 | Decoding any non-empty chunks and the terminator, whatever follows, gives their concatenation |
| Chunked.CutAnywhere | internal/backends/engine/fake_podman.rs:305-308 | Cut at any byte, the decoder returns exactly the chunks that arrived complete with their CRLF, never part of one, and no error |
| Chunked.WholeChunksIsMaximal | internal/backends/engine/fake_podman.rs:476-488 | The chunks counted as complete are the longest run whose encoding fits |
| Chunked.CutMidPayloadDeliversNothing | internal/backends/engine/fake_podman.rs:309-317 | The reply that promises a chunk and hangs up halfway delivers nothing |
| Chunked.PlainSize | internal/backends/engine/fake_podman.rs:446-460 | The size line the encoder writes is read back as the size |
| Chunked.SizeIsRead | internal/backends/engine/fake_podman.rs:446-460 | A size is read alike in either case of its digits, with zeros or a `+` before them, white space around them and an extension behind them |
| Chunked.OtherSizesAreRefused | internal/backends/engine/fake_podman.rs:452-460 | Another character, no digit at all or a number past 64 bits is refused |
| Chunked.WalkOneChunk | internal/backends/engine/fake_podman.rs:476-488 | A chunk at the front of the stream is taken off it with the two bytes behind it, whatever they are |
| Chunked.WriteChunked | internal/backends/engine/fake_podman.rs:407-419 | The loop writes the encoding of the chunks, in order |
| Chunked.ReadSizedBody | internal/backends/engine/fake_podman.rs:249-274 | With a `Content-Length` the body is the first `n` bytes, or all there were, however they arrive |
| Substitute.SubstitutedRefinesMeaning | internal/parsing/substitute/mod.rs:149-207 | Text that comes out is the text that was meant, with no cap in the definition of the meaning, and an error is either the one the text deserves or a limit |
| Substitute.DefaultUnlessFilled | internal/parsing/substitute/parse.rs:177-180 | On the text: `${NAME:-t}` and `${NAME:t}` mean the value if it is set and not empty, else what `t` means, and then the rest |
| Substitute.DefaultUnlessSet | internal/parsing/substitute/parse.rs:182-185 | `${NAME-t}` means the value if it is set, else what `t` means |
| Substitute.AlternateIfFilled | internal/parsing/substitute/parse.rs:187-192 | `${NAME:+t}` means what `t` means if the value is set and not empty, else nothing |
| Substitute.AlternateIfSet | internal/parsing/substitute/parse.rs:194-197 | `${NAME+t}` means what `t` means if the value is set, else nothing |
| Substitute.ErrorUnlessFilled | internal/parsing/substitute/parse.rs:199-202 | `${NAME:?t}` means the value if it is set and not empty, else an error with `t` as it stands |
| Substitute.ErrorUnlessSet | internal/parsing/substitute/parse.rs:204-207 | `${NAME?t}` means the value if it is set, else an error with `t` as it stands |
| Substitute.BracedNameMeansItsValue | internal/parsing/substitute/parse.rs:62-77 | `${NAME}`, and `${NAME` at the end of a text, mean the value, or nothing |
| Substitute.BareNameMeansItsValue | internal/parsing/substitute/mod.rs:190-200 | `$NAME`, up to a character no name goes on with, means the value, or nothing |
| Substitute.OtherTextMeansItself | internal/parsing/substitute/mod.rs:165-207 | `$$` means a `$`; a `$` no reference begins with and any other character mean themselves |
| Substitute.BrokenReferencesFail | internal/parsing/substitute/parse.rs:58-145 | No name, another character behind it, or no closing brace behind a modifier: the error of each |
| Substitute.LimitsHaveACause | internal/parsing/substitute/mod.rs:228-251 | No limit fires before it is passed: the budget by what was spent, the nesting by how deep it went, the cap on one text by its input, what was charged and one more value |
| Substitute.SubstitutedIsBounded | internal/parsing/substitute/mod.rs:73-107 | `spent` never decreases on any path; output is at most its input plus what was charged, and at most its input plus the scalar cap; nesting never passes 64 but to be refused |
| Substitute.DocumentIsBounded | internal/parsing/compose/merging/merge/interpolation.rs:79-136 | Any sequence of scalars on one pass comes out at most the document budget longer in all, each at most the scalar cap longer, or fails |
| Substitute.ProjectIsBounded | internal/parsing/compose/merging/merge.rs:103-117 | The same over all the files of a project, each starting from what the ones before it spent |
| Substitute.WarningsDoNotMatter | internal/parsing/substitute/mod.rs:209-222 | The text, the error and the final `spent` do not depend on the warning flag or on what was already warned about |
| Substitute.EachUnsetNameIsReportedOnce | internal/parsing/substitute/mod.rs:141-148 | Over all nested modifiers a pass warns about a name at most once, only if it is unset and not warned about before, and after a success about exactly the unset names the text read |
| Substitute.DocumentWarnsOnce | internal/parsing/compose/merging/merge.rs:112-116 | The same over all the scalars of a document |
| Substitute.EscapedMeansItself | internal/parsing/substitute/mod.rs:171-178 | Every text, its `$` doubled, substitutes to itself at no cost |
| Substitute.TextWithoutReferencesIsItsOwnEscape | internal/parsing/compose/merging/merge/interpolation.rs:88-96 | Text without `$` is its own escape, so skipping it changes nothing |
| Substitute.CollectVarName | internal/parsing/substitute/parse.rs:19-30 | The longest run of name characters, and what follows it |
| Substitute.CollectUntilClose | internal/parsing/substitute/parse.rs:125-145 | The text up to the matching brace, nested braces balanced, or none |
| Substitute.ParseBracedVar | internal/parsing/substitute/parse.rs:58-114 | The name and modifier of a braced reference, or the error the text deserves |
| Substitute.Interpolator.ResolveModifier | internal/parsing/substitute/parse.rs:152-209 | Each modifier form on the shared pass, recursing one level deeper only for the text it uses |
| Substitute.Interpolator.SubstituteDepth | internal/parsing/substitute/mod.rs:149-207 | The character loop, updating `spent` and `warned` in place, computes the specified pass |
| Substitute.Interpolator.Check | internal/parsing/substitute/mod.rs:228-251 | The scalar cap is checked first, and the budget counts even what it refuses |
| ScopedCell.ScopesLeaveNoTrace | internal/parsing/substitute/project_budget.rs:9-50 | After any well-nested use of scopes the cell holds what was recorded outside all of them, and nothing a scope did |
| ScopedCell.TheFlagComesBack | internal/parsing/substitute/mod.rs:44-70 | The warning flag is back to its old value after any well-nested use of guards |
| ScopedCell.NothingCountsOutsideAScope | internal/parsing/substitute/project_budget.rs:52-64 | Outside every scope a record is dropped: nothing is counted |
| ScopedCell.Cell.Perform | internal/parsing/substitute/project_budget.rs:27-50 | Guards made and dropped in reverse order over the real cell do what the specification says |
| Dotenv.QuotedIsOneScan | internal/parsing/input/dotenv.rs:78-109 | Reading a multi-line quoted value line by line finds the closing quote, decodes the value and uses up the lines that one scan over the lines joined with newlines would, lines ending in an unpaired backslash included |
| Dotenv.ClosingAcrossLines | internal/parsing/input/dotenv.rs:115-131 | A line that does not close is stepped over together with its newline, even after a trailing backslash |
| Dotenv.FilesSpellExactlyTheGoodKeys | internal/parsing/input/dotenv.rs:31-73 | Any list of pairs with any values has a file that parses to exactly it, in order, if and only if each key is a non-blank trimmed line without `=`; no file gives any other list |
| Dotenv.EscapeReadsBack | internal/parsing/input/dotenv.rs:135-158 | Every string has a one-line double-quoted spelling that closes where it should and decodes to it |
| Dotenv.StrictAgreesWithLenient | internal/parsing/input/dotenv.rs:16-29 | When strict mode accepts a file it reads what lenient mode reads |
| Dotenv.StrictFailsOnlyForAnOpenQuote | internal/parsing/input/dotenv.rs:100-105 | Strict mode fails exactly when some quoted value reaches the end of the file unclosed |
| Dotenv.EntriesOfParts | internal/parsing/input/dotenv.rs:40-69 | A file cut between entries parses as its parts do |
| Dotenv.BytesCloseWhereCharactersDo | internal/parsing/input/dotenv.rs:115-131 | The byte scan for the quote, which may step into the middle of a hidden character, finds the quote the characters close at |
| Dotenv.BytesCommentWhereCharactersDo | internal/parsing/input/dotenv.rs:163-173 | The byte scan for an inline comment finds the one the characters start |
| Dotenv.UpToClosing | internal/parsing/input/dotenv.rs:87-97 | Slicing at the byte index never splits a character, and gives the text before the quote |
| Dotenv.StripComment | internal/parsing/input/dotenv.rs:163-173 | The same for the text before an inline comment |
| Dotenv.UnescapeValue | internal/parsing/input/dotenv.rs:135-158 | The escape loop decodes the value |
| Dotenv.LineReader.TakeValue | internal/parsing/input/dotenv.rs:78-109 | On the shared line iterator a value takes each of its continuation lines once and no others |
| Dotenv.ParseInner | internal/parsing/input/dotenv.rs:31-73 | The loop over the shared iterator computes the specified parse |
| Dotenv.PlainAssignmentIsAnEntry | internal/parsing/input/dotenv.rs:62-107 | An unquoted assignment is one entry of exactly that key and value, whatever white space, `export` or comment behind white space stands around them |
| Dotenv.SingleQuotedIsAnEntry | internal/parsing/input/dotenv.rs:85-92 | Between single quotes the value stands for itself, backslashes included |
| Dotenv.BareKeyTakesTheHostValue | internal/parsing/input/dotenv.rs:50-60 | A bare key is an entry with the host's value, or none |
| Dotenv.BlanksAndCommentsSayNothing | internal/parsing/input/dotenv.rs:42-46 | Blank lines, comments and lines with no key say nothing |
| Dotenv.TextIsReadLineByLine | internal/parsing/input/dotenv.rs:31-40 | A text is read line by line, a byte order mark in front of it dropped |
| EnvFiles.LastAssignmentWins | internal/parsing/input/env_file.rs:54-75 | Over all files together the last assignment of a key wins |
| EnvFiles.LoadFailsWithTheFirst | internal/parsing/input/env_file.rs:55-65 | Loading fails exactly when some file is missing and required, unreadable or malformed, with the first such file's error |
| EnvFiles.ExplicitKeysWin | internal/parsing/input/env_file.rs:78-88 | Explicit keys win, bare ones included; any other key has the last assignment in the last file |
| EnvFiles.LastTableEntryWins | internal/parsing/compose/types/inputs/env.rs:65-77 | In a map-form `environment:` the last entry of a key counts: a text or a number as it stands, a boolean as its word, null or nothing as a bare key |
| EnvFiles.LastListItemWins | internal/parsing/compose/types/inputs/env.rs:57-64 | In a list-form one the last item of a key counts: what follows its first `=`, or the bare key |
| EnvFiles.OnlyWrittenKeysAreThere | internal/parsing/compose/types/inputs/env.rs:53-79 | A key nobody writes is not there |
| EnvFiles.OneVariable | internal/backends/engine/workload/container/resolve/environment.rs:16-43 | One variable in the container is the service's own value, a bare key's from the host, else the last assignment in the last file |
| EnvFiles.FilesThatCannotBeRead | internal/parsing/input/env_file.rs:40-62 | A missing file is left out only where it is said not to be required; an unreadable one is an error always |
| EnvFiles.ListSaysTheMapIffKeysArePlain | internal/parsing/input/env_file.rs:90-97 | The `KEY=VALUE` list read back at the first `=` is the merged map, for every order of its keys, exactly when no key contains `=` |
| EnvFiles.OnlyTableKeysHaveEquals | internal/parsing/compose/types/inputs/env.rs:53-79 | Only a key of a map-form `environment:` can contain `=` |
| EnvFiles.RunsWithTheMergedMap | internal/backends/engine/workload/container/resolve/environment.rs:16-43 | The container's environment is the merged map with the host's values for its bare keys, for every order of the map's keys, exactly when each key containing `=` passes nothing itself and only says again, read at its `=`, what is passed anyway |
| EnvFiles.AKeyWithEqualsRunsAsAnother | internal/parsing/input/env_file.rs:90-97 | The key `A=B` with value `x` runs as `A` with value `B=x` |
| EnvFiles.ConfigAgreesWithRun | internal/parsing/input/env_file.rs:99-155 | What `config` prints and what runs are the same map, before and after materializing, and materializing twice is materializing once |
| EnvFiles.SortedTableIsUnique | internal/parsing/input/env_file.rs:140-152 | A service with env files gets its keys sorted by bytes, and there is one such rendering |
| EnvFiles.LoadEnvFileEntries | internal/parsing/input/env_file.rs:33-76 | The loop over the entries computes the specified load |
| EnvFiles.MergeEnv | internal/parsing/input/env_file.rs:81-97 | The merge hands out each key once, own value first |
| EnvFiles.EffectiveEnv | internal/backends/engine/workload/container/resolve/environment.rs:16-43 | The method returns what the merged map says unless a key containing `=` says something else, and then what some order of its keys says |
| EnvFiles.Service.MaterializeEnvFiles | internal/parsing/input/env_file.rs:127-155 | The service's fields are replaced by the sorted merged map and an empty `env_file`; on an error, or without env files, nothing changes |
| TextOrder.SortedIsUnique | internal/parsing/input/env_file.rs:140-141 | A set of keys has one sorted listing |
| TextOrder.SortKeys | internal/parsing/input/env_file.rs:140-141 | Whatever order the map hands its keys out in, sorting gives that listing |
| HostPaths.LexicalStack | internal/command_line/startup/config_normalize.rs:119-133 | The stack `normalize_lexically` builds is the root, one `..` for each step the path climbs above it, then the stack of `normalize_host_path` |
| HostPaths.LexicalIsFoldedUnderUps | internal/command_line/startup/config_normalize.rs:134-139 | The rendered path is those names joined |
| HostPaths.FoldingsAgreeIffBelowRoot | internal/command_line/startup/config_normalize.rs:115-139 | The two foldings spell the same path exactly when the path never climbs above the root |
| HostPaths.ParentOfTheRoot | internal/command_line/startup/config_normalize.rs:134-139 | `/..` is left as it is by one folding and becomes `/` in the other |
| HostPaths.FoldingIsIdempotent | internal/command_line/audit/check_sensitive_bind.rs:191-214 | Folding twice is folding once, and every component of the result is a name |
| HostPaths.FoldingKeepsTheWalk | internal/command_line/audit/check_sensitive_bind.rs:191-214 | In a tree without links the folded path leads where the written one leads, and the written one leads somewhere exactly when every directory it passes through is there |
| HostPaths.WrittenFoldsAlike | internal/command_line/audit/check_sensitive_bind.rs:174-185 | Folding slashes first changes nothing |
| HostPaths.RootlessIff | internal/command_line/audit/check_sensitive_bind.rs:276-294 | The rootless test is: at or below `podman` in the runtime directory of some all-digit user |
| HostPaths.ReasonIffSensitive | internal/command_line/audit/check_sensitive_bind.rs:302-341 | A reason is given exactly for the root, a listed socket and what lies at or below a dangerous directory |
| HostPaths.ReportedIff | internal/command_line/audit/check_sensitive_bind.rs:146-172 | A source is reported exactly when it is sensitive as it stands, with its slashes folded or folded all the way, or contains `..`; without `..` the folded spelling alone decides; a written spelling that is sensitive is the one named |
| HostPaths.SpecReadsBack | internal/command_line/audit/check_sensitive_bind.rs:385-407 | A short spec of source, target and options is cut back into them |
| HostPaths.BindsAreRead | internal/command_line/audit/check_sensitive_bind.rs:348-383 | A short bind of an absolute path is read-only exactly when `ro` is one of its options, a long one when it says so; anything else is no bind |
| HostPaths.SlashesAreFolded | internal/command_line/audit/check_sensitive_bind.rs:179-185 | Slashes at both ends come to one in front; nothing, or a dot, between them is the root |
| HostPaths.AnonymousVolumesAreJudged | internal/command_line/audit/check_sensitive_bind.rs:348-368 | A short volume without a colon gives no finding exactly when it is not an absolute path, or has no `..` and no sensitive spelling: the comment beside the code has it skipped altogether |
| HostPaths.EtcAloneIsReported | internal/command_line/audit/check_sensitive_bind.rs:348-368 | `/etc` alone is reported |
| HostPaths.NormalizePath | internal/command_line/audit/check_sensitive_bind.rs:202-214 | The push and pop loop computes the folding |
| HostPaths.CleanPath | internal/command_line/startup/config_normalize.rs:119-139 | The component loop computes the lexical folding |
| HostPaths.CheckSensitiveBindMount | internal/command_line/audit/check_sensitive_bind.rs:141-172 | The loop gives the findings of the mounts in order, at most one for each |
| UnitQuoting.OneWordEach | internal/backends/autostart/unit_quoting_tests.rs:12-63 | However hostile the values, a line of arguments reads as exactly the words it was written in or is refused: no value adds, splits or swallows a word |
| UnitQuoting.LineReadsBackIffNoDollar | internal/backends/quadlet/render.rs:111-133 | Each word is its template text and its values without control characters exactly when no value contains `$` |
| UnitQuoting.DollarIsRefused | internal/backends/autostart/unit_quoting_tests.rs:12-63 | The line of one value `$` is refused by the reader |
| UnitQuoting.ReplacementsEscape | internal/backends/quadlet/render.rs:129-133 | The three successive replacements escape character by character: none touches what an earlier one put in |
| UnitQuoting.QuotedIsOneLine | internal/backends/quadlet/render.rs:102-109 | A quoted value holds no character that could end the line |
| UnitQuoting.ReadsQuoted | internal/backends/autostart/unit_quoting_tests.rs:18-54 | The reader takes a quoted value for its meaning and comes out behind its closing quote |
| UnitQuoting.BareSemicolonIsRefused | internal/backends/autostart/unit_quoting_tests.rs:21-62 | A semicolon that is a word of its own is refused wherever a word may start, but not in quotes |
| UnitQuoting.LoneMarksAreRefused | internal/backends/autostart/unit_quoting_tests.rs:37-43 | A `%` or a `$` that is not doubled is refused, a doubled one is one |
| UnitQuoting.EscapesAreRead | internal/backends/autostart/unit_quoting_tests.rs:28-36 | In quotes a backslash and `n`, `t` or `r` is the control character, any other character itself; an open quote is refused |
| UnitQuoting.ParseExec | internal/backends/autostart/unit_quoting_tests.rs:12-63 | The loop computes the specified reading |
| YamlBooleans.QuotingTwiceIffNoDoubleCr | internal/command_line/startup/config_normalize.rs:152-175 | Quoting a text twice is quoting it once exactly when it holds no two carriage returns before a newline |
| YamlBooleans.DoubleCrIsReadAway | internal/command_line/startup/config_normalize.rs:152-175 | Two carriage returns and a newline come out different the second time |
| YamlBooleans.QuotingLinesTwice | internal/command_line/startup/config_normalize.rs:155-168 | On lines quoting is idempotent without condition |
| YamlBooleans.LineCountIsKept | internal/command_line/startup/config_normalize.rs:169-174 | The number of lines and the final newline are kept |
| YamlBooleans.QuotingKeepsStates | internal/command_line/startup/config_normalize.rs:153-168 | The block scalar open after each line is the same before and after quoting |
| YamlBooleans.QuotingTouchesOnlyBooleans | internal/command_line/startup/config_normalize.rs:158-166 | A line inside a block scalar is never changed; any other only by quoting its final boolean word |
| YamlBooleans.NoBoolIsLeft | internal/command_line/startup/config_normalize.rs:211-219 | Outside blocks no plain boolean word is left as a value |
| YamlBooleans.RequotedOpensNoBlock | internal/command_line/startup/config_normalize.rs:182-207 | A line whose last word is a boolean opens no block, quoted or not |
| YamlBooleans.MappingOpensBlock | internal/command_line/startup/config_normalize.rs:182-203 | On the text: a key behind any spaces and marks, a colon, an optional tag and a block header open a block past the column of the key |
| YamlBooleans.SequenceOpensBlock | internal/command_line/startup/config_normalize.rs:204-207 | Marks alone, an optional tag and a block header open one past the column of the last mark |
| YamlBooleans.OpenedBlockIsUntouched | internal/command_line/startup/config_normalize.rs:155-168 | A line that opens a block and the deeper or blank lines behind it come out as they went in, and the first line that is neither is read as if no block had been |
| YamlBooleans.PlainBoolIsQuoted | internal/command_line/startup/config_normalize.rs:211-219 | A word behind the first `: ` is quoted exactly when it is one of the six, in any case |
| YamlBooleans.BoolItemIsQuoted | internal/command_line/startup/config_normalize.rs:224-241 | So is a word behind `- ` |
| YamlBooleans.FindBlockParent | internal/command_line/startup/config_normalize.rs:182-207 | The search with its loop over `- ` and `? ` computes the specified column |
| YamlBooleans.QuoteYaml11Booleans | internal/command_line/startup/config_normalize.rs:152-175 | The loop with `block_parent` computes the specified text |
| ConfigTree.PruneLeavesNothingEmpty | internal/command_line/startup/config_render.rs:276-306 | After pruning no null and no empty object is an entry, except directly under `environment` or `networks` |
| ConfigTree.NullsAreKeptOnlyUnder | internal/command_line/startup/config_render.rs:276-320 | A null is kept directly under `environment` and `networks` and is gone with the object it leaves empty anywhere else; an empty array is never pruned |
| ConfigTree.PruneFixes | internal/command_line/startup/config_render.rs:289-306 | Pruning changes exactly the trees that have something to prune |
| ConfigTree.PruneTwice | internal/command_line/startup/config_render.rs:289-306 | Pruning twice is pruning once |
| ConfigTree.WhatStaysIsPruned | internal/command_line/startup/config_render.rs:299-303 | Along every path what is still there is the pruned form of what stood there, so arrays keep their length |
| ConfigTree.WhatGoesCameToNothing | internal/command_line/startup/config_render.rs:280-298 | What is gone lay at or below an entry that came to null or an empty object and was not exempt |
| ConfigTree.SortsAlikeIffSameTree | internal/command_line/startup/config_render.rs:180-204 | Two values sort to the same value exactly when they are equal up to key order, which makes the service hash stable and telling |
| ConfigTree.SortingKeepsTheTree | internal/command_line/startup/config_render.rs:193-204 | Sorting keeps what the value says |
| ConfigTree.PruningCommutesWithSorting | internal/command_line/startup/config_render.rs:193-306 | It does not matter whether a value is pruned first or sorted first |
| ConfigTree.YamlPrunesAsJson | internal/command_line/startup/config_render.rs:318-360 | The YAML form prunes JSON written as YAML as the JSON form does |
| ConfigTree.PruneJsonInPlace | internal/command_line/startup/config_render.rs:289-306 | Recursing over the entries in place and retaining computes the specified pruning |
| ConfigTree.DropEmpty | internal/command_line/startup/config_render.rs:332-341 | Collecting the empty keys and removing them leaves exactly the other entries |
| ConfigTree.PruneYamlInPlace | internal/command_line/startup/config_render.rs:325-350 | However `remove` reorders what is left, the collect-then-remove form says what the retain form says |
| ControlEscape.EscapedJsonDecodesAlike | internal/command_line/startup/control_escape.rs:29-47 | The escaped text of any valid JSON text decodes to the same value (RFC 8259) |
| ControlEscape.EscapedJsonIsFixed | internal/command_line/startup/control_escape.rs:34-47 | The output holds no character in U+007F to U+009F and is a fixed point |
| ControlEscape.StringsReadAlike | internal/command_line/startup/control_escape.rs:39-44 | A string literal decodes to the same code units, whatever of it is escaped |
| ControlEscape.EscapedLogIsFixed | internal/command_line/startup/control_escape.rs:14-27 | In an escaped message no control is left but line feed and tab, and escaping it again changes nothing |
| ControlEscape.EscapedLogSpellsControls | internal/command_line/startup/control_escape.rs:14-27 | Each control but line feed and tab is spelled out where it stood, by its number in hexadecimal or as `\r`, and nothing else changes |
| ControlEscape.EscapeKeepsLines | internal/command_line/startup/control_escape.rs:7-27 | The lines of an escaped message are the escaped lines: none is added, none is lost |
| ControlEscape.EscapeJson | internal/command_line/startup/control_escape.rs:34-47 | The scan and the loop compute the specified escape |
| ControlEscape.EscapeLogControls | internal/command_line/startup/control_escape.rs:14-27 | The scan and the loop compute the specified escape |
| Utf8.EncodeIsFaithful | internal/update/verify.rs:220-224 | Comparing the bytes of two texts is comparing the texts |
| Utf8.DecodeIsInverse | internal/update/verify.rs:165-166 | Reading text back from its bytes gives the text |
| Prelude.SplitOnIsCut | internal/command_line/audit/check_sensitive_bind.rs:187-189 | The pieces of a split carry no separator and join back to the text |

## Left out

- Fleet.StepIsTheUpdate: speaks of updates that come to their self-test; one whose process ends before it has no outcome in `run_with_verifier` to compare with.
- ProjectLock.Host.Up: its contract says that it returns without the lock, with what results, and that what it did is a run of the protocol; what a run guarantees is stated by the lemmas over runs, not repeated there.
- Chunked.ReadChunkedBody: a chunk size within two of 2^64 is an error in the model; in the code the addition `size + 2` panics in a debug build and wraps in a release build.
- Chunked.SkipTrailer: promises only that it ends; the bytes after the last chunk are not part of any result.
- EnvFiles.EffectiveEnv: where a key containing `=` says something else than the map, it says only that the result is that of some order of the keys, because a hash map fixes none.
- SelfUpdate.FetchAndInstall: which of the failing gates is reported is not part of its contract; that nothing is installed is.
- The `lstat` and the caller's own read in `inspect_existing`, and the check that a capped read is UTF-8.
- Directories above the target's own, file names that are not UTF-8, and the branches for systems other than Unix.
- Rebuilding, pulling, networks and volumes during `up`: engine calls are actions that change containers, only read, or fail.
- The dependency order in which `stop_replicas` stops the captured replicas, and entries the engine lists without a name or a service label.
- The 4096-byte cap on the output of `--version`, and output that is not UTF-8.
- What `commit`, `cp` and `exec` do inside a container, or to a container paused for the moment of a commit, without the lock; containers that Podman restarts by their own policy, or that somebody changes with another program.
- Deadlines: `--wait-timeout`, and how long a process waits for the lock.
- The response head `write_chunked` sends before the chunks, and request routing in the fake engine.
- A modifier text with more than 2^32 - 1 open braces, past the counter of `collect_until_close`; a file is capped far below it.
- Reading an interpolated scalar back as a number or a boolean: it keeps the text.
- The process environment merged under `.env`, and the control-character check of `--env-file` values.
- Looping over all services of a compose file in `materialize_env_files`: each service is independent.
- Windows paths in `bind_source`, and the tables of reasons in words.
- `render_publish_port` and `safe_unit_stem`, which build one name each.
- The JSON and YAML printers themselves; JSON is modelled as far as decoding its text.
- Key equality of YAML mappings used as keys, which disregards their order.
- `escape_default` of characters that are not controls: the log escape never asks for it.
