# Formal model of the Focus build tooling

This project models, in Dafny, the parts of the Focus repository that keep state under
failure, edit sequences in place, or undo themselves, and proves what they guarantee.
`dafny verify dfyconfig.toml` checks all of it.

| part | modules |
|---|---|
| publishing a file without replacing anything, with rivals and failing system calls | `DirectoryTraces`, `FaultyDirectory`, `ArgsWriter`, `EvidencePublisher`, `RecoveryPublisher`, `RecoveryRuns`, `DependencyRoot` |
| the owned build process: monitor, exit status, completion under signals, process tree | `RuntimeMonitor`, `ExitStatus`, `OwnedRun`, `ProcessSpine` |
| patches: the in-place engine, whole series, two diff scanners, comment stripping | `PatchEngine`, `PatchAcceptance`, `PatchReversal`, `PatchValidation`, `DiffScanners`, `DiffForms`, `CommentStripper` |
| things that undo each other: domain substitution, series merging | `DomainIndex`, `DomainSubstitution`, `SeriesMetadata`, `SeriesMerge`, `TextLines` |
| tree and table algorithms | `ArchiveExtraction`, `ArchiveTree`, `LinkResolution`, `Pruning`, `TranslationIds`, `TranslationWork`, `BrandReplacement` |

The publishers work on a `Directory` whose every system call first lets rivals act, then
may fail with or without having taken effect, and records its steps in a ghost trace.
Each publisher's contract speaks about all traces; the lemmas of `DirectoryTraces` say
what such traces can never do. Rivals may bind or unbind both names and hard-link the
candidate elsewhere; they never write to it. In `unlink` no rival acts between the
lookup and the removal that directly follows it, the window that the code itself relies
on. The trace also counts the failed calls by what they were for, so that an outcome can be
traced to the failures it takes. Times, probes, signals, process identifiers, regular
expressions, checksums and the decoded archive are parameters.

What the code does differently from what its comments suggest is kept and stated exactly:

- `_rollback_exact` of the recovery tool hashes by path between its lookup and its
  removal, so a rival can lose its file (`CarefulMayRemoveRival`); and a link that raises
  after taking effect leaves the record public (`LateLinkStaysPublic`; `Publish` says
  after which failures an error exit does).
- A dependency root whose rename raises after taking effect is reported as refused
  (`InstalledThoughRefused`); otherwise every exit tells the truth (`Publish`).
- A blank context line that meets the end of the file ends a hunk without an error, and
  what only adds is accepted past the end: such patches lose additions, or cannot be
  reversed (`AcceptedExactly`, `GrowthExactly`, `ReverseRestoresExactly`).
- Unmerging a platform from a generic series that names no patch raises and leaves the
  series merged (`MergeThenUnmerge`).
- A blank around the path of a series line is lost in a merge and unmerge, and with it the
  comments of the patch (`RebuiltExactly`, `ApartAgain`, `PaddedLosesComments`).
- A hunk with target start 0 puts the cursor on the last line (`DeletionExactly`).
- The commit search answers with its last probe (`LastProbeExactly`).
- Comments before the first patch of a series are lost (`LeadLostExactly`).
- The strict diff scanner takes lines such as `diff --git` only in front of the first headers
  and between headers and their first hunk, so not between two files (`AcceptedIsExact`).
- Listed files without a match stay one delta late after a revert (`ApplyThenRevert`).
- An index line that does not hold exactly one delimiter is passed over (`SkippedExactly`).
- Ids that only deduplication moved are not written (`ReplaceTree`, `DroppedMove`).
- A shorter response than groups is accepted and leaves the rest missing (`StillMissing`).

## Model

| member | source | states |
|---|---|---|
| DirectoryTraces.DisciplineKeepsWhole | platform/macos/write_autoupdate_args.py:267-475 | Every run: at no instant is the final name bound to the candidate inode before its whole payload is on disk, unless a rival itself links the private file |
| DirectoryTraces.DisciplineNeverRebinds | platform/macos/write_autoupdate_args.py:421-427 | Every step of a disciplined publisher leaves the final name, binds it while it is free, or frees it while it names the candidate |
| DirectoryTraces.RivalSurvives | platform/macos/write_autoupdate_args.py:275-278 | A rival that owns the final name keeps it through everything the publisher does afterwards, at every later point of every run |
| DirectoryTraces.LinkedIsWhole | platform/macos/write_autoupdate_args.py:231-274 | Once linked, the candidate has its full, flushed payload for ever |
| DirectoryTraces.CandidateExists | platform/macos/write_autoupdate_args.py:226-229 | Before the private file is created nothing names its inode |
| DirectoryTraces.LookStillHolds | platform/macos/write_autoupdate_args.py:409-426 | A removal that directly follows its lookup acts on what the lookup found |
| DirectoryTraces.CarefulIsDisciplined | platform/macos/alias_resume_recover.py:318-332 | A publisher that looks before it removes never removes a rival, provided the name does not move between the lookup and the removal |
| RecoveryRuns.CarefulMayRemoveRival | platform/macos/alias_resume_recover.py:250-327 | Concrete run of a publication and its rollback: created, written, flushed, linked, directory flush fails, looked up, opened and hashed; the rival that takes the name during the hash loses its file to the unlink |
| RecoveryRuns.PublishedRun | platform/macos/alias_resume_recover.py:250-276 | The run of an undisturbed publication up to its link is one of the model |
| RecoveryRuns.LateLinkStaysPublic | platform/macos/alias_resume_recover.py:276-308 | Concrete undisturbed run: the link takes effect and raises, only the private name is dropped, the record stays public and unacknowledged |
| FaultyDirectory.Directory.StatDest | platform/macos/write_autoupdate_args.py:314-318 | A lookup tells the truth about the instant at which it acts, or fails; rivals may act before it |
| FaultyDirectory.Directory.LinkTemp | platform/macos/write_autoupdate_args.py:267-285 | A link binds the final name only while it is free, to whatever the private name then binds; it may raise with or without having done so |
| FaultyDirectory.Directory.UnlinkDest | platform/macos/write_autoupdate_args.py:421-430 | An unlink that directly follows the lookup; it may raise with or without effect |
| FaultyDirectory.Directory.UnlinkTemp | platform/macos/write_autoupdate_args.py:347-348 | The removal of the private name: where it directly follows a check, only while the name binds the candidate; it may raise with or without effect |
| FaultyDirectory.Directory.WriteAll | platform/macos/write_autoupdate_args.py:200-206 | Short writes are continued until all data are written; a write of nothing is an error |
| ArgsWriter.Writer.RequireSafeChain | platform/macos/write_autoupdate_args.py:132-147 | Passes only after a lookup that found the final name free; without a failed call it fails exactly if the name is bound; changes nothing |
| ArgsWriter.Writer.CreateCandidate | platform/macos/write_autoupdate_args.py:226-242 | The candidate has the payload, is flushed and private, or the error is plain and nothing was linked; without rivals and faults it fails only if the private name was taken or the payload does not fit the plan |
| ArgsWriter.Writer.VerifyCandidate | platform/macos/write_autoupdate_args.py:233-242 | Mode, link count, size and digest are those of the plan, or the identity stays unset; without a failed call it fails exactly if one of them is not |
| ArgsWriter.Writer.MeasureCandidate | platform/macos/write_autoupdate_args.py:233-238 | The measurement passes exactly if the candidate is private, singly linked and of the planned size |
| ArgsWriter.Writer.OpenDirectory | platform/macos/write_autoupdate_args.py:244-266 | The private name was last seen to bind the candidate with a single link; nothing is linked yet; without rivals and faults it passes |
| ArgsWriter.Writer.Publish | platform/macos/write_autoupdate_args.py:267-312 | What a link that raised left behind: linked and retained, not linked, or unknown and retained; without rivals it fails only if the link call did |
| ArgsWriter.Writer.ClassifyLink | platform/macos/write_autoupdate_args.py:279-312 | After a link that raised, retained exactly if the lookup failed or found the candidate, and then with what the lookup said |
| ArgsWriter.Writer.Confirm | platform/macos/write_autoupdate_args.py:314-339 | Commits exactly when every check and the directory flush return; then the link is durable; without rivals it fails only by one more failed call |
| ArgsWriter.Writer.CheckNames | platform/macos/write_autoupdate_args.py:315-334 | Both names and the descriptor were measured: the final name led to the candidate, and so does the private one, with two links in all |
| ArgsWriter.Writer.VerifyPublished | platform/macos/write_autoupdate_args.py:341-376 | A clean end has seen one link, the private mode, size and digest through a fresh descriptor, and every change of a name is flushed |
| ArgsWriter.Writer.RequireTwoLinks | platform/macos/write_autoupdate_args.py:342-346 | The candidate has exactly two links before the private name goes |
| ArgsWriter.Writer.InspectFinal | platform/macos/write_autoupdate_args.py:357-374 | The checks on the reopened final name, and what passing them proves |
| ArgsWriter.Writer.Settle | platform/macos/write_autoupdate_args.py:340-398 | After the commit every failure is reported as committed, never as retained, except an interruption of the report itself |
| ArgsWriter.Writer.ReportUnsettled | platform/macos/write_autoupdate_args.py:377-398 | The report names the private name exactly if its lookup finds the candidate there; it is replaced only by an interruption of that lookup |
| ArgsWriter.Writer.Rollback | platform/macos/write_autoupdate_args.py:400-476 | Withdraws the link only while it is the candidate. Without rivals and without a failed call since entry the original error goes on, the name is free and so is the disk; the link stays only if a lookup or the removal failed in the rollback, a retained error comes only from a failed call and describes both names; with rivals it still says what the last lookup answered |
| ArgsWriter.Writer.Withdraw | platform/macos/write_autoupdate_args.py:419-476 | The removal of the link just looked up and its flush: the original error exactly if both worked |
| ArgsWriter.Writer.LookAgain | platform/macos/write_autoupdate_args.py:428-446 | A removal that raised is followed by a lookup, whose answer is reported |
| ArgsWriter.Writer.Attempt | platform/macos/write_autoupdate_args.py:225-476 | The outer try block: what holds of names, commit flag and error on each way out; without rivals, an uncommitted link is public, or an error retained, only after the failures that excuse it |
| ArgsWriter.Writer.DropTemporary | platform/macos/write_autoupdate_args.py:501-522 | The private name is removed only while it binds the candidate; without rivals it is gone unless one of its calls failed; without a failed call it is refused only if something else is there; the final name is untouched |
| ArgsWriter.Writer.LookOnceMore | platform/macos/write_autoupdate_args.py:481-500 | The last lookup: without a commit and without retention it did not find the candidate, or it failed; an interruption of it is passed on, any other failure is not |
| ArgsWriter.Writer.CleanUp | platform/macos/write_autoupdate_args.py:501-532 | Committed and retained names survive the cleanup; failures are counted, and without rivals each is a failed call |
| ArgsWriter.Writer.ReportCleanup | platform/macos/write_autoupdate_args.py:562-582 | A failed cleanup before any commit is reported as retained, with what a lookup finds of the private name |
| ArgsWriter.Writer.Finalize | platform/macos/write_autoupdate_args.py:477-582 | Committed holds exactly for the normal return and the committed error; retained is left exactly when it is due; a plain error means the last lookup did not see the candidate and says what is left of both names; without rivals and failed calls the exit is that of the attempt, save an attempt that left the candidate public or stopped behind its commit |
| ArgsWriter.Writer.Execute | platform/macos/write_autoupdate_args.py:209-587 | For every placement of faults and every schedule of rivals: normal or committed exactly if a flush sealed the link; normal means sole link, whole payload, every change of a name flushed; retained exactly if the private name is kept on purpose or a cleanup step failed uninterrupted; plain means not found at the last lookup, and without rivals no private name and no link left on disk, the named interruptions aside. Without rivals an uncommitted candidate is public only if the link raised, or two calls failed of which one was a lookup or the removal; otherwise the name is as it was; a retained error takes as many failures. Undisturbed runs end in the described directory; without faults it succeeds exactly when the name is free |
| EvidencePublisher.Publisher.RequireFree | platform/macos/alias_resume_runner.py:389-393 | Without rivals and faults it passes exactly if both names are free; changes nothing |
| EvidencePublisher.Publisher.Prepare | platform/macos/alias_resume_runner.py:394-411 | The private record is whole, flushed and read-only before anything is linked |
| EvidencePublisher.Publisher.UnlinkExactTemp | platform/macos/alias_resume_runner.py:303-333 | The private name is dropped only while it binds the record, after two lookups that measured it as expected, in inode, links, size and mode, and an open in between; a public record stays public; what it raises is the call that failed last |
| EvidencePublisher.Publisher.TryToDrop | platform/macos/alias_resume_runner.py:422-427 | Only an interruption of the removal is passed on, and always |
| EvidencePublisher.Publisher.FsyncDirectory | platform/macos/alias_resume_runner.py:292-301 | A flush that returns makes the current binding and every change of a name durable; it fails only by a failed call |
| EvidencePublisher.Publisher.SnapshotFinal | platform/macos/alias_resume_runner.py:336-374 | A snapshot returns only the record itself, measured alike before and after hashing and by name: inode, digest and immutable mode |
| EvidencePublisher.Publisher.LinkAndConfirm | platform/macos/alias_resume_runner.py:412-452 | From the link on the record is never withdrawn; a return has sealed and confirmed it. Without rivals, over a free name, it raises only an interruption or after a failed call that was not on the private name; an interruption is never swallowed |
| EvidencePublisher.Publisher.Publish | platform/macos/alias_resume_runner.py:383-460 | Every run is disciplined and never withdraws; a returned record is sealed, whole, immutable and was found under the final name; a published record is on disk unless two calls fail; failures on the private name alone cannot spoil the record; without faults it succeeds exactly when size and both names allow |
| EvidencePublisher.Publisher.GiveUp | platform/macos/alias_resume_runner.py:453-460 | The failure path changes no name, keeps partial evidence and, unless one of its own calls fails, makes a published name durable |
| RecoveryPublisher.Recovery.Prepare | platform/macos/alias_resume_recover.py:258-275 | The recovery record is whole and flushed before anything is linked |
| RecoveryPublisher.Recovery.LinkAndConfirm | platform/macos/alias_resume_recover.py:276-303 | A return has seen the record sealed under its name; a link that raised late leaves it public |
| RecoveryPublisher.Recovery.MakeDurable | platform/macos/alias_resume_recover.py:277-285 | From the link to the flush nothing is withdrawn; a return has sealed the link and dropped the private name |
| RecoveryPublisher.Recovery.Check | platform/macos/alias_resume_recover.py:286-298 | Inode, mode, size and digest of the final name are those of the record |
| RecoveryPublisher.Recovery.DigestNamed | platform/macos/alias_resume_recover.py:295-296 | Hashing by path pins whatever the name binds at that instant |
| RecoveryPublisher.Recovery.RollbackExact | platform/macos/alias_resume_recover.py:318-332 | Removes the name after a lookup that found the record and a digest that matched, careful but with a window for rivals; without rivals and failed calls it succeeds; otherwise it names the call that failed since entry |
| RecoveryPublisher.Recovery.CheckRollback | platform/macos/alias_resume_recover.py:318-327 | The lookup and the digest before the removal; a failure says which of them it was, and without rivals neither fails but by a failed call |
| RecoveryPublisher.Recovery.DropPrivate | platform/macos/alias_resume_recover.py:307-308 | Before the link the private name is dropped and the final name is untouched; without rivals and failed calls it is gone and the original error goes on |
| RecoveryPublisher.Recovery.UndoPublished | platform/macos/alias_resume_recover.py:309-314 | After the link the record is taken back if it is still the record, or the call that prevented it since entry is named; without rivals and failed calls it is taken back, on disk too |
| RecoveryPublisher.Recovery.GiveUp | platform/macos/alias_resume_recover.py:304-315 | Either the private name is dropped or the published one rolled back; without rivals and failed calls that succeeds and the original error goes on; nothing is withdrawn that was not published |
| RecoveryPublisher.Recovery.Publish | platform/macos/alias_resume_recover.py:249-315 | Every run is careful; a return has confirmed the record; without rivals an error exit leaves the record public exactly if the link raised late, or a close, lookup, digest or removal failed in the cleanup, so after two failures; without faults the exit is determined by size and names |
| RecoveryPublisher.Recovery.Execute | platform/macos/alias_resume_recover.py:335-371 | A record that the later contract check refuses is taken back, or the run ends in an error; when such an error leaves it public is said as exactly; without faults it succeeds exactly if size, names and that check allow, and else leaves both names as they were |
| DependencyRoot.Parent.RenameExclusive | platform/macos/acquire_sparkle.py:1307-1325 | The exclusive rename is all or nothing and binds the final name only while it is free; it may raise after taking effect |
| DependencyRoot.Parent.Preflight | platform/macos/acquire_sparkle.py:1276-1291 | Passes undisturbed exactly when the parent is the pinned one, the staged name is a real directory and the final name is free |
| DependencyRoot.Parent.Confirm | platform/macos/acquire_sparkle.py:1337-1348 | A confirmation has seen the final name bound to the staged inode after the flush |
| DependencyRoot.Parent.Install | platform/macos/acquire_sparkle.py:1275-1358 | Refused exactly if nothing was renamed or the rename raised late, uncertain exactly if renamed but not flushed, otherwise committed or normal; normal has seen the staged inode after the flush |
| DependencyRoot.Parent.Publish | platform/macos/acquire_sparkle.py:1263-1378 | The exit is truthful about rename and flush exactly if the rename did not raise after taking effect; undisturbed and without faults it succeeds exactly when the checks allow |
| DependencyRoot.Parent.PublishAndCleanUp | platform/macos/acquire_sparkle.py:1396-1411 | The staging name is removed only after a refusal, and then unless that call fails; without rivals the staged directory is left only by a refusal and that failure; the installed directory stays |
| DependencyRoot.InstalledThoughRefused | platform/macos/acquire_sparkle.py:1307-1327 | Concrete run: the rename raises late, the caller is told of a refusal, and the directory is installed |
| RuntimeMonitor.RunIsLongestSuffix | platform/macos/alias_resume_runner.py:1649-1659 | The running counter is the length of the longest critical suffix of the samples |
| RuntimeMonitor.LongestRunIsMaximal | platform/macos/alias_resume_runner.py:1660-1667 | No stretch of critical samples is longer than the recorded maximum |
| RuntimeMonitor.LongestRunIsReached | platform/macos/alias_resume_runner.py:1660-1667 | Some stretch of critical samples is as long as the recorded maximum |
| RuntimeMonitor.PressedExactly | platform/macos/alias_resume_runner.py:1668-1685 | An abort is due exactly on an immediately critical sample, a third low one in a row, or a second low one with high swap in a row |
| RuntimeMonitor.NeverPressedBounds | platform/macos/alias_resume_runner.py:2155-2175 | A history without an abort stays below every bound that the success gate asks for |
| RuntimeMonitor.SummaryGrows | platform/macos/alias_resume_runner.py:1636-1667 | The in-place update of the memory report is the summary of the history with one more sample |
| RuntimeMonitor.SummaryAccepted | platform/macos/alias_resume_runner.py:1972-2092 | Every summary of well-formed samples passes the memory section of the validator |
| RuntimeMonitor.LeastFreeIsReached | platform/macos/alias_resume_runner.py:1637-1641 | The recorded minimum is some sample of the history |
| RuntimeMonitor.SummaryBounds | platform/macos/alias_resume_runner.py:1637-1647 | The recorded minimum and maxima bound every sample of the history |
| RuntimeMonitor.MostSwapIsReached | platform/macos/alias_resume_runner.py:1642-1647 | The recorded maxima are those of some sample, or zero |
| RuntimeMonitor.ReportsUnique | platform/macos/alias_resume_runner.py:1772-1791 | What was observed determines the report: minimum and last free bytes, largest stdout, memory section, number of checks |
| RuntimeMonitor.GateFollows | platform/macos/alias_resume_runner.py:2155-2175 | Two or more samples without pressure pass the memory part of the success gate |
| RuntimeMonitor.Monitor.Count | platform/macos/alias_resume_runner.py:1636-1667 | The counters after one more sample stand for the longer history |
| RuntimeMonitor.Monitor.ObserveMemory | platform/macos/alias_resume_runner.py:1604-1685 | Missing or malformed samples are an observation abort; otherwise the abort is decided by the whole history |
| RuntimeMonitor.Monitor.ObserveDisk | platform/macos/alias_resume_runner.py:1690-1717 | Which of the disk and stdout aborts one check gives, exactly, and what it adds to the free bytes and stdout sizes that minimum, last and maximum stand for |
| RuntimeMonitor.Monitor.ObserveRuntime | platform/macos/alias_resume_runner.py:1687-1740 | One check: samples on the first, every fifth and the forced check; its outcome is that of the first answer that is missing, malformed or out of bounds; the counters stand for the observations with its own added |
| RuntimeMonitor.Monitor.ObserveIfDue | platform/macos/alias_resume_runner.py:1719-1724 | The memory part of a check: a sample only on the first, every fifth and the forced check, and what it comes to |
| RuntimeMonitor.Monitor.StopsOnce | platform/macos/alias_resume_runner.py:1742-1755 | A probe history has at most one check at which the loop can stop |
| RuntimeMonitor.Monitor.EndsWhereItStops | platform/macos/alias_resume_runner.py:1742-1791 | The outcome at that check is completed exactly if the history runs to its end there, or some prefix of it does, and the memory abort exactly if some prefix presses first |
| RuntimeMonitor.Monitor.Turn | platform/macos/alias_resume_runner.py:1742-1755 | One pass: it ends the loop exactly at the stopping check, with its outcome |
| RuntimeMonitor.Monitor.Watch | platform/macos/alias_resume_runner.py:1742-1755 | The loop stops exactly at the first check that is remarkable or finds the process gone, and says which |
| RuntimeMonitor.Monitor.Judge | platform/macos/alias_resume_runner.py:1756-1791 | Survivors of the group override the reason to stop, and a process that exited well is checked once more |
| RuntimeMonitor.Monitor.CheckOnceMore | platform/macos/alias_resume_runner.py:1768-1771 | The forced check adds its observations, and decides the outcome |
| RuntimeMonitor.Monitor.Wait | platform/macos/alias_resume_runner.py:1587-1791 | For every probe history the outcome is that of the one check at which the loop stops; the report is that of exactly the checks made, the forced one included if it was: their number, the least and the last free bytes, the largest stdout, the summary of the samples; it passes the validator; completed exactly if all checks and the forced one were quiet, and then the success gate holds; the memory abort exactly at the first pressing sample |
| ExitStatus.FailureValueAccepted | platform/macos/alias_resume_runner.py:1794-1812 | Every failure value built from reportable errors passes the validator |
| ExitStatus.MessageKept | platform/macos/alias_resume_runner.py:1794-1803 | A message is kept up to its bound, and an empty one gives way to the repr |
| ExitStatus.AcceptedExactly | platform/macos/alias_resume_runner.py:2140-2179 | The validator accepts what the producer built exactly when outcome, failure and snapshots are coherent and nothing changed since |
| ExitStatus.SuccessAgreed | platform/macos/alias_resume_runner.py:1850-1888 | Producer and validator derive success alike, whatever is put together |
| ExitStatus.ChangedExactly | platform/macos/alias_resume_runner.py:2093-2200 | A changed record, log, output or status file is found, each on its own, and without one nothing counts as changed |
| ExitStatus.AcceptanceProves | platform/macos/alias_resume_runner.py:1891-2200 | What an accepted status tells its reader of process, failure entries, monitor, evidence and success |
| OwnedRun.SettleSound | platform/macos/alias_resume_runner.py:2569-2630 | Settlement gives outcome completed exactly without an error, and only for a completed monitor and return code zero |
| OwnedRun.MonitorAndSettle | platform/macos/alias_resume_runner.py:2552-2630 | Without an error exactly if the monitor ran to its end with return code zero and nothing else was raised; otherwise the outcome is that of the monitor, of the leader, or of the error |
| OwnedRun.Completion.CheckEvidence | platform/macos/alias_resume_runner.py:2227-2252 | No error is left exactly if there was none, the hook passed and all live records are there; otherwise the first of these is the error, with its outcome |
| OwnedRun.Completion.TakeSnapshots | platform/macos/alias_resume_runner.py:2253-2274 | Stdout is kept exactly if it is frozen, within its bound where it has one, and nonempty where a success needs it; each snapshot that fails adds its secondary error, and nothing else is added |
| OwnedRun.Completion.PreferSignal | platform/macos/alias_resume_runner.py:2275-2282 | A pending signal becomes the primary error in front of all others, unless a signal is that already; without one nothing changes |
| OwnedRun.Completion.PromoteSecondary | platform/macos/alias_resume_runner.py:2283-2289 | The reported errors stay as they are; without any, a missing snapshot is the only one |
| OwnedRun.Completion.CurrentCoherent | platform/macos/alias_resume_runner.py:1815-1888 | The status as the run now stands is accepted exactly if the world is unchanged, and derives success exactly without an error |
| OwnedRun.Completion.PublishAndValidate | platform/macos/alias_resume_runner.py:2293-2323 | The validator rejects the runner's own status only if something outside changed evidence |
| OwnedRun.Completion.Overtake | platform/macos/alias_resume_runner.py:2329-2336 | Withdrawing a success makes the run interrupted |
| OwnedRun.Completion.PublishLoop | platform/macos/alias_resume_runner.py:2292-2336 | At most two publications; a run without an error ends as a success exactly if no signal was seen at the last check; otherwise as an interruption by that signal |
| OwnedRun.Completion.CleanExactly | platform/macos/alias_resume_runner.py:2227-2289 | A run reports no error exactly if nothing went wrong |
| OwnedRun.Completion.Prepare | platform/macos/alias_resume_runner.py:2224-2289 | Before the publication a run reports its natural errors, preceded by a signal that has come in; outcome, stdout and snapshot in each case |
| OwnedRun.Completion.CompleteOwnedRun | platform/macos/alias_resume_runner.py:2204-2347 | For every mix of failures and signals: at most two publications, a truthful status, handlers restored. A published status is a success exactly if there was no earlier error, no hook error, complete evidence, both snapshots, no secondary error and no signal at the last check; its errors are exactly the natural ones in order, preceded at most by the signal; undisturbed, it is published at once |
| OwnedRun.CompleteSettled | platform/macos/alias_resume_runner.py:2640-2664 | The status carries the settled return code, report and, unless a signal overtakes it, outcome |
| OwnedRun.MonitorAndComplete | platform/macos/alias_resume_runner.py:2552-2664 | From the first probe to the published status, with signals during or after the monitor: a success exactly if the monitor ran to its end with return code zero, evidence and snapshots are complete, and no error or signal came in; the status carries the report of the checks and the outcome; a signal that ends the monitor is reported, and the run is interrupted |
| ProcessSpine.ChainRepeats | platform/macos/alias_resume_runner.py:1082-1087 | A parent chain that meets one process twice never meets a new one |
| ProcessSpine.CycleCircles | platform/macos/alias_resume_runner.py:1085-1086 | Meeting a visited process means the whole infinite chain avoids the goal and never leaves |
| ProcessSpine.LeftForGood | platform/macos/alias_resume_runner.py:1088-1092 | Leaving the members before the goal means never reaching it |
| ProcessSpine.WalkUp | platform/macos/alias_resume_runner.py:1080-1092 | The cursor walk ends, and its three results say exactly what the unbounded parent chain does |
| ProcessSpine.KeyedExactly | platform/macos/alias_resume_runner.py:1054-1055 | A dictionary is as large as its list exactly when no key repeats |
| ProcessSpine.RoleTable | platform/macos/alias_resume_runner.py:1050-1065 | The role table passes its check exactly when every expected role occurs once, and then it holds those processes |
| ProcessSpine.SelectSizes | platform/macos/alias_resume_runner.py:1050-1053 | The two selections add up exactly when no role is unknown |
| ProcessSpine.ChainMatches | platform/macos/alias_resume_runner.py:1066-1076 | The chain check holds exactly for the fixed parents and one process group |
| ProcessSpine.ChainExactly | platform/macos/alias_resume_runner.py:1066-1076 | The chain holds exactly if the leader is the one asked for, every other fixed process hangs below its fixed parent, and every member is in the group |
| ProcessSpine.CheckAncestry | platform/macos/alias_resume_runner.py:1080-1092 | Accepts exactly if every helper reaches Ninja; otherwise reports the first that does not and why |
| ProcessSpine.FixedReachLeader | platform/macos/alias_resume_runner.py:1066-1076 | The seven fixed processes descend from the group leader |
| ProcessSpine.AcceptedReachLeader | platform/macos/alias_resume_runner.py:1045-1092 | In an accepted spine every member's parent chain reaches the group leader |
| ProcessSpine.ValidateSpine | platform/macos/alias_resume_runner.py:1045-1092 | Each error exactly in its case; accepted exactly for a complete, framed spine whose helpers all reach Ninja; then every member is in the group and descends from the leader |
| PatchEngine.FileLines.ApplyHunk | focus-chromium/devutils/validate_patches.py:494-515 | The in-place loop computes the hunk's meaning, with Python's indexing, errors included |
| PatchEngine.FileLines.Modify | focus-chromium/devutils/validate_patches.py:486-515 | The in-place application of all hunks computes the patch's meaning, errors included |
| PatchEngine.RunExactly | focus-chromium/devutils/validate_patches.py:494-515 | A hunk inside the file runs through, without being cut short, exactly when its source side stands at the cursor, and then replaces it by its target side |
| PatchEngine.InvalidExactly | focus-chromium/devutils/validate_patches.py:491-494 | A hunk is refused as invalid exactly if its header miscounts its lines, and then changes nothing |
| PatchEngine.WovenRuns | focus-chromium/devutils/validate_patches.py:486-515 | A file of untouched stretches woven with source sides becomes the same stretches woven with target sides |
| PatchEngine.RunsWoven | focus-chromium/devutils/validate_patches.py:486-515 | Conversely, an ordered patch that runs through inside a file finds that file woven that way |
| PatchEngine.PatchExactly | focus-chromium/devutils/validate_patches.py:486-515 | An ordered patch runs through inside exactly the files woven with its source sides, and gives the target sides between the same stretches |
| PatchEngine.PatchGrowth | focus-chromium/devutils/validate_patches.py:486-515 | A patch that runs through inside the file changes its length by added minus removed lines |
| PatchEngine.ReverseWeaves | focus-chromium/devutils/validate_patches.py:486-515 | The reversed patch is placed where the target sides stand |
| PatchEngine.ReverseRestores | focus-chromium/devutils/validate_patches.py:486-515 | Applying an ordered, offset-consistent patch that runs through and then its reverse restores the file line for line |
| PatchAcceptance.CutsShort | focus-chromium/devutils/validate_patches.py:507-510 | A hunk whose blank context line meets the end of the file applies the part before it and reports no error |
| PatchAcceptance.HunkAcceptedExactly | focus-chromium/devutils/validate_patches.py:494-515 | A hunk inside the file is accepted exactly when its source side stands at the cursor or a blank context line of it meets the end of the file; the result in each case |
| PatchAcceptance.PastHunkExactly | focus-chromium/devutils/validate_patches.py:494-499 | A hunk past the end is accepted exactly when it only adds, and its lines are appended |
| PatchAcceptance.PastPatchExactly | focus-chromium/devutils/validate_patches.py:486-515 | So is a whole patch past the end |
| PatchAcceptance.AcceptedExactly | focus-chromium/devutils/validate_patches.py:486-515 | An ordered patch is accepted exactly when it runs through inside the file, or from some hunk on falls off its end |
| PatchAcceptance.FallenResult | focus-chromium/devutils/validate_patches.py:486-515 | What a patch that falls off leaves: its first hunks applied, the hunk that runs off as far as it got, every later addition appended |
| PatchAcceptance.FallenGrowth | focus-chromium/devutils/validate_patches.py:486-515 | Such a patch misses exactly the growth of the part it drops |
| PatchAcceptance.StartsPastExactly | focus-chromium/devutils/validate_patches.py:494-499 | Whether a hunk starts past the end of what the hunks before it leave can be told from the length of the file and their growth |
| PatchAcceptance.GrowthExactly | focus-chromium/devutils/validate_patches.py:486-515 | An accepted patch changes the length by added minus removed lines exactly when it runs through or what it drops is balanced |
| PatchReversal.ReverseOrdered | focus-chromium/devutils/validate_patches.py:486-515 | The reversed patch is ordered on the source side |
| PatchReversal.TooManyRemovals | focus-chromium/devutils/validate_patches.py:500-504 | Removals of more lines than the file has from their first place on are rejected |
| PatchReversal.ReverseFallen | focus-chromium/devutils/validate_patches.py:486-515 | Reversing a patch that fell off restores the file exactly when nothing was appended past its end |
| PatchReversal.ReverseRestoresExactly | focus-chromium/devutils/validate_patches.py:486-515 | Reversing any accepted, ordered, offset-consistent patch restores the file exactly when it appended nothing past the end |
| PatchReversal.DropsAnAddition | focus-chromium/devutils/validate_patches.py:507-510 | Concrete patch that is accepted and loses its addition |
| PatchReversal.AppendsForGood | focus-chromium/devutils/validate_patches.py:494-510 | Concrete accepted patch whose reverse does not restore the file |
| PatchReversal.AppendsFromAfar | focus-chromium/devutils/validate_patches.py:494-499 | Concrete addition far past the end, appended |
| PatchEngine.DeletionExactly | focus-chromium/devutils/validate_patches.py:495-507 | With a target start of zero the cursor is the last line, so a deletion runs exactly if the file ends in the deleted lines backwards |
| PatchEngine.AddedBeforeLast | focus-chromium/devutils/validate_patches.py:495-499 | With a target start of zero an added line comes to stand in front of the last one |
| PatchEngine.TerminatedDeletionRejected | focus-chromium/devutils/validate_patches.py:495-507 | So deleting any newline-terminated file that starts with text is rejected |
| PatchEngine.DeletionOfTwoLines | focus-chromium/devutils/validate_patches.py:495-507 | Concrete files on which that deletion fails and succeeds |
| PatchValidation.FilesUnderTest.ApplyFile | focus-chromium/devutils/validate_patches.py:518-534 | One file operation does to the dictionary what its meaning says, and reports failure exactly then; on a removed file it passes exactly if its hunks look at no line |
| PatchValidation.OperationPasses | focus-chromium/devutils/validate_patches.py:518-534 | An operation touches its own file only, and passes exactly if it can be made |
| PatchValidation.OperationLeaves | focus-chromium/devutils/validate_patches.py:518-534 | An added file has the lines of its hunk, a removed one is gone, a modified one has what its hunks make of it |
| PatchValidation.UntouchedStays | focus-chromium/devutils/validate_patches.py:553-586 | A file that no operation names stays as it was |
| PatchValidation.LastOperationDecides | focus-chromium/devutils/validate_patches.py:553-586 | Of a series that runs to its end the last operation on a file decides what is left of it |
| PatchValidation.FilesUnderTest.TestPatches | focus-chromium/devutils/validate_patches.py:553-586 | The series is applied up to the first operation that fails |
| PatchValidation.RequiredFiles | focus-chromium/devutils/validate_patches.py:610-620 | A file is required exactly if its first operation is not an addition |
| PatchValidation.RequiredSuffices | focus-chromium/devutils/validate_patches.py:610-620 | With the required files no operation that is reached misses its file |
| PatchValidation.RequiredNecessary | focus-chromium/devutils/validate_patches.py:610-620 | A series that runs to its end needed every required file, and its lines unless its first operation on the file looks at none |
| PatchValidation.LastProbeExactly | focus-chromium/devutils/validate_patches.py:258-269 | The answer is the last probe: the newest commit not after the target, or the one just before it, exactly by how the halving ends |
| PatchValidation.LastProbeOvershoots | focus-chromium/devutils/validate_patches.py:263-269 | Two commits on which the answer is after the target |
| PatchValidation.CommitBeforeDate | focus-chromium/devutils/validate_patches.py:239-269 | The loop over a log in any order: both short cuts and the last probe; newest first, what that probe is |
| DiffScanners.BodiesAgree | platform/macos/focus_macos.py:679-697 | Both hunk rules end a strictly accepted body at the same line |
| DiffScanners.ScansAgree | platform/macos/focus_macos.py:631-720 | From any reachable point of a strictly accepted file the counting scanner gives what the coming pairs say |
| DiffScanners.ScannersAgree | platform/macos/focus_macos.py:1396-1497 | On every strictly accepted file the counting scanner accepts exactly if there is no Git metadata, quote or path change, and then its deletions and creations are those pairs in order |
| DiffForms.HeaderPaths | platform/macos/focus_macos.py:613-628 | On either side a path is named alike with a/, with b/ and without a prefix, and a tab with a timestamp changes nothing: it leads to its safe form, or is refused; /dev/null stands for no file |
| DiffForms.ExactDiffAccepted | platform/macos/focus_macos.py:631-720 | Every diff of files whose headers name safe paths and whose hunks count their lines exactly is accepted, with the pairs of its headers in order |
| DiffForms.AcceptedIsExact | platform/macos/focus_macos.py:631-720 | Conversely whatever is accepted is such a diff, behind lines that say nothing |
| DiffForms.GitChangeAccepted | platform/macos/focus_macos.py:613-1497 | A modification, creation or deletion in the form Git writes, with exact counts, is accepted by both scanners: the safe path on each side that has one, and exactly the operation that it is |
| DiffForms.CountedBodyIsScanned | platform/macos/focus_macos.py:1434-1468 | The counting scanner takes the declared lines, whatever stands behind their first character, and the markers behind them |
| DiffForms.MetadataForbidden | platform/macos/focus_macos.py:1405-1411 | Rename, copy and similarity lines are refused, whatever follows |
| DiffScanners.AddPairsSplits | platform/macos/focus_macos.py:1491-1494 | The lists grown pair by pair are the deletions and creations of all pairs |
| DiffScanners.ScanStrictBody | platform/macos/focus_macos.py:679-697 | The body loop computes where the body ends and its two counts |
| DiffScanners.ValidateSyntax | platform/macos/focus_macos.py:631-720 | The strict scanner as a loop; what it accepts is said exactly by AcceptedIsExact and ExactDiffAccepted |
| DiffScanners.ScanCountedBody | platform/macos/focus_macos.py:1434-1468 | The loop that consumes exactly the declared counts |
| DiffScanners.ScanOperations | platform/macos/focus_macos.py:1396-1497 | The counting scanner as a loop; what it makes of Git changes is said by GitChangeAccepted |
| CommentStripper.StripComments | platform/macos/focus_macos.py:1942-1996 | The loop computes the automaton's output, or nothing for an open block comment |
| CommentStripper.Pass | platform/macos/focus_macos.py:1948-1993 | One pass through the loop is one step of the automaton |
| CommentStripper.Scan | platform/macos/focus_macos.py:1942-1996 | The output is as long as the text |
| CommentStripper.OnlyBlanks | platform/macos/focus_macos.py:1974-1993 | Every character is kept or becomes a space, and line breaks stay where they are |
| CommentStripper.PositionsExactly | platform/macos/focus_macos.py:1948-1993 | Position by position: comments and delimiters are blanked, literals and other code kept |
| CommentStripper.NoOpenerLeft | platform/macos/focus_macos.py:1942-1996 | Read as code and literals the output holds no comment opener |
| CommentStripper.StrippedIsClean | platform/macos/focus_macos.py:1942-1996 | The result holds no opener outside literals, and stripping again changes nothing |
| CommentStripper.UnchangedExactly | platform/macos/focus_macos.py:1942-1996 | A text comes out unchanged exactly when it has no opener |
| CommentStripper.LiteralPassed | platform/macos/focus_macos.py:1968-1978 | Inside a literal escaped quotes, comment marks and line breaks are copied, up to the first unescaped quote |
| CommentStripper.TokensStripped | platform/macos/focus_macos.py:1942-1996 | A text put together from code, literals and comments comes out with exactly its comments blanked, whatever escapes and comment marks its literals hold |
| CommentStripper.MarksInQuotes | platform/macos/focus_macos.py:1964-1978 | Between two single or two double quotes nothing is a comment |
| CommentStripper.RejectedExactly | platform/macos/focus_macos.py:1994-1996 | A text is rejected exactly if some block comment opened in code is never closed |
| CommentStripper.RefusedExactly | platform/macos/focus_macos.py:1994-1996 | Only a block comment that is never closed makes a text refused |
| DomainIndex.ParsePrinted | focus-chromium/utils/domain_substitution.py:152 | Printed hexadecimal digits parse to the number |
| DomainIndex.HexRoundTrip | focus-chromium/utils/domain_substitution.py:147-152 | Every 32-bit checksum survives printing with eight digits and parsing |
| DomainIndex.EitherCase | focus-chromium/utils/domain_substitution.py:147-152 | Hexadecimal digits are read in either case |
| DomainIndex.IndexSplits | focus-chromium/utils/domain_substitution.py:136-138 | The printed index splits into one line per entry |
| DomainIndex.SplitPrinted | focus-chromium/utils/domain_substitution.py:137-138 | A printed line splits at its delimiter |
| DomainIndex.EntryRoundTrip | focus-chromium/utils/domain_substitution.py:137-160 | A printed entry is read back as it was |
| DomainIndex.SkippedExactly | focus-chromium/utils/domain_substitution.py:137-141 | A line is passed over without consequence exactly when it does not hold exactly one delimiter |
| DomainSubstitution.ApplyPathsTree | focus-chromium/utils/domain_substitution.py:216-235 | For distinct paths the result is, file by file, the substituted content and the shifted time |
| DomainSubstitution.SavedFaithful | focus-chromium/utils/domain_substitution.py:231-242 | Every saved file is a listed, matching one with its original content and the new checksum, once |
| DomainSubstitution.SavedComplete | focus-chromium/utils/domain_substitution.py:231-242 | Every listed file that matches is saved |
| DomainSubstitution.PrintedIndexValid | focus-chromium/utils/domain_substitution.py:127-161 | A printed index is valid exactly when every file behind it has its checksum |
| DomainSubstitution.CacheValidExactly | focus-chromium/utils/domain_substitution.py:127-161 | Read against any later tree, the cache is valid exactly when every saved file is untampered |
| DomainSubstitution.RevertUndoesApply | focus-chromium/utils/domain_substitution.py:250-316 | Reverting right after applying finds a valid index and leaves only the shifted times of listed files without a match |
| DomainSubstitution.SavedAt | focus-chromium/utils/domain_substitution.py:231-242 | A path is in the cache exactly if it is listed, regular and matching |
| DomainSubstitution.SourceTree.SubstitutePath | focus-chromium/utils/domain_substitution.py:100-124 | One file: substituted in place if it matches, shifted in time either way |
| DomainSubstitution.NodeExactly | focus-chromium/utils/domain_substitution.py:100-124 | A file with any bytes and any match is rewritten, every other keeps its content; the time moves either way |
| DomainSubstitution.SourceTree.SubstituteAll | focus-chromium/utils/domain_substitution.py:216-242 | The loop builds the tree, the index text and the originals |
| DomainSubstitution.SourceTree.Apply | focus-chromium/utils/domain_substitution.py:186-247 | Each exit and what it leaves of tree and cache |
| DomainSubstitution.SourceTree.ValidateIndex | focus-chromium/utils/domain_substitution.py:127-161 | The reading loop computes the validity of the index |
| DomainSubstitution.SourceTree.Revert | focus-chromium/utils/domain_substitution.py:250-316 | A missing cache, an invalid index or a failed read changes nothing; otherwise every original is back and the cache goes if all were used |
| DomainSubstitution.SourceTree.RestoreOriginals | focus-chromium/utils/domain_substitution.py:302-311 | The originals go back in any order |
| DomainSubstitution.ApplyThenRevert | focus-chromium/utils/domain_substitution.py:186-316 | On disk: every content is back, every substituted file has its time back, files without a match stay one delta late, the cache is gone |
| SeriesMetadata.ParseMetadata | focus-chromium/devutils/update_platform_patches.py:99-117 | The loop files inline comments and comment blocks under the patch they follow |
| SeriesMetadata.RestoreAt | focus-chromium/devutils/update_platform_patches.py:123-130 | One step edits the line and inserts the block after it |
| SeriesMetadata.RestoreMetadata | focus-chromium/devutils/update_platform_patches.py:120-130 | The insertion loop ends although the list grows, and restores every element |
| SeriesMetadata.RebuiltText | focus-chromium/devutils/update_platform_patches.py:99-130 | A series of different patches that starts with a patch line is rebuilt from bare paths and metadata, comments and blanks included, exactly if no path has blanks around it |
| SeriesMetadata.RebuiltExactly | focus-chromium/devutils/update_platform_patches.py:99-130 | What is rebuilt of a series of different patches is the series from its first patch line on exactly if no path has blanks around it |
| SeriesMetadata.ParsedWeight | focus-chromium/devutils/update_platform_patches.py:95-117 | Parsed paths weigh no more than the lines they come from, and as much exactly if no path has blanks around it |
| SeriesMetadata.PaddingGoes | focus-chromium/utils/_common.py:128-137 | White space in front of a line or behind it is stripped |
| SeriesMetadata.WeightBack | focus-chromium/devutils/update_platform_patches.py:120-130 | Lines can only come back from paths that weigh as much, whatever metadata restores them |
| SeriesMetadata.OnlyUnpadded | focus-chromium/devutils/update_platform_patches.py:99-130 | Whatever the patches are called, a series that comes back has no blanks around its paths |
| SeriesMetadata.LeadIgnored | focus-chromium/devutils/update_platform_patches.py:107-110 | Lines before the first patch change nothing in the metadata that is read |
| SeriesMetadata.LeadLostExactly | focus-chromium/devutils/update_platform_patches.py:107-110 | The text comes back exactly when no comment precedes the first patch, the single blank line aside |
| SeriesMetadata.PatchLineBackExactly | focus-chromium/devutils/update_platform_patches.py:95-130 | A single patch line is rebuilt exactly if no blanks surround its path |
| SeriesMetadata.KnownPaths | focus-chromium/devutils/update_platform_patches.py:99-117 | The metadata knows exactly the parsed paths |
| SeriesMerge.SortedBack | focus-chromium/devutils/update_platform_patches.py:163-170 | Merged bare paths of disjoint series sort back into both |
| SeriesMerge.MergedSplits | focus-chromium/utils/patches.py:169-197 | The merged file splits back into the bare paths, but for those that stripping left blank |
| SeriesMerge.ApartAgain | focus-chromium/devutils/update_platform_patches.py:133-187 | Of two series of different patches, taking the merged text apart gives both back from their first patch line on exactly if no path in either has blanks around it |
| SeriesMerge.SortedWeight | focus-chromium/devutils/update_platform_patches.py:163-170 | Sorting neither loses nor makes up a path |
| SeriesMerge.OnlyUnpaddedApart | focus-chromium/devutils/update_platform_patches.py:133-187 | Whatever the patches are called, two series that both come back have no blanks around their paths |
| SeriesMerge.SeriesFiles.Merge | focus-chromium/devutils/update_platform_patches.py:33-54 | Conflict exactly for a common path; otherwise the merged file holds the paths of both, generic first |
| SeriesMerge.Sort | focus-chromium/devutils/update_platform_patches.py:163-170 | The sorting loop |
| SeriesMerge.Separate | focus-chromium/devutils/update_platform_patches.py:140-174 | Taking a merged text apart computes both restored texts, or finds nothing to move exactly in that case |
| SeriesMerge.SeriesFiles.Unmerge | focus-chromium/devutils/update_platform_patches.py:133-187 | What is written; a missing file, or nothing to move, in its exact case, leaves everything as it was |
| SeriesMerge.Through | focus-chromium/devutils/update_platform_patches.py:33-187 | Merging and taking apart, whatever the comments are, leaves no intermediate file, or raises and stays merged, exactly if no path would move |
| SeriesMetadata.NoPaths | focus-chromium/devutils/update_platform_patches.py:99-117 | The metadata knows no path exactly if no line names one |
| SeriesMerge.NothingMovesExactly | focus-chromium/devutils/update_platform_patches.py:80-90 | Nothing moves exactly if the generic series names no patch and nothing precedes the platform's in the merged file |
| SeriesMerge.MergeThenUnmerge | focus-chromium/devutils/update_platform_patches.py:33-187 | For any two series of different patches: unmerge after merge raises and leaves the series merged exactly if the generic one names no patch and nothing precedes the platform's; otherwise it writes both back line for line from their first patch line on exactly if no path in either has blanks around it |
| SeriesMerge.PaddedLosesComments | focus-chromium/devutils/update_platform_patches.py:33-187 | Concrete series with a blank behind a path: it comes back without the blank and without the comment after it |
| SeriesMerge.TextComesBack | focus-chromium/devutils/update_platform_patches.py:33-187 | A newline-terminated series that starts with a patch is exactly what is written |
| TranslationIds.ValuePrinted | focus-chromium/utils/name_substitution_utils.py:163 | Printing and reading a decimal id |
| TranslationIds.StepShrinks | focus-chromium/utils/name_substitution_utils.py:162-163 | Every step of the probe has fewer used numbers ahead |
| TranslationIds.FreeIsLeast | focus-chromium/utils/name_substitution_utils.py:161-163 | The number found is the only unused one with nothing unused between |
| TranslationIds.NumberGetsLeast | focus-chromium/utils/name_substitution_utils.py:161-164 | A canonical number gets the least unused number not below its own |
| TranslationIds.DistinctExactly | focus-chromium/utils/name_substitution_utils.py:150-165 | Ids come out pairwise distinct exactly when those that are no numbers went in so |
| TranslationIds.ProbesCommute | focus-chromium/utils/name_substitution_utils.py:161-165 | Two probes fill the same numbers whichever goes first |
| TranslationIds.AddsCommute | focus-chromium/utils/name_substitution_utils.py:150-165 | Any two translations can be swapped without changing the ids in use |
| TranslationIds.AnyOrder | focus-chromium/utils/name_substitution_utils.py:174-177 | The ids in use at the end do not depend on the order of the translations |
| TranslationIds.Probe | focus-chromium/utils/name_substitution_utils.py:161-163 | The loop ends, with the resolved id |
| TranslationIds.Translation.Deduplicate | focus-chromium/utils/name_substitution_utils.py:150-165 | The element gets the resolved id, which is added to those seen |
| TranslationIds.MappedAt | focus-chromium/utils/name_substitution_utils.py:116-127 | A changed text gets the fingerprint recorded for its id, if there is one; every other keeps its id |
| TranslationIds.DistinctStay | focus-chromium/utils/name_substitution_utils.py:150-165 | Ids that are all different stay as they are |
| TranslationIds.WrittenAsMapped | focus-chromium/utils/name_substitution_utils.py:168-182 | The ids written are the mapped ones unless two of them are equal, and the first is its mapped one in any case |
| TranslationIds.ReplaceTree | focus-chromium/utils/name_substitution_utils.py:172-182 | The ids written are those of the mapped elements resolved in order; nothing is written exactly if no text changed; the ids on disk end distinct exactly if the mapped ids that are no numbers are, or, when nothing is written, the original ids are |
| TranslationIds.DroppedMove | focus-chromium/utils/name_substitution_utils.py:177-182 | Concrete file whose equal ids deduplication tells apart and which keeps them equal on disk |
| ArchiveExtraction.NormalName | platform/macos/acquire_sparkle.py:594-608 | A name that is accepted consists of safe parts |
| ArchiveExtraction.EveryName | platform/macos/acquire_sparkle.py:594-608 | Every name is spelled by its components |
| ArchiveExtraction.NormalNameExactly | platform/macos/acquire_sparkle.py:594-608 | A name is accepted exactly if none of its components is "..", holds a control character or a backslash, and an empty one stands only at the end behind one that is not "."; then its path consists of the components other than "" and "." |
| ArchiveExtraction.DotsAndSlashIgnored | platform/macos/acquire_sparkle.py:594-608 | However often "./" stands in front of a safe path, and with a final slash or without, it is read as that path |
| ArchiveExtraction.SelectedByName | platform/macos/acquire_sparkle.py:635-641 | Selected are exactly the license, whatever lies in the framework, and the four tools, by name |
| ArchiveExtraction.InsideExactly | platform/macos/acquire_sparkle.py:617-632 | A target stays inside exactly when no prefix goes up more often than the link is deep and than it has gone down |
| ArchiveExtraction.ValidateTarget | platform/macos/acquire_sparkle.py:611-632 | The stack machine accepts exactly the targets that stay below the root |
| ArchiveExtraction.FirstPassExactly | platform/macos/acquire_sparkle.py:653-680 | The member-by-member pass comes to: each acceptable alone, paths different, total size bounded |
| ArchiveExtraction.CheckMember | platform/macos/acquire_sparkle.py:659-679 | The checks on one member and the running size |
| ArchiveExtraction.AddMember | platform/macos/acquire_sparkle.py:653-680 | One pass through the first loop |
| ArchiveExtraction.Normalize | platform/macos/acquire_sparkle.py:649-680 | The first loop accepts exactly the archives of the first pass |
| ArchiveExtraction.CheckNesting | platform/macos/acquire_sparkle.py:682-689 | No member but a link lies below a link |
| ArchiveExtraction.ValidateMembers | platform/macos/acquire_sparkle.py:644-699 | Accepts exactly the safe and complete archives, and returns the selected members |
| ArchiveTree.RealWay | platform/macos/acquire_sparkle.py:702-709 | In a sound tree every directory on the way to a housed path is a real one |
| ArchiveTree.CollectDirs | platform/macos/acquire_sparkle.py:717-720 | The collected directories are exactly the proper prefixes |
| ArchiveTree.DirsNested | platform/macos/acquire_sparkle.py:717-720 | Every collected directory and every member lies in the root or a collected directory |
| ArchiveTree.Destination.MakeDirectory | platform/macos/acquire_sparkle.py:724-732 | A directory is made only on a way of real directories and before any link |
| ArchiveTree.Destination.WriteFile | platform/macos/acquire_sparkle.py:737-757 | A file is written only on a way of real directories, at a free place, and before any link |
| ArchiveTree.Destination.MakeLink | platform/macos/acquire_sparkle.py:769-774 | A link is made only in a real directory, at a free place |
| ArchiveTree.Destination.LayDirectories | platform/macos/acquire_sparkle.py:721-732 | Shortest first, all directories are laid exactly if nothing else stands in a place |
| ArchiveTree.Destination.ExtractFiles | platform/macos/acquire_sparkle.py:734-764 | All files are written exactly if their places are free and their sizes right |
| ArchiveTree.Destination.ExtractLinks | platform/macos/acquire_sparkle.py:766-777 | All links are made exactly if their places are free |
| ArchiveTree.Destination.ExtractSelected | platform/macos/acquire_sparkle.py:717-777 | The three phases end well exactly if nothing stands in the way |
| ArchiveTree.Destination.Extract | platform/macos/acquire_sparkle.py:712-777 | Rejected archives change nothing; an extraction ends well exactly for an accepted archive with room, and then with the described tree |
| ArchiveTree.FilesThenLinks | platform/macos/acquire_sparkle.py:734-777 | No link loses its place to a file, and both phases together place all members |
| ArchiveTree.TreeExactly | platform/macos/acquire_sparkle.py:712-777 | Old nodes are kept, directories are exactly the proper prefixes, files hold their bytes, links their targets, and there is nothing else |
| ArchiveTree.LinksStayInside | platform/macos/acquire_sparkle.py:611-632 | Read lexically, component by component, the target of an extracted link never rises above the root and does not end at it |
| LinkResolution.LexicalIsPhysical | platform/macos/acquire_sparkle.py:617-632 | A target that meets no link leads where the validator reads it: it leaves the root in both readings or in none, and ends equally deep |
| LinkResolution.ConfinedExactly | platform/macos/acquire_sparkle.py:617-632 | The targets that go up first and then down, within the root, are exactly those the validator passes that have no step up behind a step down |
| LinkResolution.ConfinedStaysInside | platform/macos/acquire_sparkle.py:611-632 | Followed through any links, however often, such a target never leads above the root |
| LinkResolution.ExtractedResolveInside | platform/macos/acquire_sparkle.py:712-777 | If the targets of an accepted archive are of that kind, every link of the extracted tree, followed through whatever other links, stays inside |
| Pruning.StepDown | focus-chromium/utils/prune_binaries.py:187 | Between a node and one below it there are only listed directories |
| Pruning.FolderSurvives | focus-chromium/utils/prune_binaries.py:197-202 | A directory that may go survives exactly when a child survives |
| Pruning.KeptSurvives | focus-chromium/utils/prune_binaries.py:187-202 | A listed node stays, and so does anything that is neither file, link nor directory, with the directories above it |
| Pruning.ChildrenDone | focus-chromium/utils/prune_binaries.py:187 | Children have longer paths, so they are done before their directory |
| Pruning.Tidied.PruneNode | focus-chromium/utils/prune_binaries.py:187-202 | After each turn exactly the nodes to come and the surviving ones are left |
| Pruning.Tidied.PrunePath | focus-chromium/utils/prune_binaries.py:180-202 | One pass suffices: a node survives exactly if it or something below it may not be deleted |
| BrandReplacement.SequentialIsSimultaneous | build_support/prepare_focus_onboarding_archive.py:40-48 | Replacing the three spellings one after the other is replacing them all in one pass |
| BrandReplacement.NoneLeft | build_support/prepare_focus_onboarding_archive.py:40-48 | None of the three spellings is left |
| BrandReplacement.UnchangedExactly | build_support/prepare_focus_onboarding_archive.py:30-31 | Text changes exactly when a spelling occurs |
| BrandReplacement.ReplacedOnce | build_support/prepare_focus_onboarding_archive.py:40-48 | Replacing again changes nothing |
| BrandReplacement.SinglePassExactly | build_support/rename_legacy_brand_to_focus.py:16-22 | The case-insensitive script agrees exactly on text that uses only the three spellings |
| BrandReplacement.TokensFold | build_support/rename_legacy_brand_to_focus.py:16-22 | On the three spellings both scripts substitute the same word |
| BrandReplacement.ReplaceBrand | build_support/prepare_focus_onboarding_archive.py:29-42 | Unchanged without an occurrence, an error for data that are no text, otherwise the simultaneous replacement |
| TranslationWork.GroupsAre | focus-chromium/devutils/i18n_translate.py:154-158 | Every group holds all the occurrences of one missing key |
| TranslationWork.GroupsApart | focus-chromium/devutils/i18n_translate.py:154-158 | Different groups are of different keys |
| TranslationWork.GroupsPartition | focus-chromium/devutils/i18n_translate.py:154-187 | The groups partition the untranslated indices |
| TranslationWork.GroupByKey | focus-chromium/devutils/i18n_translate.py:155-158 | The dictionary lists, for each key, its indices in order |
| TranslationWork.NearBy | focus-chromium/devutils/i18n_translate.py:147-152 | The context indices are exactly those within the window |
| TranslationWork.CloseExactly | focus-chromium/devutils/i18n_translate.py:147-152 | Close means at most the window apart, on either side |
| TranslationWork.Consider | focus-chromium/devutils/i18n_translate.py:163-187 | One index: a known string near a missing one is quoted with its translation, the first of a missing key is asked and opens its group, anything else adds nothing |
| TranslationWork.NeighboursExactly | focus-chromium/devutils/i18n_translate.py:164-174 | The neighbours in a request are exactly the known strings near a missing one, each with its translation |
| TranslationWork.BuildPayload | focus-chromium/devutils/i18n_translate.py:136-189 | The whole request: every known string within the window with its translation and every missing key once, in the order of the source; the groups are those of the missing keys in the order in which the request asks for them |
| TranslationWork.Translations.FindUntranslated | focus-chromium/devutils/i18n_translate.py:121-130 | The indices whose key has no translation |
| TranslationWork.Translations.StoreGroup | focus-chromium/devutils/i18n_translate.py:278-289 | One answer is stored under its group's key |
| TranslationWork.Translations.Save | focus-chromium/devutils/i18n_translate.py:271-289 | Fails exactly on a wrong name; otherwise every answered group is stored |
| TranslationWork.StillMissing | focus-chromium/devutils/i18n_translate.py:121-289 | After saving, what is missing is exactly what no answer was given for |
| TranslationWork.NothingMissing | focus-chromium/devutils/i18n_translate.py:121-289 | One answer per group leaves nothing untranslated |

## Left out

- ArgsWriter.Writer.Execute: the `retained_candidate` that a committed error carries out of the `finally` block is reported by the code without a lookup, so nothing is claimed of it.
- ArgsWriter.Writer.RequireSafeChain: the walk over parent directories and their creation are one opaque call; only the final name is modelled.
- RecoveryPublisher.Recovery.Publish: disciplined only while no rival acts between lookup and removal; the code leaves that window open. With rivals, what an error exit leaves under the name is not stated.
- EvidencePublisher.Publisher.SnapshotFinal: the logical alias is a second lookup of the same name; the times of an identity are left out, and the link count stands for the change time that a link or an unlink moves.
- EvidencePublisher.Publisher.UnlinkExactTemp: the same identities without their times.
- RuntimeMonitor.Monitor.Wait: the probes' answers are given; parsing the output of the memory and swap commands is not modelled.
- OwnedRun.Completion.CompleteOwnedRun: the wording of the runner's own errors is a parameter; the stage of a signal does not carry the signal's name.
- ExitStatus.AcceptedExactly: the JSON shape, key order and type checks of the validator hold by typing here.
- ProcessSpine.ValidateSpine: ends with the ancestry check; executables, working directories and command lines compare strings afterwards.
- PatchAcceptance.AcceptedExactly: of patches whose hunks are out of order, or start at zero behind other hunks, only the in-place meaning is stated.
- PatchReversal.ReverseRestoresExactly: asks for ordered, offset-consistent hunks with positive starts, as a unified diff against the file has them.
- DiffScanners.ScannersAgree: starts from a strictly accepted file; of a file that the strict scanner refuses nothing is claimed. The regular expression of a hunk header and the safe form of a path are parameters of both scanners.
- DomainSubstitution.SourceTree.Revert: which originals are already back when one is missing from the cache is not stated, because the set is walked in an unspecified order.
- SeriesMerge.MergeThenUnmerge: each series names different patches; of series that name one twice only what cannot come back is stated (OnlyUnpaddedApart). Of copying and moving the patch files only the error for an empty list is modelled.
- LinkResolution.ExtractedResolveInside: of targets that go up behind a step down through another link nothing is claimed beyond the lexical reading.
- TranslationIds.ReplaceTree: XML text, and digits outside ASCII.
- ArchiveTree.Destination.Extract: failing system calls in the middle of an extraction, permissions, and decoding the archive.
- TranslationWork.BuildPayload: gendered forms, and the repair and parsing of the response text.
- Reading through symbolic links when an index names one, and files that no encoding decodes: the engine is total on bytes.
- The derivation of a recovered record from its evidence: the publisher is given finished bytes.
- Asynchronous interrupts between two bytecode instructions; they arrive at system calls only.
- Line separators other than the newline, and text encodings.
- Hash tables of pinned inputs, inventories and profile flags: each is one comparison with a constant.
- Downloads, cloning, packaging, argument parsing, logging and the calls of a language model.
- Icon drawing, image checks and the overlay sources.
