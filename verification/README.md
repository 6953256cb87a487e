# Orchestrator kernels, modelled and proved

The orchestrator queues coding tasks, repairs them, merges the branches they leave behind and gates the
approvals they need. Most of its code is input and output around a database and git. Between those calls sit
small kernels with hard promises, and this project models them in Dafny, one module a kernel. Each module keeps
the form of its Python source: an object whose methods update its fields is a class, a scanner is a loop with
invariants, and an expression is a function. A method is proved against a specification function or a ghost
history, and the lemmas prove what that specification promises over all inputs, runs or interleavings.

| module | kernel | main result |
|---|---|---|
| Remediation | the life of a task under automatic repair | exactly which requeues of which loop make no progress; without one, requeues are bounded by a budget over every run, and by one more for each reset of the attempts by other code; with one, they are not |
| PromptRepair | the prompt under repair | any number of repairs keeps the specification, under an exact condition |
| Vickrey | the auction for compute slots | truth is dominant for one bid each, winners are optimal; exactly when withholding a second bid pays |
| JsRename | the JavaScript identifier rename | the reverse rename restores the text, under an exact condition |
| SqlSplit | splitting a migration | exactly which lists splitting gives back from their join, and when its result is a normal form |
| ShapeGate, MergeResolver | merging branches | no commit that a ref led to is lost; how far a dry run rewinds HEAD; what an accepted tree may have dropped |
| ApprovalBatcher | digests of approval cards | conservation of cards over every interleaving; exactly when a timer is orphaned |
| ApprovalAdmission | the rolling cap | the pruned gate decides as one with full history; the cap holds in every interval |
| BranchFamilies | closing redundant branches | closing every duplicate and subsumed branch loses no blob; in which shapes, and no others, a distinct branch has none of its own |
| TestPrioritizer | the z-score test | exactly which history lengths can ever be flagged |
| AbSplit, MetricStore | A/B tests | exactly which variants are reachable, and how many users each gets; eviction drops only the oldest |
| AccountPool | rotating accounts | the flag file is exact without being rewritten, and how late an answer is when a write of it fails; picks stay fair |
| TextReplace, AstMerger | semantic merge of blocks | the exact text for every order of the edits, and exactly when it shows them all |
| DiffParser | reading a unified diff | parsing inverts printing, under an exact condition |
| AlertEngine | alert rules | announcements alternate and account for every firing rule |

`Text` holds the Python string operations and `Sorting` a stable sort; both are shared.

Where the code does not keep what its comments or documentation say, the code is modelled as it is. A lemma shows
the input, and a theorem over all inputs gives the condition; both are named here:

- A task held for a person skips both hard caps and can be requeued without end; so can one with an operator slug,
  with a provider out of credit, or that has never run, by every loop: `Remediation.StallRepeatsForever`. Exactly
  which requeues make progress: `Remediation.RequeueLowersIff`.
- The shelf marker is overwritten by the next note, so it does not bound the trips to the shelf:
  `Remediation.ShelfMarkIsForgotten`. Whatever the settings, they are bounded by `c` exactly when at most `c`
  attempts are left: `Remediation.ShelfTripsIff`.
- A sweep that selects too few columns is corrected from the stored row; if that cannot be read a repair writes its
  counters back as if the task were fresh. Exactly when: `Remediation.UnreadableRowLosesCountsIff`.
- A specification that ends one newline short of the separator is eroded: `PromptRepair.TailIsTakenForSeparator`,
  `PromptRepair.TwoRepairsErode`. When one repair keeps it: `PromptRepair.RepairKeepsSpecIff`.
- With two bids an agent can gain by withholding one; exactly when: `Vickrey.WithholdingPaysIff`.
- Erasing a comment can bring two dollar signs together, and the statements then split differently:
  `SqlSplit.ErasedCommentBreaksStability`. They split the same exactly when each reads as one statement by itself
  and all but the last end outside quotes:
  `SqlSplit.SplitIsStableIff`; that is so in any text in which no dollar sign comes to open a quote by what is
  erased behind it: `SqlSplit.SplitIsStable`.
- A dry run over a branch that is already merged drops mainline's last commit: `MergeResolver.DryRunExample`.
  When one does: `MergeResolver.Repo.ResolveBranch`; how many commits a run over the repository drops, and when
  none: `MergeResolver.Repo.ResolveRepo`.
- A timer that fired before it could be cancelled flushes a later batch early and orphans the current timer:
  `ApprovalBatcher.StaleTimerFlushesEarly`. Exactly which callbacks take cards that are not their own, and which
  orphan a timer: `ApprovalBatcher.CallbackTakesOthersIff`; over runs: `ApprovalBatcher.OneTimerRunsIff`.
- Two different cards of one kind can have one fingerprint, so one is refused as a repeat of the other:
  `ApprovalAdmission.FingerprintsCollide`. Exactly when a card's fingerprint is its own:
  `ApprovalAdmission.FingerprintTellsIff`.
- A distinct branch need not carry a blob that no sibling has: `BranchFamilies.TwinsAreBothDistinct`,
  `BranchFamilies.EmptyIsDistinct`, `BranchFamilies.JointlyCoveredIsDistinct`. There is no other such
  shape: `BranchFamilies.DistinctOwnsNothingIff`.
- Some rollouts starve variants; exactly which are shown at all, and how often: `AbSplit.VariantIsReachableIff`,
  `AbSplit.SplitCounts`.
- A test or variant with a colon in its name is not found again, and no other is lost so:
  `MetricStore.FoundAgainIff`.
- A deletion by theirs never reaches the text: `AstMerger.DeletionReachesNoText`. The blocks shown are the merged
  ones exactly when there is none: `AstMerger.MixIsMergedIff`.
- An edit can be lost or not depending on the order of a set: `AstMerger.OrderDecidesWhatIsLost`. For one order and
  for all orders, exactly when: `AstMerger.LaidIff`, `AstMerger.EveryOrderIsLaidIff`.
- An edit by theirs of the text between blocks, an import for one, never reaches the text: for any edit of a gap
  before our last piece, `AstMerger.GapEditShowsIff`.
- A replacement can hit another block: `AstMerger.EditLeaksIntoAnotherBlock`. It changes its own block alone exactly
  when that occurs nowhere else or is replaced by itself: `TextReplace.BlockReplacedAloneIff`.
- When a write of the flag file fails, the answer whether all accounts are cooling down is not prompt:
  `AccountPool.LateAnswerExample`. What it is then, and that it is never more than 15 seconds old unless an old
  flag is still up: `AccountPool.Pool.ClaudeExhausted`.
- A removed line that begins with two dashes and a space is lost from its hunk:
  `DiffParser.RemovedCommentIsDropped`. A hunk is kept whole exactly when no line of it can be read as a header:
  `DiffParser.HunkSurvivesIff`; a whole patch: `DiffParser.PatchRoundTripsIff`.

## Model

| member | source | states |
|---|---|---|
| Remediation.NarrowSelectionMeetsCeilings | runner/agentic_repair.py:399-557 | No sweep slips past a ceiling by selecting too few columns: a repair that is handed out counts one attempt and one remediation on the stored counters, both under their ceilings; every other patch lowers nothing and parks or requeues. |
| Remediation.UnreadableRowLosesCountsIff | runner/agentic_repair.py:399-435 | If the stored row cannot be read either, a repair lowers a counter if and only if it is handed out or parked without that column and the stored count is above what it writes; exactly when it is handed out. |
| Remediation.TaskTable.RunPass | runner/auto_remediate.py:184-433 | A pass visits exactly the first blocked rows up to its limit. Of these a row is left as it was if and only if its note answers the task, or a person holds it and nothing that comes before the hold was recognised; exactly when it is split, shelved, parked or requeued is stated from the answers, with every counter; and each bucket of the summary counts exactly the rows that fall into it. |
| Remediation.RunRowIs | runner/auto_remediate.py:219-411 | One visit comes to exactly that, and is counted in exactly one bucket. |
| Remediation.LeftAloneStays | runner/auto_remediate.py:223-236 | However many passes come by, a row whose note answers the task is never requeued nor changed, nor is one that a person holds while nothing else is recognised. |
| Remediation.RepairIs | runner/agentic_repair.py:453-557 | A repair parks a row if and only if it is no question for a person, no lack of credit, and at a ceiling, or has run or left evidence and asks for nothing or was repaired blindly too often; it counts if and only if it neither parks nor is one of the plain requeues. |
| Remediation.ShelfRowIs | runner/auto_remediate.py:873-922 | When a shelved row stays, is split, parked or requeued, and with which counters and mark. |
| Remediation.CardRowIs | runner/auto_remediate.py:583-616 | Which rows a stale review card takes up, and what becomes of them. |
| Remediation.NoopRowIs | runner/auto_remediate.py:619-648 | When a task closed for want of changes is repaired, shelved or left. |
| Remediation.OffloadRowIs | runner/auto_remediate.py:550-580 | When a row stopped for capacity is repaired on another provider, with the repair counted as any other. |
| Remediation.ParkingRaisesThePair | runner/auto_remediate.py:868-922 | That pair alone is no measure over runs: one parking step raises it. |
| Remediation.StepSpendsPotential | runner/auto_remediate.py:550-616 | With remediations counted only while a row is not parked, every step of every loop but a reset of the attempts pays one unit for a requeue that makes progress, and never gains. |
| Remediation.RemediationTerminates | runner/auto_remediate.py:184-433 | Over every run in which no requeue stalls, in any order of the loops and with a world that may do all but lower counters or revive parked rows, requeues are at most the potential, which is at most (attempt ceiling + 1) * (hard cap + 1), and that much more for each reset. |
| Remediation.OrdinaryNeverStalls | runner/auto_remediate.py:246-317 | No requeue stalls of a task that has run, is not held, has no operator slug and has provider credit. |
| Remediation.OrdinaryTasksTerminate | runner/auto_remediate.py:184-433 | So such a task is never requeued more often than that, over every run. |
| Remediation.RequeueLowersIff | runner/auto_remediate.py:246-922 | A requeue by any loop, recoveries included, lowers the pair of attempts left and remediations left if and only if it is not a plain retry of a held task past its hard cap, and not one that counts no attempt: of an operator slug, without provider credit, or of a task never run that has no evidence. |
| Remediation.StallRepeatsForever | runner/auto_remediate.py:300-317 | A requeue that makes no progress, by any loop, can be repeated any number of times with no attempt counted: the hypothesis of termination is needed. |
| Remediation.ShelfRecoveriesBounded | runner/auto_remediate.py:853-922 | Trips from the shelf are bounded by the attempts left, over every run in which no requeue stalls and nothing is reset. |
| Remediation.ShelfMarkIsForgotten | runner/auto_remediate.py:918-922 | The marker in the note does not bound them: by the doing of the loops alone there are runs with as many trips as attempts, whatever the cap, for all settings with the hard cap below the repair ceiling. |
| Remediation.ShelfTripsIff | runner/auto_remediate.py:853-922 | With any settings and from any shelved row that neither marker nor ceiling keeps there, trips from the shelf are at most c on every run of an ordinary task if and only if at most c attempts are left. |
| PromptRepair.OriginalEnds | runner/agentic_repair.py:146-159 | An extracted specification is within the limit, starts with no white space, and ends in white space only if it was truncated. |
| PromptRepair.AfterOneRepair | runner/agentic_repair.py:172-200 | What is extracted after a repair, for every prompt: the stripped specification, something shorter when it ended in the tail of the separator, and something when there was none. |
| PromptRepair.RepairKeepsSpecIff | runner/agentic_repair.py:146-200 | One repair keeps the specification if and only if there is one, it does not end in white space, and it does not end in a newline pair and the marker. |
| PromptRepair.RepairsNeverErodeSpec | runner/agentic_repair.py:172-200 | After any number of repairs the prompt is the specification and the last directive alone; only a truncated one loses trailing white space. |
| PromptRepair.TwoRepairsErode | runner/agentic_repair.py:146-159 | Without that condition the specification is gone after one or two repairs. |
| PromptRepair.TailIsTakenForSeparator | runner/agentic_repair.py:146-159 | Such a specification is any one line with a newline pair and the marker behind it; the first repair cuts it down to the line. |
| Vickrey.UniformPrice | runner/adversarial_fleet.py:93-99 | All winners pay one price, at most their own bid and at least every losing bid; a slot stays empty only if every positive bid won, and then the price is 0. |
| Vickrey.WinnersAreOptimal | runner/adversarial_fleet.py:93-99 | No selection of at most as many bids as slots is worth more than the winners, ties included. |
| Vickrey.OutcomeOfBid | runner/adversarial_fleet.py:93-99 | Winning is worth the value less a threshold that the other bids alone determine; winners bid at least it, losers at most it. |
| Vickrey.PriceIgnoresOwnBid | runner/adversarial_fleet.py:93-99 | A winner's gain does not change with its own winning bid. |
| Vickrey.TruthIsDominant | runner/adversarial_fleet.py:93-99 | With one bid per agent, bidding the true value is a best reply to every profile of other bids and any number of slots. |
| Vickrey.WithholdingPaysIff | runner/adversarial_fleet.py:93-99 | With t1 and t2 the lowest of the top `slots` and `slots` - 1 bids of the others, an agent that wants two slots at v >= w gains by withholding its second bid if and only if v > t1 and t1 < w < 2 * t2 - t1, among any other bids and in any order of arrival. |
| Vickrey.RankedByContents | runner/adversarial_fleet.py:95-96 | The order in which bids arrive makes no difference. |
| JsRename.Js | runner/ast_rewrite_ir.py:19-38 | The scanner loop computes the token-wise renaming and the number of code words equal to the old name; what is code is settled by the next six. |
| JsRename.LiteralIsCopied | runner/ast_rewrite_ir.py:25-30 | Between two single, double or back quotes anything but such a quote outside a backslash pair is copied as it is and not counted, and the rest is renamed by itself. |
| JsRename.OpenLiteralIsCopied | runner/ast_rewrite_ir.py:25-30 | One that is not closed is copied to the end of the text. |
| JsRename.LineCommentIsCopied | runner/ast_rewrite_ir.py:24-26 | A line comment is copied with its line feed, or to the end. |
| JsRename.BlockCommentIsCopied | runner/ast_rewrite_ir.py:24-27 | A block comment is copied up to its first end mark, or to the end. |
| JsRename.WordIsRenamed | runner/ast_rewrite_ir.py:31-36 | A whole word of code is renamed and counted if and only if it is the old name. |
| JsRename.OtherIsCopied | runner/ast_rewrite_ir.py:37-37 | Any other character of code is copied. |
| JsRename.RenderLex | runner/ast_rewrite_ir.py:19-38 | The tokens of a text put together are the text. |
| JsRename.Relex | runner/ast_rewrite_ir.py:19-38 | Scanning the renamed text finds the same tokens with the words renamed: strings and comments byte for byte the same, nothing split or glued. |
| JsRename.CountRenamed | runner/ast_rewrite_ir.py:49-52 | A fresh new name occurs afterwards as often as the old one did. |
| JsRename.RenameBackRestoresIff | runner/ast_rewrite_ir.py:19-38 | Renaming and renaming back gives the text back if and only if the names are equal, or the new one was no word of it and is an identifier if anything was renamed. |
| JsRename.RenameChanges | runner/ast_rewrite_ir.py:19-38 | The text changes if and only if the old name is a word of it. |
| JsRename.CompileFile | runner/ast_rewrite_ir.py:49-52 | The operations apply in turn and stop at the first whose occurrences differ from the expected number. |
| JsRename.UndoRestoresFile | runner/ast_rewrite_ir.py:39-54 | An accepted series of fresh renames is undone by the reverse series, whose occurrence checks pass too. |
| SqlSplit.SplitLoop | runner/apply_sql_migrations.py:34-78 | The loop computes the split; what that is, the next six say without it. |
| SqlSplit.SplitIs | runner/apply_sql_migrations.py:34-78 | A text written of plain characters, literals, dollar quotes, comments and semicolons splits into the trimmed texts between the semicolons that stand by themselves, with comments left out and everything quoted as it is. |
| SqlSplit.EveryTextIsWritten | runner/apply_sql_migrations.py:34-78 | Every text is written so. |
| SqlSplit.FirstStatement | runner/apply_sql_migrations.py:67-71 | Behind any items up to such a semicolon the rest splits by itself. |
| SqlSplit.LiteralIsOneStatement | runner/apply_sql_migrations.py:62-66 | A quoted literal in front of a semicolon is one statement, whatever semicolons, dashes or dollar signs it holds. |
| SqlSplit.TaggedIsOneStatement | runner/apply_sql_migrations.py:39-61 | So is a dollar quote, if its tag does not come to stand earlier, not even together with the closing one. |
| SqlSplit.CommentIsLeftOut | runner/apply_sql_migrations.py:50-54 | A comment is nothing, whatever it holds. |
| SqlSplit.FlatReadsAlone | runner/apply_sql_migrations.py:34-78 | A text without a counting semicolon or comment reads as itself, whatever follows. |
| SqlSplit.SplitFirst | runner/apply_sql_migrations.py:34-78 | A self-closed text in front of a semicolon is the first statement, whatever follows. |
| SqlSplit.SplitInvertsJoin | runner/apply_sql_migrations.py:34-78 | Splitting the semicolon-join of trimmed, non-empty, self-closed, comment-free statements returns the list. |
| SqlSplit.JoinSplitsBackIff | runner/apply_sql_migrations.py:34-78 | For every list of trimmed, non-empty texts, splitting its semicolon-join returns it if and only if each text reads as one statement and all but the last end outside quotes. |
| SqlSplit.SplitIsStableIff | runner/apply_sql_migrations.py:34-78 | For every text, joining its statements and splitting again returns them if and only if they are such a list. |
| SqlSplit.EraseReads | runner/apply_sql_migrations.py:50-55 | If no lone dollar sign comes to open a quote by what is erased behind it, the text without its counting comments says the same. |
| SqlSplit.SplitIsStable | runner/apply_sql_migrations.py:34-78 | Then the result of splitting is a normal form, with comments and with an open quote. |
| SqlSplit.TagsStayWithout | runner/apply_sql_migrations.py:50-62 | That holds of every text in which no counting comment stands directly behind a lone dollar sign and letters, digits or underscores. |
| SqlSplit.ErasedCommentBreaksStability | runner/apply_sql_migrations.py:34-78 | With a comment it need not be. |
| ShapeGate.AcceptedIff | runner/auto_conflict_resolver.py:750-871 | A result is accepted if and only if there is a merge base, every mainline path it drops was in that base and deleted by the branch, and neither size check objects. |
| ShapeGate.VerdictIs | runner/auto_conflict_resolver.py:788-871 | Which verdict comes first, with exactly the paths it names. |
| ShapeGate.TooSmallIff | runner/auto_conflict_resolver.py:842-842 | A tree is too small if and only if it was not small before and lost more than the ratio of its files. |
| ShapeGate.NeverSeenIsUnattributed | runner/auto_conflict_resolver.py:795-832 | Every deletion of a path the branch has never seen is also one the branch did not make. |
| ShapeGate.HonestMergeIsAttributed | runner/auto_conflict_resolver.py:788-832 | An exact three-way merge, with any content at conflicting paths, trips neither deletion check, and drops exactly the paths the branch deleted and mainline left alone. |
| MergeResolver.Repo.VerifyMerge | runner/auto_conflict_resolver.py:475-497 | A merge stays if and only if all gates are clean; otherwise HEAD is what it was and the refusal is recorded. |
| MergeResolver.Repo.RejectMerge | runner/auto_conflict_resolver.py:874-909 | HEAD is set back, an unfinished merge is dropped, and the refusal is recorded for this pair of tips. |
| MergeResolver.Repo.CommitAndVerify | runner/auto_conflict_resolver.py:1070-1091 | A resolution is kept if and only if it could be committed and all gates are clean; then HEAD holds both tips and the branch goes if git lets it; otherwise HEAD and the branches are as they were and a refusal is recorded. |
| MergeResolver.Repo.ResolveConflicts | runner/auto_conflict_resolver.py:985-1091 | Which of ten ends a merge in conflict comes to, from what was found: it is committed only if no file was deleted on one side, no conflict is for a person, there are not too many, each was resolved and no marker is left. |
| MergeResolver.Repo.ResolveBranch | runner/auto_conflict_resolver.py:912-1091 | The outcome of one attempt from the refs and the answers; the branch goes only when HEAD holds its tip and all gates were clean; every other exit leaves HEAD and all branches; a commit is added only with a sound tree; a dry run keeps HEAD except when there was nothing to merge. |
| MergeResolver.ResolvedIff | runner/auto_conflict_resolver.py:1013-1091 | A resolution is kept if and only if it is no dry run, the branch was not refused nor stale, is there and not yet in HEAD, git could not merge it, one to the most allowed conflicts were found, none for a person, every strategy succeeded, no marker is left, it was committed and all gates are clean; a dry run announces one if and only if the conditions up to the strategies hold. |
| MergeResolver.JudgedOnce | runner/auto_conflict_resolver.py:912-1091 | The conditions tell the thirteen outcomes apart. |
| MergeResolver.JudgedTotal | runner/auto_conflict_resolver.py:912-1091 | Every attempt comes to one of them. |
| MergeResolver.GatesCleanIff | runner/auto_conflict_resolver.py:475-497 | The gates are clean if and only if no content gate objects, every mainline path dropped was in the merge base and deleted by the branch, and the merge shrinks neither tree nor lines too much. |
| MergeResolver.Repo.KeepMerge | runner/auto_conflict_resolver.py:954-970 | A merge that git made stays if and only if all gates are clean, with the branch gone or, in a dry run, the merge undone. |
| MergeResolver.Repo.ResolveEach | runner/auto_conflict_resolver.py:1043-1091 | A resolution is committed only with every strategy successful and no marker left. |
| MergeResolver.Repo.Attempt | runner/auto_conflict_resolver.py:912-1091 | One attempt is progress, touches no other branch, and moves HEAD only to a merge that every gate passed. |
| MergeResolver.Repo.Rehearse | runner/auto_conflict_resolver.py:954-1012 | A dry attempt keeps all branches, and moves HEAD to its first parent if and only if the branch is already contained, not stale, and clean. |
| MergeResolver.Repo.MergePasses | runner/auto_conflict_resolver.py:1156-1180 | Each pass visits every agents' branch that is still there once; another follows if and only if something was merged, up to ten; every merge is counted. |
| MergeResolver.Repo.RehearsePasses | runner/auto_conflict_resolver.py:1156-1180 | So do the passes of a dry run, which keep all branches and count the first parents that HEAD loses. |
| MergeResolver.Repo.ResolveRepo | runner/auto_conflict_resolver.py:1115-1182 | Real run: whatever the order of branches and the answers, every commit that a ref led to is still led to, only agents' branches go, every new commit is git's own merge or a resolution without a person's conflict or a marker, HEAD holds only new ones that passed every gate, and when it stops by itself every branch left would end the same way again; a dirty checkout changes nothing. Dry run: all branches stay, HEAD loses at most one first parent for each agents' branch in each pass, and none if and only if no visit made would find its branch contained and clean at the start. Either way the passes visit what they should and stop when they should. |
| MergeResolver.ProgressKeepsWork | runner/auto_conflict_resolver.py:1013-1091 | When HEAD only moves forward and branches disappear only into HEAD, no commit that a ref led to is lost. |
| MergeResolver.ProgressTransitive | runner/auto_conflict_resolver.py:1115-1182 | Progress composes over attempts. |
| MergeResolver.ReachesTransitive | runner/auto_conflict_resolver.py:912-1091 | Ancestry is transitive in the commit graph. |
| MergeResolver.DryRunExample | runner/auto_conflict_resolver.py:954-1012 | A dry run over a branch that mainline contains sets HEAD back one commit. |
| ApprovalBatcher.StepConserves | runner/approval_push.py:67-202 | Each step keeps the account: accepted cards are those of the detached batches followed by the pending ones, and every batch is sent, failed or unsent. |
| ApprovalBatcher.StepKeepsTimers | runner/approval_push.py:119-145 | Each step keeps a timer behind every pending card if timers can be started. |
| ApprovalBatcher.InterleavingsConserve | runner/approval_push.py:67-202 | Both hold over every interleaving of append, expiry, callback, flush and send. |
| ApprovalBatcher.CallbackDetaches | runner/approval_push.py:134-145 | Once any timer callback has had the lock, every card accepted before the run is in a batch. |
| ApprovalBatcher.CardIsInOnePlace | runner/approval_push.py:67-202 | A card is pending or in exactly one detached batch, never both. |
| ApprovalBatcher.StepOrphansIff | runner/approval_push.py:119-145 | While the current timer is the only one that runs, a step changes that if and only if it is a callback that finds cards pending whose timer still runs. |
| ApprovalBatcher.OneTimerRunsIff | runner/approval_push.py:119-145 | Over every interleaving at most one timer runs, always the current one, if and only if no callback finds that. |
| ApprovalBatcher.TimerIsOwner | runner/approval_push.py:119-132 | Over every interleaving the batcher's timer is the one started when the pending cards began to collect. |
| ApprovalBatcher.CallbackTakesOthersIff | runner/approval_push.py:134-145 | After every run a callback takes all pending cards; they are not its own if and only if the current timer is another one or none, and it orphans a timer if and only if moreover that one has not fired. |
| ApprovalBatcher.StaleTimerFlushesEarly | runner/approval_push.py:119-145 | Such a run: a stale timer flushes cards that are not its own and two timers run at once. |
| ApprovalBatcher.Batcher.AppendItems | runner/approval_push.py:67-117 | Appending is that step: it accepts the cards, starts one timer, and detaches a full batch in order. |
| ApprovalBatcher.Batcher.OnTimer | runner/approval_push.py:134-145 | The callback is that step. |
| ApprovalBatcher.Batcher.FlushPending | runner/approval_push.py:156-172 | A flush hands out exactly the pending cards and is that step. |
| ApprovalBatcher.Batcher.SendBatch | runner/approval_push.py:174-202 | Sending settles one detached batch and touches no card. |
| ApprovalAdmission.CapHoldsInEveryInterval | runner/approval_admission.py:112-141 | No interval of 24 hours, wherever it starts, holds more than the cap of admissions of a gated kind. |
| ApprovalAdmission.NoRepeatWithinTtl | runner/approval_admission.py:112-141 | No fingerprint is admitted twice within its time to live. |
| ApprovalAdmission.DecideIff | runner/approval_admission.py:112-141 | A card is refused as a repeat if and only if its kind is gated and one with its fingerprint was admitted within the time to live, else for the cap if and only if that many of its kind were admitted in the last 24 hours. |
| ApprovalAdmission.InIntervalIs | runner/approval_admission.py:112-141 | The intervals of the cap count admissions at both of their ends. |
| ApprovalAdmission.FingerprintTellsIff | runner/approval_admission.py:76-88 | A fingerprint belongs to one card alone if and only if project and title have no bar, and the kind has none or is one. |
| ApprovalAdmission.FingerprintsCollide | runner/approval_admission.py:76-88 | Two different cards of one kind with one fingerprint. |
| ApprovalAdmission.PruneRemembers | runner/approval_admission.py:99-110 | Pruning keeps exactly what the full history still has in force. |
| ApprovalAdmission.AdmitTimes | runner/approval_admission.py:112-141 | Adding an admission's time keeps the remembered times exact. |
| ApprovalAdmission.AdmitCard | runner/approval_admission.py:112-141 | Adding its fingerprint keeps the remembered fingerprints exact. |
| ApprovalAdmission.ApprovalGate.Prune | runner/approval_admission.py:99-110 | Pruning in place keeps the gate's memory true to its history. |
| ApprovalAdmission.ApprovalGate.Admit | runner/approval_admission.py:112-141 | The pruned gate decides exactly as one that keeps the full history, which grows by the admission. |
| BranchFamilies.OrderShape | ops/stranded_branch_families.py:82-114 | Branches are visited each once, largest first. |
| BranchFamilies.FindContainer | ops/stranded_branch_families.py:82-114 | Finds the first larger branch, itself no duplicate, that holds every blob, or none if there is none. |
| BranchFamilies.DuplicateIff | ops/stranded_branch_families.py:82-97 | A branch is a duplicate if and only if its tip is known and a branch before it has the same. |
| BranchFamilies.Classify | ops/stranded_branch_families.py:82-114 | Every branch gets exactly the class its evidence supports, pointing to the first branch that is evidence. |
| BranchFamilies.SubsumedEndsInDistinct | ops/stranded_branch_families.py:82-114 | Every chain of subsumed branches ends in a distinct one that holds all the blobs and is larger. |
| BranchFamilies.ClosingIsSafe | ops/stranded_branch_families.py:82-139 | If equal tips have equal diffs, the distinct branches hold exactly the blobs that all branches hold. |
| BranchFamilies.OwnerIsDistinct | ops/stranded_branch_families.py:82-114 | A branch with a blob that no sibling has is always distinct, or a duplicate. |
| BranchFamilies.DistinctOwnsNothingIff | ops/stranded_branch_families.py:82-114 | A distinct branch has no blob of its own if and only if it changes nothing, or a sibling has the very same blobs, or two or more siblings, each with some of its blobs and without some, hold all of them between them. |
| BranchFamilies.DistinctDiffersIff | ops/stranded_branch_families.py:82-114 | Every single sibling lacks a blob of a distinct branch if and only if the branch changes anything and none of them has the same blobs. |
| BranchFamilies.TwinsAreAlike | ops/stranded_branch_families.py:82-114 | Branches with the same blobs and different tips share their class, and neither has a blob of its own. |
| BranchFamilies.EmptyIsDistinct | ops/stranded_branch_families.py:82-114 | A branch without changes that is no duplicate is distinct and has no blob. |
| BranchFamilies.JointlyCoveredIsDistinct | ops/stranded_branch_families.py:82-114 | A branch that no sibling exceeds is distinct also when two siblings hold all its blobs between them. |
| BranchFamilies.TwinsAreBothDistinct | ops/stranded_branch_families.py:82-114 | For one, two branches with one and the same blob. |
| BranchFamilies.TotalsAreSound | ops/stranded_branch_families.py:117-139 | Unique lines are at most the naive sum, with equality when no blob is shared, and generated lines at most the unique ones. |
| TestPrioritizer.CauchySchwarz | runner/adaptive_test_prioritizer.py:128-140 | The square of a sum of n numbers is at most n times the sum of their squares. |
| TestPrioritizer.LatestIsNearMean | runner/adaptive_test_prioritizer.py:128-140 | The squared distance of the latest of n durations from the mean is at most n - 1 times the variance. |
| TestPrioritizer.ZScoreSquared | runner/adaptive_test_prioritizer.py:128-140 | The z-score test is a comparison of squares. |
| TestPrioritizer.FlagNeedsHistory | runner/adaptive_test_prioritizer.py:128-140 | A flagged test has more than the squared threshold plus one runs. |
| TestPrioritizer.FiveRunsAreNeverFlagged | runner/adaptive_test_prioritizer.py:128-140 | At the default threshold five runs are never flagged. |
| TestPrioritizer.SomeHistoryIsFlaggedIff | runner/adaptive_test_prioritizer.py:128-140 | Some history of a length is flagged if and only if the length is at least 5 and exceeds the squared threshold by more than one. |
| TestPrioritizer.LastFailure | runner/adaptive_test_prioritizer.py:117-120 | The latest time of a failed run, if any failed. |
| TestPrioritizer.FailuresAre | runner/adaptive_test_prioritizer.py:110-112 | The failure rate counts the failed runs: 0 if and only if all passed, 1 if and only if all failed. |
| TestPrioritizer.RecencyIff | runner/adaptive_test_prioritizer.py:144-148 | The bonus is 3 if and only if a run failed less than a day ago, and at least 1 if and only if one did less than a week ago. |
| TestPrioritizer.LastOfIs | runner/adaptive_test_prioritizer.py:80-94 | The window is the end of the runs. |
| TestPrioritizer.Prioritizer.Add | runner/adaptive_test_prioritizer.py:80-94 | The history is the last window of the test's runs, and each file lists once every test that ever ran with it changed. |
| TestPrioritizer.Prioritizer.CountAtRisk | runner/adaptive_test_prioritizer.py:122-126 | Counts the changed files that any run on record covers. |
| TestPrioritizer.Prioritizer.ComputeProfile | runner/adaptive_test_prioritizer.py:101-157 | The profile is that of the last window of all runs, the empty one without runs; a flag bounds the window from below. |
| AbSplit.RaisingRolloutKeepsVariants | runner/ab_test_framework.py:67-114 | Raising the rollout never changes an assigned user's variant. |
| AbSplit.AssignedIff | runner/ab_test_framework.py:67-114 | A user is assigned a variant if and only if the test is well formed, the user has a name, the hash is within the rollout, and the variant is the hash's. |
| AbSplit.Bezout | runner/ab_test_framework.py:76-90 | The greatest common divisor divides both numbers and is a combination of them. |
| AbSplit.VariantIsReachableIff | runner/ab_test_framework.py:76-90 | A variant is shown to some hash if and only if its index modulo gcd(variants, 100) is below the rollout. |
| AbSplit.DivisorOfHundredStarves | runner/ab_test_framework.py:76-90 | When the number of variants divides 100 no variant with an index at or above the rollout is ever shown. |
| AbSplit.BelowRollout | runner/ab_test_framework.py:76-90 | Of the hundred hashes of a variant in a period, exactly the factor shared with 100 times the variant's share of the buckets are below the rollout. |
| AbSplit.SplitCounts | runner/ab_test_framework.py:76-90 | For every number of variants, any 100 times that many consecutive hashes show a variant to exactly that many users. |
| AbSplit.EqualSharesIff | runner/ab_test_framework.py:76-90 | Two variants are shown equally often if and only if the rollout does not tell their remainders by that factor apart. |
| AbSplit.SplitIsExact | runner/ab_test_framework.py:76-90 | With a number of variants prime to 100 that is exactly the rollout's number of users for each. |
| MetricStore.FoundAgainIff | runner/ab_test_framework.py:203-224 | A metric is found under its own names if and only if neither test nor variant has a colon in its name. |
| MetricStore.Store.Expire | runner/ab_test_framework.py:168-176 | Exactly the records past their time go, and no empty list stays. |
| MetricStore.Regroup | runner/ab_test_framework.py:186-199 | The survivors are filed again under their own keys, none lost or doubled, no empty list. |
| MetricStore.Store.Evict | runner/ab_test_framework.py:178-200 | When there are too many, a thousand less than the limit stay, or none, every dropped record is no newer than every kept one, and nothing else goes. |
| MetricStore.Store.TryGc | runner/ab_test_framework.py:158-200 | At most once a minute; then what is dropped and what is kept are together the unexpired records, with exactly as many kept. |
| MetricStore.Store.RecordMetric | runner/ab_test_framework.py:117-155 | Adds exactly one record or none; a collection, at most once a minute, leaves exactly the unexpired records, or, when they are too many, a thousand less than the limit, the newest. |
| MetricStore.UnexpiredCounts | runner/ab_test_framework.py:168-176 | Unexpired are exactly the records that are not older than allowed, each as often as it was recorded. |
| AccountPool.FlagStaysTrue | runner/account_pool.py:250-268 | The flag, written once, tells at every later time exactly whether all accounts are cooling down. |
| AccountPool.UsableIff | runner/account_pool.py:209-212 | An account is usable if and only if it is a subscription or the guard allows paid credits. |
| AccountPool.FirstBackoff | runner/account_pool.py:292-302 | The first hit gives the cooldown, or the cap if that is less. |
| AccountPool.BackoffDoublesToCap | runner/account_pool.py:292-320 | The cooldown doubles with each hit until it meets its cap. |
| AccountPool.BackoffMonotone | runner/account_pool.py:292-320 | It never shrinks with more hits and never exceeds the cap. |
| AccountPool.CurrentIsBest | runner/account_pool.py:205-240 | The pick is healthy if any account is, a subscription if any healthy one is, least used among its kind, and soonest free if none is healthy. |
| AccountPool.UseKeepsSpread | runner/account_pool.py:222-249 | Using the least used account never widens the spread of use counts beyond what it was, or 1. |
| AccountPool.UseIs | runner/account_pool.py:242-249 | One use is counted as one, for that account alone, and cooldowns stay. |
| AccountPool.PicksStayFair | runner/account_pool.py:222-249 | Nor does any series of picks while the same accounts stay healthy. |
| AccountPool.Pool.WriteFlag | runner/account_pool.py:255-268 | Once written, the flag is there if and only if no usable account is free, holds when the first one is, and from then on, without being written again, is up exactly while all are cooling down; a write that fails leaves the old flag or an unreadable file. |
| AccountPool.Pool.Change | runner/account_pool.py:255-268 | Whether or not the write succeeds, the flag is right at all later times about the moment it was last written at. |
| AccountPool.Pool.MarkExhausted | runner/account_pool.py:292-330 | Sets the cooldown of one account by its hits, writes the flag, and names the next account. |
| AccountPool.Pool.MarkOk | runner/account_pool.py:333-340 | Clears one account's cooldown and writes the flag. |
| AccountPool.Pool.Use | runner/account_pool.py:242-249 | Counts one use of one account and changes nothing that the flag depends on. |
| AccountPool.Pool.ClaudeExhausted | runner/account_pool.py:87-108 | If no write of the flag failed the fast path answers exactly whether all accounts are cooling down, although it may use a cached answer. Whatever failed: with the flag down the answer was right at a time less than 15 seconds ago, and with it up it is right about the moment it was written at. |
| AccountPool.LateAnswerExample | runner/account_pool.py:87-108 | After a write that failed the answer can be no while all accounts are cooling down. |
| AstMerger.ModifiedBlocks | runner/ast_merger.py:153-169 | Exactly the names whose block differs between the two versions, absence included. |
| AstMerger.MergeBlocks | runner/ast_merger.py:246-256 | In any order of the set, the map ends with their block where they modified it and ours elsewhere. |
| AstMerger.BlocksKeepBothEdits | runner/ast_merger.py:245-256 | With disjoint edits every block changed, added or deleted by a side is as that side has it, and every other as in the base. |
| AstMerger.SidesSwapIff | runner/ast_merger.py:245-256 | Swapping the sides changes nothing if and only if they agree on every block both modified. |
| AstMerger.DeletionReachesNoText | runner/ast_merger.py:266-278 | For disjoint edits a deletion by theirs leaves the text alone; the branch that would remove it is never taken. |
| AstMerger.ReplayText | runner/ast_merger.py:258-278 | The loop replays each modified name once, in the order the set is walked. |
| AstMerger.TryMerge | runner/ast_merger.py:221-284 | Which of the three outcomes, the exact overlapping names, the merged map, and the text as a replay in some order. |
| TextReplace.ReplaceOnce | runner/ast_merger.py:270-270 | Replacing a text that occurs once changes that place only. |
| TextReplace.ReplacedAloneIff | runner/ast_merger.py:270-270 | Where the scan comes by an occurrence, replacing changes that place alone if and only if the text is replaced by itself or no match begins before or behind it. |
| TextReplace.BlockReplacedAloneIff | runner/ast_merger.py:270-270 | Replacing a block of lines that its first line opens changes that block alone if and only if it occurs nowhere else or is replaced by itself. |
| AstMerger.ReplayIs | runner/ast_merger.py:258-278 | For every order the replayed text is exactly this: our pieces with the edits, what is left of our last piece, and the added blocks, each trimmed before the next. |
| AstMerger.LaidIff | runner/ast_merger.py:258-278 | For every order the text shows every edit if and only if our last block is not edited behind an addition, or was still found there, or changed only white space at its end. |
| AstMerger.EveryOrderIsLaidIff | runner/ast_merger.py:258-278 | Every order shows them all if and only if theirs adds no block, or does not edit our last one, or that one ends in one line feed or nothing behind what it says, or only the white space at its end changed. |
| AstMerger.MixIsMergedIff | runner/ast_merger.py:245-278 | The blocks shown are the merged map if and only if theirs deleted none, and agree with it on every name theirs did not delete. |
| AstMerger.NoEditIsLost | runner/ast_merger.py:241-284 | With disjoint edits and changed blocks that can be told apart, under that condition, in every order the text shows those blocks, added ones at the end; nothing is asked of line ends in general or of blocks they left alone. |
| AstMerger.GapEditShowsIff | runner/ast_merger.py:258-278 | In every such order an edit by theirs of a text between blocks shows if and only if it changes nothing there. |
| AstMerger.OrderDecidesWhatIsLost | runner/ast_merger.py:271-273 | With white space at the end of the last block, one order of two edits loses one of them and the other does not. |
| AstMerger.EditLeaksIntoAnotherBlock | runner/ast_merger.py:270-270 | A block whose text also ends a line of another block is replaced there too. |
| DiffParser.Normalize | runner/artifact_catalog.py:67-77 | The stripping loop computes the normalised path; which paths it keeps is stated by NormalIff. |
| DiffParser.NormalIff | runner/artifact_catalog.py:67-77 | A path is left as it is if and only if it is not empty, has no outer white space or quotes, no side prefix and no leading dot-slash or slash. |
| DiffParser.SourceIff | runner/artifact_catalog.py:80-88 | A path is a source if and only if it has three characters or more, no space, is no null device, directory, option or address, and ends in a source extension, in capitals or not. |
| DiffParser.HeadersAre | runner/artifact_catalog.py:108-126 | What each of the three headers does to the open hunk and file. |
| DiffParser.ParseUnifiedDiff | runner/artifact_catalog.py:91-138 | The parser loop, flush included, is the fold of its step over the lines, filtered to sources; what that gives back of a patch is stated on printed hunk lines by PatchRoundTripsIff. |
| DiffParser.HunkSurvivesIff | runner/artifact_catalog.py:108-137 | A hunk of printed context, added, removed, marker and empty lines comes back whole if and only if no added text begins with two plus signs, and no removed text with two dashes, a space and something visible. |
| DiffParser.OtherLineEndsHunk | runner/artifact_catalog.py:127-137 | Any line that is no header ends a hunk if and only if no line of a hunk is printed so. |
| DiffParser.EndsHunkIff | runner/artifact_catalog.py:133-136 | Those are the lines that begin with no space, sign or backslash and are not empty. |
| DiffParser.GitHeaderIff | runner/artifact_catalog.py:47-47 | A line opens a file if and only if it names two paths without white space, and nothing but white space follows; the second counts. |
| DiffParser.SidedIs | runner/artifact_catalog.py:48-49 | A marked line names the path behind the mark, without the side unless the side is all of it. |
| DiffParser.SidedIff | runner/artifact_catalog.py:48-49 | It names one if and only if something visible stands behind the mark. |
| DiffParser.RemovedCommentIsDropped | runner/artifact_catalog.py:123-126 | A removed line that begins with two dashes and a space is dropped from its hunk. |
| DiffParser.ParseReports | runner/artifact_catalog.py:91-138 | For changed, created and deleted files with log lines before and between hunks, the parser reports each hunk under its normalised path in order, sources only. |
| DiffParser.SplitInvertsUnlines | runner/artifact_catalog.py:108-108 | Splitting a text of lines that end in a line feed or a carriage return and line feed gives the lines back. |
| DiffParser.PatchRoundTripsIff | runner/artifact_catalog.py:91-138 | Printing a patch and parsing the text returns the same paths and hunks in order if and only if every file with a hunk is a source under a normalised path. |
| AlertEngine.RuleKeepsConsistent | runner/alert_rules_engine.py:257-307 | Evaluating one rule keeps what was announced in step with what is firing. |
| AlertEngine.StreamsAreDisciplined | runner/alert_rules_engine.py:257-319 | Over every run each rule's announcements alternate, starting with a firing, are open exactly while it fires unsuppressed, and announced plus suppressed less resolved is the number firing. |
| AlertEngine.FiredIff | runner/alert_rules_engine.py:257-295 | A firing is announced if and only if the rule was not firing, its condition holds, and no silence is in force. |
| AlertEngine.CompareIs | runner/alert_rules_engine.py:125-146 | Which numbers meet a threshold by which operator; a missing or unreadable value and an unknown operator never do. |
| AlertEngine.CrossingFires | runner/alert_rules_engine.py:242-307 | In reals, for one rule: above its threshold a quiet one fires, at or below it an announced one ends, and a metric that was not collected is skipped. |
| AlertEngine.SilenceIs | runner/alert_rules_engine.py:389-424 | A silence is in force for exactly its minutes, one of no time lifts it, and no other rule's silence changes. |
| AlertEngine.AskingIs | runner/alert_rules_engine.py:433-450 | Asking forgets a silence if and only if it is over, and changes no answer. |
| AlertEngine.EvaluationIs | runner/alert_rules_engine.py:242-319 | An evaluation is counted once and leaves what is silenced so. |
| AlertEngine.FirstAnnouncement | runner/alert_rules_engine.py:257-319 | Over every run, whatever is evaluated, silenced or lifted: the first thing announced of a rule that was quiet or started under silence is that it fires, never an end; after an announced start it is the end. |
| AlertEngine.SuppressedStaysQuiet | runner/alert_rules_engine.py:268-283 | A rule that started under silence announces nothing while it lasts, also after the silence is over. |
| AlertEngine.SuppressedEndsQuietly | runner/alert_rules_engine.py:297-305 | Nor does its end; its next start is announced unless silenced again. |
| AlertEngine.AlertRules.EvaluateRules | runner/alert_rules_engine.py:242-307 | The loop returns the events of exactly this evaluation and keeps the stream invariant. |
| AlertEngine.AlertRules.IsSilenced | runner/alert_rules_engine.py:433-450 | True exactly while a readable silence has not expired; an expired or unreadable one is dropped. |
| AlertEngine.AlertRules.SilenceRule | runner/alert_rules_engine.py:389-415 | Sets the expiry, or lifts the silence for a duration that is not positive, and tells whether it did. |
| AlertEngine.AlertRules.UnsilenceRule | runner/alert_rules_engine.py:418-424 | Lifts the silence and tells whether there was one. |

## Left out

- Remediation: the texts. Which regular expression matches which note, log or prompt is an arbitrary answer that may change at every visit; prompts, models and follow-up tasks a branch writes are not modelled, nor the depth guard of decomposition, the creation of rows from review cards, or negative caps from the environment.
- Remediation.RemediationTerminates: holds for runs in which no requeue stalls (StallRepeatsForever shows why), and in which other code lowers no counter but by resetting the attempts; the mark in the note that is to limit infrastructure recovery is not modelled, since the next repair overwrites the note.
- PromptRepair: the wording of the directive and the log it quotes, which are an arbitrary text.
- Vickrey: the other advisory controls of the fleet, and floating-point rounding.
- JsRename: the Python tokenizer path and the hash of the file before the rewrite; what counts as a letter is an arbitrary predicate that excludes quotes and line feeds.
- SqlSplit: running the statements.
- ShapeGate: rename detection.
- MergeResolver: the contents of index and worktree, failures to read a ref, the per-file strategies and the four content gates, which are arbitrary answers; the counters of skipped branches. The base is checked out, as the code assumes.
- ApprovalBatcher: what a digest says and where it is sent. The lock makes each step atomic.
- ApprovalAdmission: trimming and lower-casing of a card's fields, changed settings, and a clock that runs backwards.
- BranchFamilies: reading the branches and grouping them by name.
- TestPrioritizer.Prioritizer.ComputeProfile: durations and scores are real numbers, so rounding is not modelled; the root is an arbitrary exact root. The final ordering of the tests and a negative window are left out.
- AbSplit: the hash, which is an arbitrary natural number.
- MetricStore: the second clock reading between recording and collecting, the conversion of values, and the listing of metrics apart from how it reads a key.
- AccountPool: reloading the state and the account list, a change of the billing guard, an account list that cannot be read, and a clock that runs backwards. Flag and cache belong to one process.
- TextReplace, AstMerger: parsing a file into blocks, reading it from git, and unsupported file types. Two blocks of one name are one block, the other being text between blocks.
- AstMerger.GapEditShowsIff: of one edited gap in front of our last piece; LaidElsewhereIff has any other pieces there. Gaps that theirs adds or moves with a block are not modelled, since no text of theirs but its blocks is read.
- AstMerger.NoEditIsLost: needs that each changed block's first line occurs in no other text that comes together, that what stands before our last piece is whole lines before and after the edits, that no changed text is blank, and that our last block, if edited, does not end in a blank line, which the parser trims; LaidIff and BlockReplacedAloneIff say what is lost otherwise.
- DiffParser: log markers, binary strings and the walk over files. Paths with white space are not matched by the headers and have no printed form here.
- AlertEngine: collecting metrics, storing and sending alerts, the expiry shown on a live alert, and numbers that are not finite.
- Modules whose properties follow branch by branch: the agentic coders, the approval policy, risk assessment, routing and the assumption ledger; the Monte Carlo simulation and the random bandit.
