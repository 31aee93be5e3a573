# remem, modelled and proved in Dafny

remem is a local memory store for coding agents. Hooks hand it events, it keeps them in
SQLite, and a web console and a command line read and govern them. Most of the program
talks to the database, to git or to a language model. This project models the parts whose
correctness is a matter of logic, and proves what they promise:

- **Spill queue.** Processes that cannot reach the database append records to a shared
  file. Others claim the file by renaming it, deliver its lines, and finish or restore the
  claim; claims of dead processes are taken over. `SpillProtocol` is the whole protocol as
  a state machine over any number of processes that may die between any two file
  operations, `SpillQueue` the methods themselves, proved to take exactly those steps,
  `SpillConservation` the exact bookkeeping of that machine's runs without crashes,
  `SpillProgress` that a waiting queue can always be drained, and `SpillPaths` the file
  names everything rests on.
- **Commit evidence.** Shell command lines are lexed, recognised as one commit among
  harmless neighbours, and paired with their outputs (`ShellLexer`, `ShellGrammar`,
  `GitInvocation`, `CommitArguments`, `AddArguments`, `CommitWorkdir`, `CommitCandidate`,
  `CommitEvidence`). Each hand-written recogniser, the lexer included, is proved to accept
  exactly a grammar stated on its own.
- **Web mutations.** Canonical JSON is proved injective by a reader that undoes it
  (`Json`, `StringOrder`, `CanonicalJson`), and on that rests the ledger that applies a
  keyed mutation once and only once (`MutationLedger`).
- **Paging.** The page loop, its continuation rule and its cursors (`Paging`, `Cursors`).
- **Redaction.** The two-cursor scanner, the token and line redactors, the JSON walkers,
  the separate detector that must agree with them, and what a second pass does
  (`SensitiveKeys`, `InlineRedaction`, `Redaction`, `RedactionRules`, `RedactionTwice`).
- **Project aliases.** The registry, what its preview promises of its apply, and the planner
  that feeds it (`ProjectAlias`, `AliasRules`, `AliasListings`, `AliasInventory`).
- **Smaller machines.** The crash-atomic file write on a disk whose directories and files
  are synced one by one (`CrashDisk`, `AtomicFile`), the commit/session link table
  (`CommitLinks`, `LinkRules`), hook removal in a settings document (`HookIntegrity`,
  `HookRules`), worktree discovery (`ProjectRoot`) and version precedence (`Semver`).

A loop or an object that changes its fields in the source is a method or a class here; each
such method is proved equal to a function, and the results below are lemmas about these
functions. What a function answers is stated apart from its body, from the side of its
input or its effect, in the lemmas named `...Exactly` and those beside them.
`dafny verify dfyconfig.toml` checks everything.

What the program takes from outside is a parameter: digests (the ledger's told apart where
a result needs it, the cursors' with collisions allowed for), the directory listing, pid
liveness and time, the resolver that canonicalises paths, git, base64 and JSON reading, the
marker and device of a directory.

## What turned out not to hold

- **A preview is not always kept.** `preview_project_alias_plan` judges every entry against
  the registry as it is, apply against what earlier entries made of it.
  `PreviewMisjudgesChains` is a plan that previews well and is refused;
  `PreviewPredictsApply` gives the exact condition.
- **A plan that applied may be refused the second time, and may leave a chain.** Apply
  checks that a target is no alias, not that a new alias is no target.
  `AppliedPlanCanChain` is such a plan; `ReapplyInsertsNothing` and `ChainsExactly` give
  the exact conditions. Plans the planner makes leave no chain
  (`PlannerOutputIsAccepted`).
- **The listing a preview returns is not always apply's**, even where the counts are: it
  leaves out the aliases that earlier entries of the plan make for the same project.
  `PreviewForgetsSiblings` is such a plan; `PreviewReportsExactly` gives the exact
  condition for counts and listing together.
- **The inline pass, run twice, is not the pass run once**: an unquoted value ends at `]`, so the mark is
  not read whole and grows by a bracket (`BareValueIsRewritten`). `RedactsOnceExactly`
  gives the exact condition on the spans of the line.
- **A durable link need not be trusted.** Migration v067 gives session rows to links that
  were only observed, and nothing but a captured link of the same commit and row makes
  them trusted (`CarriedOverStaysUntrusted`). `TrustExactly` says when every durable link
  is trusted after a run, whatever the table before it.
- **Observing a commit twice may link it twice.** A new commit is linked under the trimmed
  session id, a known one under the id as given (`PaddedSessionLinksTwice`).
  `ObservingTwice` gives the exact condition.
- **A path may be a project in two workspaces.** Then it resolves no more unless it is an
  alias, and plans that lead to it are refused (`TwoWorkspacesUnsettle`).
  `ResolutionIsIdempotent` and `PlannerOutputIsAccepted` say exactly when that matters.
- **A successful write is not always durable.** It syncs the file and its directory, not
  the directories above that it made (`MadeDirectoryCanVanish`). `DurableExactly`: success
  is durable if and only if every directory on the way was there and safe before.

## Model

| member | source | states |
|---|---|---|
| SpillPaths.ClaimNameRoundTrip | src/spill_queue.rs:158-189 | recovery reads back from every claim name the pid and time that were put in, whatever the stem contains (with 247-271) |
| SpillPaths.NamesApart | src/spill_queue.rs:120-123 | no failed, dead-letter or active file is mistaken for a claim, and the four kinds never share a name |
| SpillPaths.FailedNameInjective | src/spill_queue.rs:172-189 | two claims never share a failed file |
| SpillPaths.NamesExactly | src/spill_queue.rs:120-123 | for every queue of a `.jsonl` file: the exact names of its dead-letter file, of a claim by pid, time and sequence, and of a claim's failed file (with 158-176) |
| SpillPaths.StaleExactly | src/spill_queue.rs:247-286 | recovery may take a claim if and only if the age asked for is zero, or its name reads from the right as a pid, a time and a sequence, no process of that pid runs, and the time is that age past |
| SpillProtocol.StepKeeps | src/spill_queue.rs:41-132 | every step of every process, crashes included, keeps the invariant: each record not yet handled is in a file nobody is about to remove |
| SpillProtocol.NoRecordIsLost | src/spill_queue.rs:204-245 | over every interleaving of any number of processes, dying anywhere, an appended record is delivered, dead-lettered, in the active file or in a claim |
| SpillProtocol.RunsExcludeAndInventNothing | src/spill_queue.rs:41-132 | over any run no file and no delivery holds a record nobody appended; that the queue lock has one holder is what the guards of the steps assume |
| SpillQueue.SoloFinishes | src/spill_queue.rs:208-215 | undisturbed, finishing a claim merges its failed lines into the active file and removes the claim and nothing else |
| SpillQueue.SoloRestores | src/spill_queue.rs:217-226 | undisturbed, restoring puts the claim back and drops its failed file, or puts the failed file back when the claim is gone |
| SpillQueue.SoloRecovers | src/spill_queue.rs:78-106 | an undisturbed recovery pass ends where its closed form says |
| SpillQueue.RecoveryPutsBackOrphans | src/spill_queue.rs:78-106 | from a listing, recovery meets no error and moves the records of exactly the stale claims to the end of the active file in order, removes those claims and their failed files, and leaves every other file alone |
| SpillQueue.RecoveryPutsBack | src/spill_queue.rs:78-106 | the same for any list of names, wherever the pass meets no claim that has gone |
| SpillQueue.DeadClaimsComeBack | src/spill_queue.rs:247-262 | for every pid, time, sequence and age: recovery from a listing puts the claim of that name back, its records together in the active file, if and only if its owner does not run and it is that old; otherwise it stays as it is; at age zero every claim comes back |
| SpillQueue.SpillClaim.AppendFileThenRemove | src/spill_queue.rs:125-132 | both steps, or none or the append alone where the process dies; an error and nothing changed exactly when the file has gone |
| SpillQueue.SpillClaim.Finish | src/spill_queue.rs:208-215 | takes exactly the protocol's steps up to where the process dies, and settles the claim exactly when it came through |
| SpillQueue.SpillClaim.Restore | src/spill_queue.rs:217-226 | the same for restoring |
| SpillQueue.SpillClaim.Drop | src/spill_queue.rs:233-245 | dropping restores an unsettled claim and does nothing to a settled one |
| SpillQueue.RestoreOrphanedClaims | src/spill_queue.rs:78-106 | takes exactly the protocol's recovery steps; returns the number of claims put back, or an error exactly when a stale claim of the listing has gone by its turn; after a pass without error exactly the claims whose owner is gone and whose time has come are back in the active file, and every other claim of the listing is as it was |
| SpillQueue.AppendBytes | src/spill_queue.rs:41-46 | appends to the active file and touches nothing else; empty contents write nothing |
| SpillQueue.ClaimActive | src/spill_queue.rs:48-76 | recovers first and stops where that ends in an error; otherwise renames the active file with all its records to a claim name; no claim means no active file |
| SpillConservation.LiveClaimsAreNotStale | src/spill_queue.rs:247-271 | in any state of a run without crashes no claim file is stale at a positive age, its owner being alive |
| SpillConservation.RecoveryPassesOver | src/spill_queue.rs:78-106 | so recovery beside running owners writes nothing, whatever else is under way |
| SpillConservation.StepBalances | src/spill_queue.rs:41-132 | every step of every process keeps the balance and the invariant behind it: claim files and failed files belong to exactly the work under way |
| SpillConservation.RunsBalance | src/spill_queue.rs:48-118 | over every interleaving of the protocol's own steps without a death, appended = active + owed by the processes under way + delivered + dead-lettered, as multisets |
| SpillConservation.QuiescentRunsConserve | src/spill_queue.rs:204-226 | from an empty queue, once no process holds a claim, nothing is missing, nothing is there twice, and no claim file is left |
| SpillProgress.WaitingRecordsCanBeReplayed | src/spill_queue.rs:48-76 | from any state in which a process is idle, the lock free and records wait, that process alone can take a claim, deliver exactly these records once each and finish, leaving every other file as it was (with 208-215) |
| ShellLexer.ParseShellCommand | src/git_evidence.rs:330-437 | the lexer with its cursor and buffers computes the parse that the grammar results are about |
| ShellGrammar.ReadsExactlyTheGrammar | src/git_evidence.rs:330-437 | a line parses with nothing unmodelled if and only if it is a command of the grammar: runs of bare, escaped, single- and double-quoted pieces, any blanks between and around them, the six separators; the parse is its words and separators |
| ShellGrammar.LexingUndoesQuoting | src/git_evidence.rs:330-437 | every command of the grammar parses back to exactly its segments and separators |
| ShellGrammar.AnyTokensRoundTrip | src/git_evidence.rs:330-437 | any non-empty segments of arbitrary strings, quoted and joined with `&&`, parse back to themselves |
| ShellGrammar.ParseShape | src/git_evidence.rs:423-437 | every successful parse has one segment more than separators, no empty segment, and only known separators |
| GitInvocation.ParseGitInvocation | src/git_evidence.rs:475-520 | the loop with index and directory reads what the grammar is about |
| GitInvocation.ReadsExactlyTheGrammar | src/git_evidence.rs:475-528 | a `git` line is read if and only if it spells `-C` and allowed identity options, a subcommand and arguments; the directory is the fold of the `-C`s |
| GitInvocation.JoinExactly | src/git_evidence.rs:706-718 | an absolute directory leads where it says, a relative one below the directory it starts from |
| GitInvocation.LastOptionLeads | src/git_evidence.rs:475-520 | the `-C` options are followed from first to last, each from where those before it lead; an identity setting leads nowhere |
| CommitArguments.ConsumeShortOptions | src/git_evidence.rs:627-654 | the scan over the letters of one bundled option finds what the grammar of bundles says |
| CommitArguments.CommitArgsAreSupported | src/git_evidence.rs:530-621 | the loop over commit arguments accepts what the grammar is about |
| CommitArguments.SupportsExactlyTheGrammar | src/git_evidence.rs:530-654 | commit arguments are supported if and only if they spell supported items, one of them giving the message, and an optional `--` tail |
| CommitArguments.QuietOnlyAdds | src/git_evidence.rs:530-621 | allowing `--quiet` refuses nothing that was supported |
| AddArguments.AddArgsAreSupported | src/git_evidence.rs:656-704 | the loop over add arguments accepts what the grammar is about |
| AddArguments.SupportsExactlyTheGrammar | src/git_evidence.rs:656-704 | add arguments are supported if and only if they spell supported items and a `--` tail that together select something |
| CommitWorkdir.FindCommitWorkdir | src/git_evidence.rs:295-321 | the loop over segments finds what the next two rows are about |
| CommitWorkdir.FoundExactlyForOneCommit | src/git_evidence.rs:295-321 | a directory is found if and only if the line parses with only `&&` and nothing unmodelled, exactly one segment is a supported commit, before it only `cd` and supported `add`, after it only `git status --short`; it is the fold of the `cd`s and then the commit's `-C`s |
| CommitWorkdir.LastCdLeads | src/git_evidence.rs:439-450 | the `cd`s before the commit are followed from first to last, each from where those before it lead, and nothing else moves |
| CommitWorkdir.QuietOnlyAdds | src/git_evidence.rs:291-321 | what is accepted with quiet refused is accepted with quiet allowed, with the same directory |
| CommitWorkdir.KindsApart | src/git_evidence.rs:439-473 | no commit segment is also a `cd` or an `add`, so the order of the tests cannot matter |
| CommitEvidence.CodexOutputSucceeded | src/git_evidence.rs:257-275 | the scan with its early returns answers what the next row is about |
| CommitEvidence.SucceedsExactly | src/git_evidence.rs:257-275 | an output counts as success if and only if exactly one exit line stands before the first final-output line and it says zero |
| CommitEvidence.AcceptedExactly | src/git_evidence.rs:195-241 | a shell call counts if and only if it is named one, has an id and arguments that parse, and its command line, from the directory its arguments name, is one supported commit among its allowed neighbours |
| CommitEvidence.EventsExactly | src/git_evidence.rs:94-138 | a line is a call exactly if it is a response item with an accepted function call, an output exactly if it is one with a call id, whose text is empty where it has none, and nothing otherwise |
| CommitCandidate.CandidateExactly | src/git_evidence.rs:277-289 | the candidate is the one SHA, of 7 to 64 hex digits and in lower case, that lines beginning with `[branch sha]` announce; no such line, or two that differ, give none |
| CommitEvidence.FromTranscript | src/git_evidence.rs:78-187 | an error exactly for a response line that is no JSON, otherwise the evidence of the fold over the calls and outputs read from the lines, which is what the row EvidenceIsExact says |
| CommitEvidence.PairingIsOneToOne | src/git_evidence.rs:131-137 | no call backs two outputs and no output has two calls |
| CommitEvidence.EvidenceIsExact | src/git_evidence.rs:90-186 | there is evidence for a SHA if and only if some output answers the latest accepted call of its id, has exactly one exit line, for zero, before its first final-output line, announces one commit, and git resolves that in the call's directory to the SHA; metadata and locator are those of the earliest such output |
| CanonicalJson.SortKeys | src/api/mutation.rs:128-150 | the keys are written in their one ascending order |
| CanonicalJson.Output.Push | src/api/mutation.rs:118-152 | one piece goes to the end of the buffer |
| CanonicalJson.WriteCanonicalJson | src/api/mutation.rs:118-152 | exactly the canonical text of the value is appended to the buffer |
| CanonicalJson.RoundTrip | src/api/mutation.rs:112-152 | an independent reader gets back the value and the rest, for every rest that can follow a value |
| CanonicalJson.CanonicalInjective | src/api/mutation.rs:112-152 | equal bytes mean values equal up to key order |
| MutationLedger.IdentityBindsKey | src/api/mutation.rs:67-92 | key hash and operation id each stand for the trimmed key alone, and no operation id is a key hash in disguise |
| MutationLedger.RequestHashBinds | src/api/mutation.rs:94-110 | equal request hashes if and only if kind, id, action and body are equal |
| MutationLedger.Web.InsertMutation | src/api/mutation.rs:195-217 | inserts exactly when neither unique column is taken; otherwise nothing changes |
| MutationLedger.Web.Execute | src/api/handlers/memory_governance.rs:165-330 | one transaction: look up, replay or refuse or decide, make the change, record it; a row that cannot go in takes the change back; a fresh reply adds exactly its operation to the effects and the row with the request's kind, id and action and the decision's response, audit id and time, any other reply changes nothing |
| MutationLedger.HandleExactly | src/api/handlers/memory_governance.rs:165-330 | which reply each request gets, told by its key, the row on record and the decision, and that only a fresh one changes anything: one operation and one row |
| MutationLedger.EffectsAreTheRecord | src/api/handlers/memory_governance.rs:240-330 | from an empty store, after any run of requests, each recorded row's operation was made exactly once and no other was |
| MutationLedger.RowsAreKept | src/api/mutation.rs:195-217 | no run of requests changes or drops a recorded row |
| MutationLedger.AppliedOnce | src/api/mutation.rs:154-193 | after a mutation was applied, whatever came in between, the same key replays its response for the same request and is refused for any other, and changes nothing |
| MutationLedger.InsertAfterMissSucceeds | src/api/mutation.rs:154-217 | in any store built by requests an insert after a miss never meets a unique column |
| InlineRedaction.FindKeyStart | src/adapter/redaction.rs:226-245 | walking back from a separator finds where its key starts |
| InlineRedaction.FindQuotedEnd | src/adapter/redaction.rs:275-287 | the quoted value ends at the first closing quote no backslash escapes |
| InlineRedaction.RedactAssignments | src/adapter/redaction.rs:173-202 | the two-cursor loop ends, its cursors stay ordered, and it returns the line with its spans replaced |
| InlineRedaction.SpansOrdered | src/adapter/redaction.rs:173-202 | the spans are strictly increasing, disjoint and inside the line |
| InlineRedaction.SpansAreExact | src/adapter/redaction.rs:173-273 | every span is the value of a sensitive key, and every `=` or `:` lies in a span, owns one, or has no sensitive key |
| InlineRedaction.SpliceKeepsTheRest | src/adapter/redaction.rs:173-202 | every character outside the spans stays, in order |
| InlineRedaction.SpanBecomesMark | src/adapter/redaction.rs:173-202 | every span has become the mark, in its place |
| InlineRedaction.SpliceLength | src/adapter/redaction.rs:173-202 | and nothing else is added |
| InlineRedaction.ContainsSensitiveAssignment | src/adapter/redaction.rs:204-218 | the detector's own loop answers what the next row is about |
| InlineRedaction.DetectorAgrees | src/adapter/redaction.rs:173-218 | the detector, which never skips a value, reports a match if and only if the redactor has a span |
| RedactionRules.NormalizedExactly | src/adapter/redaction.rs:338-343 | a key is read in lower case, with underscores for dashes, without what stands around its first and last letter, digit or underscore |
| RedactionRules.SensitiveExactly | src/adapter/redaction.rs:226-245 | a separator owns a value to blank if and only if a word that names a secret or a login stands in front, with only quotes and spaces between |
| RedactionRules.SpanExactly | src/adapter/redaction.rs:247-324 | the span is the value: behind spaces a quoted text up to the first quote with an even number of backslashes in front, a header's value up to a quote or line end, or one bare word, two after `bearer` |
| RedactionTwice.RedactsOnceExactly | src/adapter/redaction.rs:173-324 | redacting the redacted line changes nothing if and only if each span of the line is a quoted value, or a header's, or has a key that the value in front swallowed |
| RedactionTwice.BareValueIsRewritten | src/adapter/redaction.rs:305-324 | `token=a` and what two passes make of it |
| Redaction.RedactTokens | src/adapter/redaction.rs:136-155 | the loop with its two flags redacts the words as the recursive reading does, with or without sensitive options; the next six rows say what that leaves |
| RedactionRules.BehindExactly | src/adapter/redaction.rs:136-155 | a word behind `bearer`, or behind an option that takes a login where options count, becomes exactly the mark; every other word is redacted on its own |
| RedactionRules.UserinfoGoes | src/adapter/redaction.rs:420-438 | a URL loses user and password in front of its host: for every scheme, user part and rest nothing but the mark is left between `://` and `@` |
| RedactionRules.UserinfoExactly | src/adapter/redaction.rs:420-438 | that happens to a word if and only if it has this form |
| RedactionRules.TokenExactly | src/adapter/redaction.rs:404-461 | any other word becomes exactly the mark if, between its first and last word character, a known start stands at a word boundary with enough behind it, or there are 32 bytes with a letter and a digit; and stays as it is if not |
| RedactionRules.KnownSecretGoes | src/adapter/redaction.rs:440-468 | in particular every known start with a long enough tail becomes exactly the mark |
| RedactionRules.MadeSecretGoes | src/adapter/redaction.rs:404-418 | and so does every word of 32 or more word characters with a letter and a digit |
| RedactionRules.LineExactly | src/adapter/redaction.rs:125-134 | a line that is one assignment to the name of a secret keeps nothing behind its separator; any other is its words redacted, one space apart |
| RedactionRules.SecretAssignmentGoes | src/adapter/redaction.rs:111-134 | through all passes a text that is one such assignment becomes its key, the equals sign and the mark |
| RedactionRules.RedactedInPlace | src/adapter/redaction.rs:35-60 | along any path of a tree without the name of a secret the redacted tree holds what the tree holds there, redacted |
| RedactionRules.SecretFieldsGo | src/adapter/redaction.rs:35-45 | under a field that names a secret there is the mark and nothing below it |
| Redaction.TokensSensitive | src/adapter/redaction.rs:157-171 | the detector's loop over words answers for the same reading |
| Redaction.CleanValue | src/adapter/redaction.rs:35-60 | in a tree without a match only the spacing inside strings changes |
| Redaction.SensitiveValueMarked | src/adapter/redaction.rs:62-73 | in a tree with a match the redacted tree carries the mark |
| Redaction.DetectorAndRedactorAgree | src/adapter/redaction.rs:35-73 | both at once: in a tree that had no mark, redaction leaves one if and only if the detector reports a match |
| ProjectAlias.Database.Apply | src/project_alias.rs:68-151 | all entries land, with their counts and each listed as it resolves by then, or registry and event log are untouched |
| ProjectAlias.Database.Preview | src/project_alias.rs:153-206 | the loop previews counts and listing as the plan functions say and changes nothing |
| AliasRules.HeaderExactly | src/project_alias.rs:208-220 | a plan is looked at if and only if it names its inventory by 64 hex digits, an actor and a reason that are not blank, and an entry |
| AliasRules.JudgedExactly | src/project_alias.rs:322-398 | an entry makes a new alias of a project if and only if its paths are absolute and differ, its proof is of its payload, binds its paths and proves its kind, its target is that one project and no alias, and its path is no alias; it changes nothing if and only if its path leads there already |
| AliasRules.PreviewRefusesExactly | src/project_alias.rs:153-206 | a preview fails if and only if the header does or some entry may lead nowhere or leads elsewhere already |
| AliasRules.PlanIsLogged | src/project_alias.rs:84-150 | a plan that applies logs one event for each alias it makes, which the alias points at and which tells of its entry and the request, and changes no other alias row |
| AliasRules.ResolvesExactly | src/project_alias.rs:222-263 | an active alias of a project resolves to it; any other path to itself, as its one project or none, and not if two have it |
| AliasRules.ListsAliases | src/project_alias.rs:265-287 | listed and searched are exactly the active aliases of the project, and the path resolved to |
| ProjectAlias.PreviewPredictsApply | src/project_alias.rs:68-206 | a refused preview means a refused apply; after an accepted one apply gives the same counts if and only if no entry touches a path an earlier one makes an alias |
| ProjectAlias.PreviewMisjudgesChains | src/project_alias.rs:153-206 | whatever the digest of proofs, a plan whose preview apply does not keep |
| AliasListings.ListingFollows | src/project_alias.rs:68-146 | resolving the entries as they land never fails: there is a listing exactly where the entries apply |
| AliasListings.PreviewReportsExactly | src/project_alias.rs:68-206 | project ids being unique, after an accepted preview apply returns the same counts and listing if and only if no entry touches a path an earlier one makes an alias, and none leads to the project of an earlier new one |
| AliasListings.PreviewForgetsSiblings | src/project_alias.rs:184-197 | whatever the digest, a plan whose listing preview gets wrong though the counts agree |
| ProjectAlias.AfterApply | src/project_alias.rs:84-150 | a successful plan changes no project and no earlier alias, lands every entry, and makes no alias it does not name |
| ProjectAlias.ReapplyInsertsNothing | src/project_alias.rs:68-151 | applying it again inserts and logs nothing if and only if no target of the plan is one of its aliases; otherwise it is refused |
| ProjectAlias.AppliedPlanCanChain | src/project_alias.rs:160-175 | whatever the digest, a plan that applies, leaves a chain, and is refused the second time |
| ProjectAlias.ChainsExactly | src/project_alias.rs:84-101 | project ids being unique, a successful plan leaves a chain-free registry chain-free if and only if no new alias is a target |
| ProjectAlias.RowFound | src/project_alias.rs:376-387 | with unique rows, finding a project by path and its path by id undo each other |
| ProjectAlias.ResolutionIsIdempotent | src/project_alias.rs:222-287 | project ids being unique and without chains, a path resolves unless it is no alias and two workspaces have it; resolving twice is resolving once, with the same filter values, if and only if no two workspaces have the canonical path |
| ProjectAlias.TwoWorkspacesUnsettle | src/project_alias.rs:376-387 | a registry where a path resolves but its canonical path does not |
| AliasInventory.FindCandidates | examples/project_alias_inventory.rs:440-520 | the scans over live paths find the candidate targets, those a remote leads to, and the largest shared commit count |
| AliasInventory.ClassifyPaths | examples/project_alias_inventory.rs:394-568 | one row for each observed path, in order, classified as the reading by cases says, and so as the next row says |
| AliasInventory.RowsExplain | examples/project_alias_inventory.rs:394-568 | a missing path moved to a root if and only if evidence, by stored remote, shared commit or commit held by a repository of its name, leads there and nowhere else; is missing if and only if it leads nowhere, ambiguous if and only if to two roots; a path that is there is in place, moved, or ambiguous for a remote not stored; with the largest count vouched for, the target's remote, and the reason |
| AliasInventory.KindExactly | examples/project_alias_inventory.rs:672-692 | a moved path is proposed on commits if and only if it is missing and a commit leads somewhere, else on a remote if and only if its target's is stored |
| AliasInventory.MissingNeedsGit | examples/project_alias_inventory.rs:653-740 | with one remote to a root, a path that is not there is never proposed on the file system's word |
| AliasInventory.Summarize | examples/project_alias_inventory.rs:742-768 | each class is counted and the counts add up to the paths observed |
| AliasInventory.BuildAliasPlan | examples/project_alias_inventory.rs:642-740 | the loop makes the proposals, and the blocked paths with their rows and reasons, that the next rows are about |
| AliasInventory.ProposedExactly | examples/project_alias_inventory.rs:653-720 | proposed are exactly the owned paths that moved to a project |
| AliasInventory.BlockedExactly | examples/project_alias_inventory.rs:653-740 | blocked are exactly the owned paths that are missing or ambiguous, for their rows' reasons, and those that moved to no target or to no project |
| AliasInventory.RowsAddUp | examples/project_alias_inventory.rs:642-651 | rows of context evidence are counted apart, all others as owned |
| AliasInventory.PlanSettlesOwnedPaths | examples/project_alias_inventory.rs:642-740 | every owned path that moved, is missing or is ambiguous is proposed or blocked, exactly once, and no other path is |
| AliasInventory.MovedLeadsToRoot | examples/project_alias_inventory.rs:394-568 | a path classed as moved is absolute and leads to a root other than itself |
| AliasInventory.ProposalIsValid | src/project_alias.rs:322-374 | a proposal passes the applier's validation, its proof matching its kind, if and only if its target is a project in one workspace alone |
| AliasInventory.PlainPlanLeavesNoChains | src/project_alias.rs:84-101 | a plan that keeps targets and aliases apart leaves no chain |
| AliasInventory.PlannerOutputIsAccepted | examples/project_alias_inventory.rs:653-740 | the planner's whole output applies, inserting as many aliases as it proposes, if and only if no target is a project in two workspaces; afterwards every path that resolves does so for good, and it and its canonical path filter alike |
| CrashDisk.SyncKeepsAll | src/atomic_file.rs:146-152 | a crash after syncing one directory is a crash before it that kept all changes of that directory and whichever it kept of the others |
| AtomicFile.FollowedIsNoLink | src/atomic_file.rs:94-118 | the resolved path is never a symbolic link |
| AtomicFile.ResolveFinalPath | src/atomic_file.rs:94-118 | the loop follows at most 32 links and fails beyond |
| AtomicFile.FollowsExactly | src/atomic_file.rs:94-118 | the path found is the end of the chain of links, relative ones read from their own directory, and is found if and only if the chain has at most 32 paths |
| AtomicFile.MakeDirectories | src/atomic_file.rs:17-20 | makes exactly the missing directories on the way, none of them synced, and touches nothing else |
| AtomicFile.CreateTempFile | src/atomic_file.rs:30-58 | the temporary file is new: names in use are tried past, never opened, and after sixteen the write fails with nothing changed |
| AtomicFile.PathExplained | src/atomic_file.rs:60-82 | whichever of the pending changes a crash keeps, every path but the temporary one shows what some crash before the write would have shown, or a directory the write made, or, at the target, the new contents |
| AtomicFile.WriteViaTemp | src/atomic_file.rs:60-82 | whatever breaks or kills it, the target is untouched before the rename and is the synced new file after it |
| AtomicFile.WriteAtomic | src/atomic_file.rs:16-28 | from any disk, synced or not, and at every end, death included: every crash view is one of the starting disk but for the directories made, spare temporary names, and the target, whole, old or new; failure means old; success means new, and durable if and only if every directory on the way was there and safe before |
| AtomicFile.DurableExactly | src/atomic_file.rs:77-82 | the same condition for the rename and the one directory sync, both directions |
| AtomicFile.MadeDirectoryCanVanish | src/atomic_file.rs:17-20 | a success that a crash undoes: the target's directory was missing, was made, and goes with everything in it |
| AtomicFile.SettledSurvives | src/atomic_file.rs:60-82 | a path that nothing unsynced concerns shows after every crash what it shows now |
| CommitLinks.LinkTable.PromoteExactLegacyLink | src/git_trace.rs:472-515 | the delete and the update together never meet the unique index, and promote exactly the link whose roll-up id proves its session |
| CommitLinks.LinkTable.LinkSessionToCommitId | src/git_trace.rs:412-470 | promotes, then inserts or merges one row; both indexes hold |
| CommitLinks.LinkTable.LinkCaptured | src/git_trace.rs:210-249 | links only for the session that owns the row, as captured evidence; otherwise nothing changes |
| CommitLinks.LinkTable.LinkCommit | src/git_trace.rs:160-180 | links without a row under the trimmed session and source; blank ones are refused and change nothing |
| CommitLinks.LinkTable.LinkObserved | src/git_trace.rs:251-302 | metadata that matches links as trusted, a known or new commit as an observation |
| LinkRules.ObservedExactly | src/git_trace.rs:251-302 | which link an observation makes: `git_metadata` under the trimmed session where metadata matches, `observations` under the session as given for a known commit and under the trimmed one for a new one |
| LinkRules.CommittedExactly | src/git_trace.rs:160-180 | a commit named by hand is linked without a row under trimmed session and source, neither of them blank |
| LinkRules.CapturedExactly | src/git_trace.rs:210-249 | a captured commit is linked exactly to the row whose session and project are given |
| LinkRules.MetadataIsTrusted | src/git_trace.rs:251-302 | a commit that metadata vouches for has a trusted link afterwards; an observation alone raises none |
| LinkRules.UpsertedExactly | src/git_trace.rs:412-470 | rows met get session, source unless trusted, and memory session id if there is one, and keep commit, row and time; where none is met the link goes behind all others |
| LinkRules.PromotedExactly | src/git_trace.rs:472-515 | by the roll-up id of the row exactly the links that await it get it, or go where the commit has a link to it; by any other id nothing changes |
| CommitLinks.LinkingKeeps | src/git_trace.rs:412-515 | one link made keeps the invariant, leaves every link from before stood for, touches only its commit and session, and is on record |
| CommitLinks.RunsKeepLinks | src/git_trace.rs:210-302 | over any run one link per commit and session row and one per commit and session id without a row; every durable link its row's owner's; no trust, row or known memory session id ever lost, whether or not the links were trusted to begin with |
| CommitLinks.TrustExactly | src/git_trace.rs:412-470 | from any table, every durable link is trusted after a run if and only if the run links the commit and row of each durable link that was not |
| CommitLinks.CarriedOverStaysUntrusted | src/migrations/v067_capture_git_evidence.sql:40-58 | a link the migration gave a row stays untrusted through any run on other commits |
| CommitLinks.RelinkingChangesNothing | src/git_trace.rs:429-467 | on any table the same operation with the same commit row found or written, at any time, leaves the table as it is, time stamps included |
| CommitLinks.ObservingTwice | src/git_trace.rs:251-302 | observing the same SHA again, its commit row being there by now, changes nothing if and only if the row was there before, or the session id is trimmed, or a link under the untrimmed id says it all |
| CommitLinks.PaddedSessionLinksTwice | src/git_trace.rs:267-301 | a padded session id and a new commit, observed twice: two links |
| CommitLinks.NoneLeft | src/git_trace.rs:472-515 | after a roll-up link no link without a row is left for the same session and roll-up |
| Paging.PageIsCut | src/api/cursor.rs:109-130 | every page ends at a row, shows exactly what lies before it, is no longer than asked, and goes on right behind that row |
| Paging.PageExactly | src/api/read_resources.rs:186-260 | how far a page reads: to its last item, through ten rows for each item and at least 100 and at most 1000, or to the end; it fails exactly for a row on the way that cannot be projected |
| Paging.ContinuationCuts | src/api/cursor.rs:109-130 | the continuation rule is right for every scan, also one past the last returned row, and fails exactly where nothing says how the scan ended |
| Paging.ListPage | src/api/read_resources.rs:195-271 | the batch loop computes the page of the row-by-row reading, error rows included |
| Paging.NoIdTwice | src/api/read_resources.rs:195-279 | following cursors, whatever happens to the table meanwhile, ids fall strictly, so none comes twice, and each was shown when its page was read |
| Paging.StableRowComesOnce | src/api/read_resources.rs:195-279 | a row shown throughout comes exactly once |
| Paging.WalkEnds | src/api/read_resources.rs:195-279 | a walk has no more pages than ids below its cursor, and from the start at most one more than the top id |
| Paging.ReadsEverythingOnce | src/api/read_resources.rs:195-279 | a table that stays as it is comes whole, in order, each safe row once |
| Cursors.FilterTextBinds | src/api/cursor.rs:60-64 | the canonical texts that are digested are equal if and only if page size, project and status are |
| Cursors.FingerprintBinds | src/api/cursor.rs:60-64 | for any digest, filter fingerprints are equal if and only if the filters are or their two texts collide |
| Cursors.DigestsDiffer | src/api/cursor.rs:60-64 | for any two different filters one digest without that collision and one with it, both of 64 hex digits |
| Cursors.CursorBindsRequest | src/api/cursor.rs:66-107 | a cursor decodes to its id for its own kind and filters and is refused for all others, but for filters whose texts collide with its own |
| Cursors.DecodesExactly | src/api/cursor.rs:84-107 | accepted are exactly the texts that read as a payload of version 1 for the kind and fingerprint with a positive id |
| Cursors.FilterExactly | src/api/read_resources.rs:322-326 | a filter is what the parameter asks for without the white space around it, and none if that is nothing |
| Cursors.FiltersKeptApart | src/api/read_resources.rs:169-178 | two requests have the same filters if and only if they want the same size and ask for the same project and status |
| Cursors.JsonReadsBack | src/api/cursor.rs:66-107 | payloads written as JSON are read back, so the codec assumed of cursors exists |
| Cursors.PageSizeExactly | src/api/read_resources.rs:328-335 | a page size is read from exactly the texts of 64-bit numbers; 1 to 100 is kept, the rest is moved to the nearer end |
| Cursors.ListResource | src/api/read_resources.rs:164-279 | the request as a whole, refusals included |
| Cursors.AnswersExactly | src/api/read_resources.rs:164-279 | which answer each request gets: page size refused first, then the cursor; then the page cut behind the cursor, with a cursor of its own exactly if the page goes on |
| Cursors.NextRequestGoesOn | src/api/read_resources.rs:164-279 | the cursor of one answer makes the next start right behind its page, and is refused if and only if the kind changed, or the filters did without a collision |
| HookIntegrity.Settings.RemoveRememHooksForHost | src/hook_integrity.rs:259-313 | the document becomes the cleaned one and the number returned is the one counted below |
| HookRules.OwnedExactly | src/hook_integrity.rs:443-458 | a hook is the host's if and only if it runs what the host runs on the event and names it, by flag or else by environment, or names no host |
| HookRules.SpecsExactly | src/hook_integrity.rs:74-160 | the hooks expected of each host: event, command, host name, matcher and timeout |
| HookRules.HooksExactly | src/hook_integrity.rs:460-475 | the hooks of an event are those in the lists of its entries |
| HookIntegrity.RetainUnowned | src/hook_integrity.rs:279-296 | within one event, entries lose their owned hooks, and go when that empties them |
| HookIntegrity.RemovalKeepsTheRest | src/hook_integrity.rs:259-313 | per event and in order exactly the hooks not owned by the host stay, and everything beside the hooks is as before |
| HookRules.EntryExactly | src/hook_integrity.rs:279-296 | an entry goes if all its hooks were the host's, unless it had none; any other keeps the hooks that are not and everything else it holds |
| HookRules.EventsExactly | src/hook_integrity.rs:259-313 | an event goes when an empty list is left of it, also one that was empty before, and the hooks as a whole when no event stays |
| HookIntegrity.CountsWhatWent | src/hook_integrity.rs:288-311 | the number returned is the number of hooks gone |
| HookIntegrity.RemovalIsIdempotent | src/hook_integrity.rs:259-313 | removing again changes nothing, pruning included |
| HookIntegrity.NothingStaysRegistered | src/hook_integrity.rs:342-346 | after removal no hook of the host counts as registered |
| HookIntegrity.RemovedHostIsUnregistered | src/hook_integrity.rs:205-242 | so evaluation after removal lists every event of the host as missing |
| HookIntegrity.OtherHostStaysRegistered | src/hook_integrity.rs:410-458 | and the other host is as registered as it was |
| HookIntegrity.EvaluateHooks | src/hook_integrity.rs:205-242 | healthy if and only if each expected hook is there exactly once and nothing stale runs its command; registered and missing add up |
| HookRules.StaleHasReason | src/hook_integrity.rs:348-426 | a hook that runs the command is stale if and only if its executable, host, matcher or timeout drifted, so the fallback reason is never given |
| HookRules.CountsExactly | src/hook_integrity.rs:342-346 | the count of an event is the number of places with an expected hook |
| HookRules.MissingExactly | src/hook_integrity.rs:205-242 | missing are exactly the events with no expected hook |
| ProjectRoot.GitWorktreeRootFromMarkers | src/project_id.rs:137-162 | the walk up the ancestors finds what the next row is about |
| ProjectRoot.DiscoversNearest | src/project_id.rs:137-162 | a root is found if and only if it is the nearest ancestor with a marker, the marker is plain, and no device changes on the way; none if and only if there is no marker and one device |
| ProjectRoot.NestedShareRoot | src/project_id.rs:133-162 | another directory under the root finds it too if and only if no marker and no other device lies between |
| ProjectRoot.InnerRepositoryStaysApart | src/project_id.rs:144-160 | a directory below a marker never joins a repository above it |
| ProjectRoot.RootIsItsOwnRoot | src/project_id.rs:36-53 | where markers settle it the root is an ancestor and its own root, shared by every clear directory below |
| ProjectRoot.RootExactly | src/project_id.rs:36-53 | markers settle the root unless the environment or the markers call for the resolver; then it is the resolver's in canonical form, or the directory itself where it has none |
| ProjectRoot.GitConfigRequiresResolver | src/project_id.rs:270-313 | the pass with its current section says yes if and only if some line stops it under the last header before it |
| ProjectRoot.HeaderIsRead | src/project_id.rs:277-288 | a header names the section by the first word in its brackets |
| ProjectRoot.SettingIsRead | src/project_id.rs:289-297 | a setting is read from key and value with an equals sign or white space between, or both |
| ProjectRoot.RequiresExactly | src/project_id.rs:270-313 | yes if and only if some line is a header left open or of an include, or under the last header before it a worktree, a `bare` that is not off, or any extension |
| ProjectRoot.MoreLinesStillRequire | src/project_id.rs:270-313 | appending lines never turns that into a no |
| Semver.CompareSemver | scripts/ci/check_version_bump.py:78-93 | the loop with its early return compares as the recursive reading; unsupported versions are refused |
| Semver.CompareIsTotalPreorder | scripts/ci/check_version_bump.py:68-93 | reflexive, antisymmetric in sign, transitive, ties included |
| Semver.ComparesExactly | scripts/ci/check_version_bump.py:68-93 | the comparison is the precedence of section 11: core numbers in order, a pre-release below its release, identifiers by value or by characters, numbers below text, a prefix below the longer list |
| Semver.FirstDifferenceDecides | scripts/ci/check_version_bump.py:89-93 | section 11.4 of Semantic Versioning 2.0.0: the first differing identifier decides, else the longer list is higher |
| Semver.TieMeansSame | scripts/ci/check_version_bump.py:78-93 | versions tie if and only if core and identifiers agree, numbers read as numbers |
| Semver.BuildHasNoSay | scripts/ci/check_version_bump.py:15-18 | valid build metadata changes nothing |
| Semver.RenderRoundTrip | scripts/ci/check_version_bump.py:59-65 | every version the comparison is about has a text that parses back to it |
| Semver.ParsesExactly | scripts/ci/check_version_bump.py:15-18 | accepted are exactly the texts of three numbers without leading zeros, perhaps a pre-release, build metadata and a final line feed, and each is read as the version it spells |

## Left out

- SpillProtocol.NoRecordIsLost: appends are whole, so a torn line, and the rewriting of a claim's lines before delivery in src/observe/spill.rs:235-267, are not modelled.
- SpillConservation.RunsBalance: a claim is given back only before one of its lines was handled, and nobody dies; otherwise lines are delivered again, by design.
- SpillQueue.ClaimActive: the claim name's freshness is the caller's; a name in use would be overwritten, as by the rename.
- CanonicalJson.RoundTrip: text is code points, the final UTF-8 encoding is not modelled; numbers are kept as the text serde_json prints.
- CommitEvidence.FromTranscript: git and JSON parsing are parameters; evidence is a map by SHA, its listing in order and the log lines are left out.
- InlineRedaction.RedactAssignments: positions count code points, not bytes.
- AliasInventory.BuildAliasPlan: rows come in path order from a map, so the final sorts move nothing; reasons are names for the texts.
- ProjectAlias.Database.Apply: the listing is in plan order, the final sort by path being left out, as in Preview; time stamps and the fallback for databases without the registry are left out.
- AtomicFile.WriteAtomic: paths are absolute and plain, so `.` and `..` and links on the way to a directory are not walked; no directory was removed with that unsynced; permissions and the Windows branch have no effect here beyond failing.
- MutationLedger.Web.Execute: the decision on a change is an input, and the commit of the transaction does not fail.
- CommitLinks.RunsKeepLinks: a link operation is taken whole, and session rows keep their owner; finding, upgrading and checking commit rows (src/git_trace.rs:339-410) is an input.
- Paging.ListPage: one request sees one table; rows are already filtered and ids positive, as the tables' keys make them.
- HookIntegrity.EvaluateHooks: counts stale findings before equal texts are merged; the texts are left out.
- ProjectRoot.DiscoversNearest: whether a `.git` directory is a plain repository is an input, but for its configuration.
- Semver.RenderRoundTrip: core numbers are ASCII digits; the expression also lets other decimal digits through.
- The database layer, retrieval, context bundles, dream and extraction workers, LLM executors, HTTP routing and authentication: input and output around SQLite and the network.
- Real files, locks, clocks and processes: the file system is a map, a lock a step, liveness and time are inputs.
- Configuration, pricing tables, command-line definitions, benchmark and documentation scripts: constants, formatting or glue.
