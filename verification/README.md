# A model of git-paw's text editors, scanners and protocols

git-paw keeps its state in text files it shares with the user (`AGENTS.md`, git
hooks, `config.toml`, `.gitignore`, the HTML pages of its book), reads the
output of git and of agent terminals with hand-written scanners, drives git
through multi-step procedures, and follows a broker's log with a polling
dashboard that survives broker restarts. This project models that logic and
proves what it promises, for every input, every run and every reachable state.

`dafny verify dfyconfig.toml` checks everything.

## How it is organised

Text is `seq<char>`; `Text.dfy` defines the Rust text operations the editors
rest on (`find`, `lines`, `split_inclusive`, `trim`) with the laws about them.

| concern | modules |
|---|---|
| the session block of `AGENTS.md` | `SessionBlock`, `SessionRoundTrip`, `AssignmentSection`, `ManagedPath` |
| the orchestrator pointer, and both regions over whole runs | `OrchestratorPointer`, `ManagedDocument` |
| git hooks | `HookChain` |
| dashboard, history buffer, polling protocol | `BrokerLog`, `Dashboard`, `Polling` |
| configuration | `ConfigMigration`, `TomlReader`, `TomlRoot`, `TomlTables`, `SupervisorSection`, `GitIgnore`, `KeyTree` |
| git | `GitRepository`, `GitOutput` |
| scanners and printers | `AnsiStrip`, `BranchFiles`, `ShellWord`, `ProjectSlug`, `VersionBanner`, `MarkerRegex`, `HtmlMetadata`, `HtmlRerun`, `HtmlReading` |

Where the source loops over mutable text or indices, the model is a method with
the same loop, proved equal to a specification function; the properties are
lemmas about that function. Where the source updates fields (the history
buffer, the dashboard's model, the repository) the model is a class.

Parameters stand for what the code takes from outside: the bundled section and
hook bodies (with a predicate saying how they must look: start marker first,
end marker only on the last line), git's answers and failures, the broker's
answers, the clock.

## Where the code falls short of what is said of it

Each of these is proved, with the exact condition under which the code does
what its documentation says.

- `chain_hook` says an existing hook is never silently discarded. With a start
  marker whose end marker is gone, the second install replaces everything from
  that marker on (`HookChain.OrphanSecondInstall`, on a concrete hook
  `HookChain.OrphanHookLost`); the exact condition over any number of installs
  is `HookChain.ReinstallKeepsTextIff`, and `HookChain.OverlaidKeepsTextIff` for
  a hook with a complete block behind the unpaired marker.
- Injecting the orchestrator pointer is idempotent exactly on texts without an
  unpaired start marker (`OrchestratorPointer.InjectIdempotentIff`).
- Taking the session block out again gives the text back, and a freshly
  injected `AGENTS.md` counts as git-paw's own, exactly on texts without
  `\r\n` line ends where those matter (`SessionRoundTrip.RoundTripIff`,
  `SessionRoundTrip.ReinjectIff`, `ManagedPath.FreshInjectionManagedIff`).
- Replacing or removing a generated assignment section keeps the text around it
  and nothing else exactly when no embedded text holds the end marker; otherwise
  the lines behind the embedded marker stay
  (`AssignmentSection.SectionReplacedIff`, `AssignmentSection.SectionRemovedIff`).
- The dashboard promises to show the broker's log without losing entries.
  Publishers take a number before they append, so a log can be out of number
  order, and polling then never shows an entry behind a larger number
  (`BrokerLog.OutOfOrderHides`; a run of the whole system that does it is
  `Polling.LateAppendLost`). The exact conditions are `BrokerLog.PageShownIff`
  for one page and `Polling.LosslessIff` for every reachable state.
- The history tells messages apart by number and second only, so a restarted
  broker's message that shares both with one already held is dropped
  (`BrokerLog.SharedSecondHides`). A log is retained in full exactly when what
  is new of it comes in number order and none of it has such a look-alike
  (`BrokerLog.FreshLogRetainedIff` with room to spare,
  `BrokerLog.FullHistoryRetainedIff` also at the cap).
- `rebase_branch_onto_default_with` reports success without having rebased
  anything when the main checkout has a detached HEAD
  (`GitRepository.DetachedMissesBranch`, `GitRepository.DetachedExample`;
  exactly when: `GitRepository.SuccessMeansRebasedIff`). It aborts a rebase the
  user has under way in the main checkout
  (`GitRepository.UserRebaseKeptIff`), and it ignores a failing abort or
  checkout, which leaves HEADs moved (`GitRepository.RebaseGuarantee`).
- `uncommitted_files_with` reads a second, non-existent file out of a rename
  git reports in the worktree column only (`GitOutput.StatusReadsBackIff`), and
  panics when the cut falls inside a character of it (`GitOutput.PhantomPanics`).
- `find_log` answers with another branch's file when a listed file is named
  exactly like the queried branch (`BranchFiles.PlainQueryIff`,
  `BranchFiles.ClashingNames`; for a query holding `--`, which shares its file
  with the slash branch, `BranchFiles.AmbiguousQueryIff`), never finds the log of a branch called
  `orchestrator-escalations`, which the listing leaves out, and never finds a
  branch with a slash whose name does not survive the file-name encoding
  (`BranchFiles.SlashQuery`).
- The comment on `inject_metadata` guarantees byte-identical re-runs. They are
  byte-identical exactly when the page the block goes into holds no block and no
  start marker in front of its insertion point (`HtmlRerun.InjectTwiceIff`; a
  page on which they are not: `HtmlRerun.OrphanPageChanges`).
- The migration reads the config line by line. A row of a multi-line array that
  starts with `[` is taken for a header: the missing keys land inside that value
  exactly when the first line led by `[` is such a row
  (`TomlRoot.InsertedAtTopIff`; such a file: `TomlTables.InsideAnArray`), and
  lines inside a value are taken for root keys, or root keys missed, exactly as
  `TomlRoot.ScannedKeysIff` says.
- `has_section` finds only the bare spelling of a header. With
  `["supervisor"]`, a comment behind the header, an array table or a root key of
  that name, the migration adds a second table (`TomlTables.OneSupervisorIff`,
  `TomlTables.UnseenHeadersDoubled`).
- A missed root key is called fail-safe, but a template key the user wrote in
  quotes is added again, which TOML refuses (`TomlTables.AddedOnceIff`,
  `TomlTables.AddedOnceBareIff`, `TomlTables.QuotedKeyUnseen`).
- `inject_metadata` writes the payload through a substitution template, which
  expands backslash escapes: metadata reads back from the page when its
  backslashes are left alone (`HtmlReading.PayloadReadsBack`; left alone exactly
  when: `HtmlMetadata.ExpandKeepsIff`), and a JSON string with an escaped newline
  ends up with the newline itself (`HtmlReading.EscapedNewlineExpanded`).
- The alternation printed for an empty marker list is the pattern that matches
  the empty text, not the one that matches nothing (`MarkerRegex.AlternationDenotesIff`).
- `strip_ansi` is said to end an operating system command at BEL or at the
  string terminator ESC backslash. Inside a command it swallows the character
  behind an ESC unseen, so a command ends at its terminator exactly when its
  content ends in an even number of ESCs (`AnsiStrip.CommandEndsIff`; lost text:
  `AnsiStrip.UnendedCommand`). An ESC behind an ESC outside a command is printed
  (`AnsiStrip.EscVisibleIff`).

## Model

| member | source | states |
|---|---|---|
| SessionBlock.HasGitPawSection | src/agents.rs:44-47 | Answers yes exactly when some line opens a session block. |
| SessionBlock.ReplaceGitPawSection | src/agents.rs:53-95 | The line loop computes the block replacement on every text, unclosed blocks and open last lines included. |
| SessionBlock.InjectIntoContent | src/agents.rs:99-116 | An empty text becomes the section, an existing block is replaced, otherwise the section follows a blank line. |
| SessionBlock.RemoveGitPawSection | src/agents.rs:739-796 | The line loops compute the removal of the block with one neighbouring blank line, the final newline as it was. |
| SessionBlock.ReplaceKeepsSurroundings | src/agents.rs:53-95 | Replacing a well-formed block anywhere in a text keeps every character before and after it. |
| SessionBlock.RemoveKeepsSurroundings | src/agents.rs:739-796 | Removing a well-formed block keeps every character around it but one adjacent blank line, trailing before leading. |
| SessionBlock.ReplaceTakesTheRest | src/agents.rs:49-95 | Without an end marker, replacing takes everything from the start marker to the end of the text, keeps every character above it, and ends in a newline if the text did. |
| SessionBlock.RemoveTakesTheRest | src/agents.rs:739-796 | Without an end marker, removing leaves the text above the start marker alone, less one blank line right in front of it, the final newline as it was. |
| SessionRoundTrip.RemoveAfterInject | src/agents.rs:99-116 | On every block-free text, removing what was injected leaves exactly the text's lines written back with plain newlines. |
| SessionRoundTrip.RoundTripIff | src/agents.rs:739-796 | Remove undoes inject, up to one final newline, if and only if no line of the text ends in a carriage return. |
| SessionRoundTrip.ReinjectIff | src/agents.rs:99-116 | Injecting twice equals injecting the second section only, if and only if no line of the text ends in a carriage return. |
| AssignmentSection.GenerateWorktreeSection | src/agents.rs:173-226 | The assembled section is the start marker, the parts of the assignment in order, and the end-marker line. |
| AssignmentSection.ValuesUnderLabels | src/agents.rs:173-226 | Branch and CLI stand behind their own labels, and the spec, the owned files, the skill and the rules each under its own heading, whatever the other parts hold. |
| AssignmentSection.FilesInOrder | src/agents.rs:196-204 | The owned files are listed in order, each on a line of its own between backticks. |
| AssignmentSection.Opening | src/agents.rs:173-180 | The section opens with the full marker line and its title. |
| AssignmentSection.SectionWellFormedIff | src/agents.rs:173-226 | The section has the shape the block editors look for, one start line first and one end line last, if and only if no embedded text contains the end marker. |
| AssignmentSection.SectionReplacedIff | src/agents.rs:53-95 | In any document, replacing a generated section gives back the text around it and nothing else if and only if no embedded text contains the end marker. |
| AssignmentSection.SectionRemovedIff | src/agents.rs:739-796 | In any document, removing a generated section takes out exactly it and one blank line if and only if no embedded text contains the end marker. |
| ManagedPath.IsManaged | src/agents.rs:259-292 | A changed path is git-paw's own if and only if it is `.git-paw`, lies in `.git-paw/`, or is an `AGENTS.md` with committed text whose change is the block's alone; a name that only begins like the directory is not. |
| ManagedPath.BlocklessIsUsers | src/agents.rs:277-291 | A file without a start line is never git-paw's own, whatever its committed text. |
| ManagedPath.AcceptsExactlyBlockChanges | src/agents.rs:288-291 | With the block anywhere in the file, the comparison accepts exactly when the text around the block is the committed text up to trailing whitespace. |
| ManagedPath.FreshInjectionManagedIff | src/agents.rs:288-291 | A file whose only change is a fresh injection is accepted if and only if its committed text has no CRLF above its trailing whitespace. |
| OrchestratorPointer.InjectKeepsSection | src/agents.rs:857-879 | A text already carrying the section, at any place behind marker-free text, is returned byte for byte. |
| OrchestratorPointer.InjectAppends | src/agents.rs:857-879 | A text without start marker stays in front in full and gains the section after a blank line. |
| OrchestratorPointer.FreshPointer | src/agents.rs:857-879 | An empty file becomes the prose, less its final newlines, between the two marker lines. |
| OrchestratorPointer.OrphanSwallows | src/agents.rs:857-879 | After one injection behind an unpaired start marker, the next region found runs from that marker to the end of the file. |
| OrchestratorPointer.InjectIdempotentIff | src/agents.rs:857-879 | For every text at all: injecting twice equals injecting once if and only if no start marker lacks its end marker. |
| ManagedDocument.StepRefines | src/agents.rs:53-116 | Each text editor does to the file exactly what one step does to a document of user texts and regions. |
| ManagedDocument.RunRefines | src/agents.rs:53-116 | Every finite run of session-inject, session-remove and pointer-inject keeps the file the rendering of one of five layouts: at most one block, at most one pointer, disjoint. |
| ManagedDocument.StepKeepsOutside | src/agents.rs:739-796 | No operation loses, adds or reorders a non-blank line outside the regions. |
| ManagedDocument.RunKeepsUserLines | src/agents.rs:53-116 | Over every run, from any document with user text around the regions, the non-blank lines outside them stay exactly the user's, in order. |
| ManagedDocument.RunKeepsUserText | src/agents.rs:857-879 | Over every run from a marker-free text the file still begins with every byte of that text. |
| ManagedDocument.TeardownLeavesNoSession | src/agents.rs:739-796 | After any run, a final session-remove leaves no line that opens a session block. |
| HookChain.ChainHook | src/agents.rs:519-551 | The editor computes the chained hook for every existing text and body, shebangs and missing end markers included. |
| HookChain.Reinstall | src/agents.rs:519-551 | Installing over an installed block keeps the text before and behind it and leaves one newline more behind it. |
| HookChain.ChainedBehind | src/agents.rs:536-550 | A hook without the marker keeps its text, right-trimmed, with the body behind it less a `/bin/sh` line and with any other first line; an empty hook becomes the body as it is. |
| HookChain.ReplacedBetween | src/agents.rs:523-535 | From the first start marker through the next end marker the hook becomes the body less its `/bin/sh` line, and every other character stays. |
| HookChain.InstallsShape | src/agents.rs:519-551 | For every n, n installs on a marker-free hook leave the right-trimmed user text, one block, and n-1 further newlines. |
| HookChain.OrphanSecondInstall | src/agents.rs:527-549 | Behind an unpaired start marker the second install keeps only the text above that marker. |
| HookChain.ReinstallKeepsTextIff | src/agents.rs:519-551 | For every n, a hook without a complete block keeps its text over n installs if and only if it has no start marker, or n is one, or it has only a beginning of the block and its newlines from the marker on. |
| HookChain.OrphanInstalls | src/agents.rs:527-549 | From the second install on, a hook with an unpaired start marker is the text above it, one block, and n-1 newlines. |
| HookChain.BlockInstalls | src/agents.rs:527-549 | A hook with an end marker behind its first start marker: n installs replace that region and only it, whatever other start markers it holds. |
| HookChain.OverlaidKeepsTextIff | src/agents.rs:527-549 | With an unpaired start marker first and a complete block behind it, the text above that block survives n installs if and only if its part behind the unpaired marker begins what replaces it. |
| HookChain.OrphanHookLost | src/agents.rs:527-549 | A hook of a start marker and a user command: after two installs the command is gone. |
| BrokerLog.RingLog.Push | src/dashboard/broker_log.rs:227-230 | The newest message goes first and the oldest beyond the cap goes. |
| BrokerLog.RingLog.Ingest | src/dashboard/broker_log.rs:240-259 | In place, the loop skips what the cursor has passed, advances over what is held, and pushes the rest. |
| BrokerLog.RingLog.RewindCursor | src/dashboard/broker_log.rs:266-268 | The cursor goes to 0 and the history stays. |
| BrokerLog.IngestKeepsDistinct | src/dashboard/broker_log.rs:240-259 | Whatever is ingested, in whatever state, no message is held twice and the cap holds. |
| BrokerLog.IngestRecords | src/dashboard/broker_log.rs:240-259 | Whatever the order of a page, ingesting it does what ingesting only its records does: the entries numbered above the cursor and above all before them. |
| BrokerLog.PushedIff | src/dashboard/broker_log.rs:240-259 | With room, an entry past the cursor goes on top of any history if and only if no held entry has both its number and its second; if one has, the history stays as it is. |
| BrokerLog.DifferentAreKept | src/dashboard/broker_log.rs:240-259 | A new broker's rising log goes on top of the history in full when every held message differs from every new one in number or in second. |
| BrokerLog.SameNumberIff | src/dashboard/broker_log.rs:249-257 | After a restart a message of a held number is held beside it unless the seconds agree as well; then only the first is. |
| BrokerLog.RereadIsForward | src/dashboard/broker_log.rs:240-268 | Re-reading a rising log from its start into a capped buffer that already dropped part of it ends in the same buffer and cursor as reading only the new entries. |
| BrokerLog.ViewHolds | src/dashboard/broker_log.rs:227-230 | The newest entries of what was read, as many as the cap admits, are held unaltered. |
| BrokerLog.PageShownIff | src/dashboard/broker_log.rs:240-259 | With room and nothing of it held, a whole page goes on top of the history if and only if its numbers rise strictly from the cursor. |
| BrokerLog.OutOfOrderHides | src/dashboard/broker_log.rs:240-259 | A page with number 2 before number 1: the cursor passes 1 and it is not held. |
| BrokerLog.FreshLogRetainedIff | src/dashboard/broker_log.rs:240-259 | With room for everything, a new broker's log, in number order or not, is retained in full if and only if its messages not yet held come in rising number order above all before them and no held message shares number and second with a different one of it. |
| BrokerLog.FullHistoryRetainedIff | src/dashboard/broker_log.rs:240-259 | Also with a history at its cap, a log of new messages that fits the cap is retained in full if and only if its numbers rise strictly from the cursor and no look-alike of one of them is still held when that one is read. |
| BrokerLog.SharedSecondHides | src/dashboard/broker_log.rs:240-259 | A concrete restart within one second after which the new broker's first message is never shown. |
| Dashboard.Model.constructor | src/dashboard.rs:298-313 | A new dashboard has an empty history, cursor 0, and has seen neither uptime nor epoch. |
| Dashboard.Model.Update | src/dashboard.rs:378-434 | Each message changes exactly the fields it names: the two restart signals rewind the cursor, epoch 0 never does, only ingest adds history. |
| Dashboard.QuitIff | src/dashboard.rs:378-434 | After any messages the dashboard has quit if and only if the panel left it a `q`, and shows that there is no broker if and only if it was told so. |
| Dashboard.LastWord | src/dashboard.rs:378-434 | After any messages the unreachable indicator is on if and only if the last snapshot or failure was a failure; the uptime and the epoch kept are the last ones reported. |
| Dashboard.CursorKept | src/dashboard.rs:378-434 | Messages without a page leave the history alone, and without an uptime or a non-zero epoch the cursor too. |
| Dashboard.RewindsIff | src/dashboard.rs:395-431 | A message other than a page rewinds the cursor if and only if it reports an uptime below the last one or a non-zero epoch other than the last one. |
| Dashboard.Model.WakeUp | src/dashboard.rs:665-694 | One wake-up applies an answered poll with the page dropped after a rewind, and an unanswered one only sets the indicator, unless the session has no broker. |
| Polling.SinceIsNewer | src/broker/delivery.rs:549-560 | For every log, in order or not, the page asked past a number holds exactly the entries numbered above it. |
| Polling.SinceGrows | src/broker/delivery.rs:549-560 | When a log grows, a page only gains entries at its end. |
| Polling.StepKeeps | src/broker/delivery.rs:274-292 | The invariant tying the history to what was read of which broker survives every step: reserving a number, appending under it in any order, restarts at any point, both reads of a poll, its application, its failure. |
| Polling.LosslessIff | src/dashboard.rs:395-431 | In every reachable state, an entry of the broker named by the last epoch that the cursor has passed is held if and only if every entry appended before it has a smaller number and fewer entries than the cap have been shown behind it. |
| Polling.Lossless | src/dashboard.rs:395-431 | In every reachable state, when that broker appended in number order, an entry the cursor has passed is held if and only if fewer entries than the cap stand between it and the cursor, whatever gaps the numbers have. |
| Polling.LateAppendLost | src/broker/delivery.rs:274-292 | A reachable state in which an entry is passed by the cursor and not held: number 1 appended after a poll has read number 2. |
| Polling.CursorInsideLog | src/dashboard.rs:395-431 | In every reachable state the cursor is 0 or the number of an entry in the log of the broker named by the last epoch, and no larger than the last number handed out. |
| Polling.HeldOnce | src/dashboard.rs:684-690 | In every reachable state no message is held twice. |
| Polling.SettledPoll | src/dashboard.rs:403-431 | With the live epoch known, the cursor at the end and a rising uptime, a poll rewinds and changes nothing. |
| Polling.Converges | src/dashboard.rs:665-694 | From every reachable state, two whole polls after the last restart put the cursor at the largest number of the log, and hold of its entries exactly those appended in number order with fewer than the cap shown behind them, once each; every list of later polls leaves history and cursor alone. |
| Text.TrimmedAwayIff | src/init.rs:568-570 | Trimming takes away exactly the 25 White_Space code points of Unicode. |
| ConfigMigration.TopLevelKeyLines | src/init.rs:566-589 | The scan returns the assignments above the first table header, keys and trimmed lines in order. |
| ConfigMigration.TopLevelInsertOffset | src/init.rs:611-621 | The scan returns the length of the pieces above the first one that opens a table. |
| ConfigMigration.InsertionCut | src/init.rs:566-621 | The two scanners agree: the offset cuts every text into whole lines none of which is a table header to the key scan, and a rest whose first line is one. |
| ConfigMigration.MigrateExistingConfig | src/init.rs:488-555 | The edited content and the keys reported as added; sections are reported as added if and only if the file is blank or no line of it is the bare header; with a template that is not blank a change is reported exactly when the content is another one. |
| ConfigMigration.SecondReportsNothing | src/init.rs:537-543 | A second migration of any migrated file reports no key and no section added. |
| ConfigMigration.KeyIff | src/init.rs:575-587 | What stands before a line's first equals sign is taken for its key if and only if it is made of ASCII letters, digits, underscores and dashes. |
| ConfigMigration.BackfilledKeys | src/init.rs:508-536 | Inserting missing assignments puts them behind the root keys the scan finds and keeps every line kind, section headers included. |
| ConfigMigration.MigratedKeys | src/init.rs:488-555 | The root keys the scan finds in the result are those it found in the file followed by the template's missing ones (a blank file gets the template's), and it has a supervisor section. |
| ConfigMigration.MigrationIdempotent | src/init.rs:488-555 | A second migration of any file, even with another section text, changes nothing and finds no key missing. |
| ConfigMigration.MigrationAdditive | src/init.rs:488-555 | Every character of a non-blank file survives in order around two insertions, each empty when it has nothing to add. |
| TomlTables.MigratedHeaders | src/init.rs:488-555 | Every table header line of a non-blank file survives in order, and the section's follow exactly when the file had no bare supervisor header. |
| TomlReader.MarkKinds | src/init.rs:566-589 | The scanner's line kinds are those of the reader's lines, whatever value they stand in. |
| TomlRoot.CutAtRootEndIff | src/init.rs:611-621 | The insertion offset is the end of the root table as a TOML reader bounds it if and only if the first line led by a bracket starts outside every value. |
| TomlRoot.InsertedAtTopIff | src/init.rs:508-536 | The block of missing keys goes behind lines none of which is a header, and starts outside every string, array and comment if and only if the first line led by a bracket does. |
| TomlRoot.ScannedKeysIff | src/init.rs:566-589 | The scanned keys are the root table's bare-key lines, line for line, if and only if no line inside a value above the first bracket line passes for an assignment, and no root key stands below a bracket line inside a value. |
| TomlTables.BackfilledTops | src/init.rs:508-536 | When it lands outside every value, a TOML reader finds the block's lines, each at top level, between the top-level lines above and below, all of them kept. |
| TomlTables.OneSupervisorIff | src/init.rs:712-718 | To a TOML reader the keys land outside every value and exactly one header opens the supervisor table, nothing else defining its name, if and only if the first bracket line is no row of a value (or no key is missing), and the file had a bare header line and one such table, or nothing at all that defines the name: no header in any spelling, no array table, no root key. |
| TomlTables.SeededSupervisorIff | src/init.rs:488-506 | The same for a blank file, which the template replaces. |
| TomlTables.UnseenHeadersDoubled | src/init.rs:712-718 | The headers `["supervisor"]` and `[supervisor] # note` open the table, and the migrated file opens it twice. |
| TomlTables.InsideAnArray | src/init.rs:611-621 | An array over two lines, every value closed, whose row is the first line led by a bracket. |
| TomlTables.AddedOnceIff | src/init.rs:556-605 | Every key the migration adds is named once at the root of the result if and only if the key scan takes each template key the root already names. |
| TomlTables.AddedOnceBareIff | src/init.rs:556-605 | In a file whose values do not mislead the scans, that is so if and only if each template key the root names is spelled bare on some root line. |
| TomlTables.QuotedKeyUnseen | src/init.rs:566-589 | A quoted key names the same root key to a TOML reader and is no assignment to the key scan, whatever the key and the value. |
| SupervisorSection.SectionIsSupervisorText | src/init.rs:830-842 | Whatever was answered, the section is one the migration recognises afterwards. |
| SupervisorSection.SectionIsOneTable | src/init.rs:830-842 | Whatever was answered on one line, the section opens exactly one supervisor table and defines nothing else of that name. |
| SupervisorSection.SectionSays | src/init.rs:830-842 | The section says `enabled = true` exactly when that was answered and `enabled = false` otherwise, holds a test command exactly when it is on and one was given, and that command reads back as the trimmed answer if and only if it has no control character but tabs. |
| SupervisorSection.EscapedReadsBackIff | src/init.rs:830-842 | A reader of TOML basic strings gives the escaped value back and stops at its closing quote if and only if the value has no control character but tabs. |
| SupervisorSection.TestCommandReadsBackIff | src/init.rs:830-842 | The recorded test command reads back as the trimmed answer under the same condition. |
| GitIgnore.EnsureGitignoreEntry | src/init.rs:845-881 | Computes the completed file, and reports a rewrite exactly when an entry was missing. |
| GitIgnore.EnsuredEntries | src/init.rs:845-881 | Afterwards the entries are exactly those before and the managed ones, and the old text is a prefix of the new. |
| GitIgnore.EnsureIdempotent | src/init.rs:845-881 | A second run finds nothing missing and rewrites nothing. |
| GitRepository.Git.RebaseBranchOntoDefault | src/git.rs:326-375 | The procedure leaves the repository and the answer of the specification for every listing and rebase outcome. |
| GitRepository.Git.CreateWorktree | src/git.rs:822-934 | The procedure leaves the repository and the answer of the specification for every way its git commands can go. |
| GitRepository.RebaseGuarantee | src/git.rs:326-375 | With HEAD on a branch, whatever fails: no other branch moves, a failure moves none, a success makes the default tip an ancestor of the branch; and the worktrees end as they were if and only if no abort or checkout that was needed failed. |
| GitRepository.RebasesOntoOriginHead | src/git.rs:155-181 | With `origin/HEAD` at `refs/remotes/origin/` and a name, a finished rebase succeeds, puts the tip of the local branch of that name in the branch's history and moves no other branch, whatever `main` and `master` are. |
| GitRepository.RebasesOntoLocal | src/git.rs:183-203 | Without `origin/HEAD` the same holds with `main` if it exists, else `master`, else the branch of the main checkout. |
| GitRepository.NowhereToRebase | src/git.rs:173-180 | An `origin/HEAD` of another form fails and changes nothing; one that names no local branch fails and moves no branch. |
| GitRepository.DetachedMissesBranch | src/git.rs:334-350 | With a detached HEAD and the branch checked out nowhere, no branch moves whatever is reported. |
| GitRepository.DetachedExample | src/git.rs:334-350 | A repository with a detached main checkout on which success is reported and the branch lacks the default tip. |
| GitRepository.UserRebaseKeptIff | src/git.rs:351-363 | A rebase the user has under way in the main checkout survives if and only if there is no default branch, the branch is checked out in another worktree, or the abort fails. |
| GitRepository.SuccessMeansRebasedIff | src/git.rs:326-375 | A reported success always means the branch contains the default tip if and only if HEAD is on a branch, or the branch is found checked out, or it contained the tip before. |
| GitRepository.CreationGuarantee | src/git.rs:822-934 | A success hands out the asked path with a worktree on the branch, says created exactly when the branch is new, adds at most that worktree and moves no other branch; a failure adds no worktree; when the way back from the rebase fails, nothing is created. HEAD matters only when a rebase is asked for. |
| GitRepository.CreatedTips | src/git.rs:822-934 | After a success without a rebase every branch is where it was, a new branch starts at the main checkout's HEAD, and an existing branch created with a rebase has the default branch's tip in its history. |
| GitRepository.ChildPathOf | src/domain.rs:164-182 | A child worktree's directory is the branch name with a slash turned into a dash and every character but ASCII letters, digits, dots, underscores and dashes dropped. |
| GitRepository.CreateAgain | src/git.rs:849-885 | Creating again after a success gives the same path, no branch created, the same worktrees unless an abort fails, and without a rebase always succeeds and changes nothing. |
| GitRepository.SlugCollisionRefused | src/domain.rs:171-182 | A branch whose directory name is taken by another branch's worktree is refused, never handed that worktree. |
| GitOutput.UncommittedFiles | src/git.rs:1124-1145 | The record loop computes the paths for every output, byte lengths, short records and a missing origin field included, or that it panics inside a character. |
| GitOutput.BytesAreEncoded | src/git.rs:1134-1137 | A record is as long as its UTF-8 encoding. |
| GitOutput.CutIff | src/git.rs:1132-1142 | Cutting a record at a byte leaves the text whose UTF-8 encoding stands behind that byte, and panics if and only if the byte goes on a character. |
| GitOutput.StatusReadsBack | src/git.rs:1124-1145 | For every list of entries whose renames and copies show in the index column, the printed form reads back as the new paths in order, newlines in paths included. |
| GitOutput.StatusReadsBackIff | src/git.rs:1124-1145 | For given status columns the parser is right for all paths and origins if and only if no entry shows a rename or copy in the worktree column only. |
| GitOutput.PhantomPanics | src/git.rs:1132-1142 | A worktree-column rename from `abé`: the scan cuts the origin inside its last character and panics. |
| GitOutput.FindWorktreeForBranch | src/git.rs:291-304 | The line loop computes the scan with the path of the block it is in. |
| GitOutput.ListingReadsBack | src/git.rs:291-304 | On every printed listing, detached and bare blocks included, it returns the first worktree on the branch, or none when there is none; the path less one carriage return at its end. |
| AnsiStrip.StripAnsi | src/replay.rs:33-89 | The five-state loop computes the stripped text. |
| AnsiStrip.RunConcat | src/replay.rs:33-89 | Splitting any input anywhere and carrying the state over gives the same state and output. |
| AnsiStrip.SequenceEndsIff | src/replay.rs:33-89 | Behind ESC, `[` and any parameter and intermediate bytes, a character ends the control sequence, which is stripped whole, if and only if it is one of `@` to `~`. |
| AnsiStrip.SequenceStripped | src/replay.rs:33-89 | A control sequence up to its first character of `@` to `~` is stripped and what follows is read afresh. |
| AnsiStrip.CommandStripped | src/replay.rs:33-89 | A command without BEL and ESC in it is stripped up to BEL, or up to ESC backslash, and what follows is read afresh. |
| AnsiStrip.TwoCharacterStripped | src/replay.rs:33-89 | Behind any other ESC the next character is printed and the ESC is not. |
| AnsiStrip.PlainKept | src/replay.rs:33-89 | Text without an ESC is left as it stands. |
| AnsiStrip.StripPrinted | src/replay.rs:33-89 | For every stream of texts, control sequences and operating system commands, stripping the printed stream gives its visible texts in order. |
| AnsiStrip.EveryInputIsAStream | src/replay.rs:33-89 | Every input is the printing of such a stream, so the previous law describes the scanner on all inputs. |
| AnsiStrip.IdempotentIff | src/replay.rs:33-89 | Stripping twice equals stripping once if and only if no ESC came through the first time. |
| AnsiStrip.EscVisibleIff | src/replay.rs:51-54 | An ESC comes through if and only if the stream has an ESC behind an ESC outside any sequence. |
| AnsiStrip.CommandEndsIff | src/replay.rs:67-83 | For content that holds neither BEL nor ESC backslash, and for either terminator: the command ends there whatever follows if and only if the content ends in an even number of ESCs. |
| AnsiStrip.UnendedCommand | src/replay.rs:78-83 | A command with one ESC too many before its string terminator: the log text behind it is lost. |
| BranchFiles.RoundTripIff | src/logging.rs:20-39 | A branch comes back from its log file's name if and only if it contains neither `--` nor `-/`. |
| BranchFiles.LogFileNameOf | src/logging.rs:20-39 | Branch `a/b` is logged in `a--b.log`. |
| BranchFiles.StemRoundTrip | src/logging.rs:20-28 | Every slash-free file stem comes back from the branch it is listed under. |
| BranchFiles.FindLog | src/replay.rs:143-171 | The loop returns the first listed file that matches the query. |
| BranchFiles.EscalationNeverFound | src/logging.rs:91-125 | No query is answered with `orchestrator-escalations.log`. |
| BranchFiles.BelowIff | src/logging.rs:91-125 | The listing's order is the lexicographic one by code point. |
| BranchFiles.SlashQuery | src/replay.rs:152-158 | Over a sorted listing of written files, a query with a slash gets its own branch's file if it round-trips and nothing otherwise. |
| BranchFiles.PlainQueryIff | src/logging.rs:91-125 | A slash-free round-tripping query gets its own branch's file if and only if that file is not the one the listing leaves out and no listed file carries the query as its whole name. |
| BranchFiles.AmbiguousQueryIff | src/replay.rs:152-158 | A slash-free query whose name the decoding changes is answered with the file it is logged in, shared with the branch that name decodes to, if and only if it does not end in `.log`. |
| BranchFiles.ClashingNames | src/replay.rs:152-158 | Branches `a` and `a.log`: the query for the second is answered with the first one's file. |
| ShellWord.ShellQuote | src/domain.rs:41-53 | The loop computes the quoted form. |
| ShellWord.ReadQuoted | src/domain.rs:41-53 | Wherever a shell word reader stands outside quotes, the quoted form adds exactly the string to the current word. |
| ShellWord.QuotedIsOneWord | src/domain.rs:41-53 | The quoted form of any string is read as one word, the string itself. |
| ShellWord.QuotedAmongWords | src/domain.rs:41-53 | Between blanks, behind any text that leaves the reader outside quotes and comments and before any text, the quoted form is exactly one word more and changes the reading of nothing else. |
| ProjectSlug.MakeSlug | src/domain.rs:76-100 | The loop with its pending separator computes the safe runs of the name joined by single dashes, or the fallback. |
| ProjectSlug.SlugIsSafe | src/domain.rs:76-100 | Every slug is non-empty and tmux-safe, is its own slug, and a name that is already safe is kept. |
| ProjectSlug.SlugOfNames | src/domain.rs:76-100 | Two runs of ASCII letters, digits, underscores and dashes with anything else between and around them give the runs joined by one dash; one run gives itself, none gives `unknown`. |
| ProjectSlug.SessionOf | src/domain.rs:112-122 | The session of a project with a safe name is `paw-` and that name. |
| ProjectSlug.SessionNameIsTarget | src/domain.rs:112-122 | No session name holds a character tmux reads as a target separator. |
| KeyTree.CollectUnknownKeys | src/doctor.rs:1417-1433 | The recursive walk appends the unknown keys to what was collected before. |
| KeyTree.ExactlyMinimalMissing | src/doctor.rs:1417-1433 | The reported keys are exactly the minimal paths of the raw tree missing from the recognised one, each once, written with dots. |
| KeyTree.PrunedIsRecognised | src/doctor.rs:1417-1433 | Without the reported paths nothing is left to report, and every path not below a reported one is still there. |
| KeyTree.NoWarningIff | src/doctor.rs:1417-1433 | Nothing is reported if and only if nothing is missing. |
| VersionBanner.ParseVersion | src/doctor.rs:444-473 | The index loop stays in bounds, ends, and returns the two numbers of the leftmost digit run followed by a dot and a digit, both below 2^32, and nothing when there is none or one does not fit. |
| VersionBanner.BannerReadsBack | src/doctor.rs:444-473 | The first version printed in a banner reads back as its two numbers, if both are at most 4294967295, and as nothing otherwise. |
| VersionBanner.FirstVersionUnique | src/doctor.rs:444-473 | There is at most one such leftmost version, so the answer is determined. |
| MarkerRegex.EscapeForRegexAlternation | src/main.rs:623-632 | The loop computes the escaped marker. |
| MarkerRegex.BroadGrantMarkerRegex | src/main.rs:647-662 | The loop computes the apostrophe-tolerant pattern. |
| MarkerRegex.AlternationDenotes | src/main.rs:688-694 | Under a reader of extended regular expressions, the joined alternation matches exactly the listed one-line markers. |
| MarkerRegex.AlternationDenotesIff | src/main.rs:688-694 | The pattern means exactly the list if and only if the list has a marker and every marker is one line. |
| MarkerRegex.TolerantDenotes | src/main.rs:647-662 | The broad-grant pattern matches exactly the strings equal to the marker up to swapping the two apostrophe forms. |
| HtmlMetadata.RemovalKeepsIff | docs/generate_agent_metadata.py:52-55 | Block removal leaves a page alone if and only if no end marker follows a start marker in it. |
| HtmlRerun.DeleteUndoesInsertIff | docs/generate_agent_metadata.py:239-264 | For every page, with `</head>` or without, deleting the block undoes inserting it if and only if the page holds no block and no start marker stands before its insertion point. |
| HtmlMetadata.SwapTwice | docs/generate_agent_metadata.py:45-47 | The page with its first description meta replaced is one whose first description meta is the new one at the same place, whatever fragments of a meta stand before it. |
| HtmlMetadata.WrittenRead | docs/generate_agent_metadata.py:247-248 | The pattern matches the meta in full as the substitution writes it, and nothing beyond it, whatever the description and its escapes. |
| HtmlMetadata.ExpandKeepsIff | docs/generate_agent_metadata.py:250-264 | A replacement template stands for itself if and only if none of its backslashes is followed by a letter, a digit or a backslash. |
| HtmlMetadata.PayloadStaysInScript | docs/generate_agent_metadata.py:255-264 | Whatever the metadata, the payload as the substitution writes it, its escapes expanded, holds nothing that could close the script element. |
| HtmlReading.DescriptionReadsBack | docs/generate_agent_metadata.py:247-248 | An HTML reader of the escaped description gets the description back, whatever its characters. |
| HtmlReading.SlashesSameJson | docs/generate_agent_metadata.py:255-256 | To a JSON reader escaping the end tags changes no character of the metadata. |
| HtmlReading.PayloadReadsBack | docs/generate_agent_metadata.py:255-264 | Metadata whose backslashes the substitution leaves alone is read from the page as it was. |
| HtmlReading.NamedEscapes | docs/generate_agent_metadata.py:249-264 | Seven letters behind a backslash are written as control characters. |
| HtmlReading.RejectedIff | docs/generate_agent_metadata.py:249-264 | In front of an acceptable text, a backslash and a character are rejected if and only if the character is an ASCII letter or digit and not one of those seven. |
| HtmlReading.EscapedNewlineExpanded | docs/generate_agent_metadata.py:255-264 | A JSON string with an escaped newline: the page gets the newline itself. |
| HtmlReading.MetaSpelled | docs/generate_agent_metadata.py:45-47 | A description meta is matched in full in either letter case, with any ASCII white space between its parts and before its end, closed by `>` or `/>`. |
| HtmlReading.BlockGone | docs/generate_agent_metadata.py:50-55 | A block goes with the blanks and tabs in front of it and the newline behind it, and nothing else does. |
| HtmlReading.PayloadOnPage | docs/generate_agent_metadata.py:255-264 | A page with a head gets the payload in a script element of the managed type and id, in a block right before the end of the head. |
| HtmlRerun.PlainWhenLiteral | docs/generate_agent_metadata.py:250-264 | Metadata whose templates stand for themselves and which does not hold the end marker is covered by the rerun laws, with the payload written as it is. |
| HtmlRerun.RerunSeesSamePageIff | docs/generate_agent_metadata.py:239-264 | For every page, and metadata whose templates are accepted and whose written payload holds no end marker, removing the block before a rerun restores the page it went into under exactly that condition. |
| HtmlRerun.InjectTwiceIff | docs/generate_agent_metadata.py:239-264 | For every page and such metadata, injecting twice equals injecting once if and only if the page the block goes into meets that condition. |
| HtmlRerun.RemovalEnough | docs/generate_agent_metadata.py:245-250 | On a page whose removal leaves no block, the condition is that no start marker stands before the insertion point; replacing the description cannot make a block. |
| HtmlRerun.OrphanPageChanges | docs/generate_agent_metadata.py:239-264 | A page of a start marker and `</head>`, which the second run changes whatever the metadata. |

## Left out

- Starting processes, files, permissions, symlinks, the terminal loop and its exit signals: only the text or state that goes in and comes out is modelled.
- Rows, status line, filters and overlay of the dashboard: a key is reduced to whether the panel claims it and whether it quits.
- Offsets count characters where the source counts UTF-8 bytes; the cuts fall at the same places. Where bytes decide, in the status records, they are counted.
- ManagedDocument.RunKeepsUserLines: covers user edits between the tool's steps by starting from any document with any user text around the regions; texts with CRLF line ends are outside the run theorems and are decided exactly by the single round trips.
- Polling.LosslessIff: brokers are assumed to have distinct non-zero epochs and never to repeat a message number within the same second across restarts; `BrokerLog.FreshLogRetainedIff` and `BrokerLog.FullHistoryRetainedIff` say exactly what such a repetition costs, and brokers that report epoch 0 are not part of the claim. Publishers may take numbers and append in any order.
- Polling.Converges: the cap on the history is the code's own, so an entry is held only while fewer than the cap have been shown behind it.
- ConfigMigration.InsertionCut: both scanners take lines of multi-line TOML values for what they look like; the agreement is between the scanners, and `TomlRoot` says exactly when they agree with a TOML reader.
- TomlTables.OneSupervisorIff: speaks of files and templates every value of which is closed, and template lines that close the values they open; a header names a table when its name has one part, so `[supervisor.x]` defines no `supervisor`, as in TOML. The reader bounds values and names tables and keys; it does not check that values, dates and numbers are well formed.
- TomlTables.AddedOnceIff: speaks of files in which the keys land outside every value; where they land inside one (`TomlRoot.InsertedAtTopIff`) they are no keys at all.
- ConfigMigration.MigrateExistingConfig: takes the section text the caller built, which is never empty; the prompts that lead to it are not modelled.
- SupervisorSection.SectionIsOneTable: the answer is one line, as a prompt reads it; an answer with a newline inside is not covered.
- GitRepository.RebaseGuarantee: git commands are abstract: a rebase may be refused, stop in a conflict or finish with any replayed commits, and an abort or a checkout may fail; paths are canonical, and tags, stashes and remote branches that git might guess from are not modelled.
- GitRepository.CreationGuarantee: the listing loop of the creation procedure is modelled as the search for a registered worktree with that path and branch; the asked path is not the main checkout's own, which no placement gives; failures keep the directory map but may leave a new branch behind, as git can.
- ShellWord.QuotedAmongWords: the reader knows single and double quotes, backslash, blanks and comments (sections 2.2 and 2.3 of the Shell Command Language volume of POSIX.1-2017); every other active character is kept as an item of its own, and expansions, inside double quotes too, and here-documents are not read.
- MarkerRegex.AlternationDenotes: the reader knows ordinary and escaped characters, bracket lists without ranges, and alternatives (section 9.4 of the Base Definitions volume of POSIX.1-2017), and rejects the other operators.
- BranchFiles.SlashQuery: the listing is taken as the sorted entries of written log files less the escalation log; reading the directory is not modelled.
- HtmlRerun.InjectTwiceIff: covers metadata whose replacement templates the substitution accepts, backslash escapes included, and whose written payload does not hold the end marker. A template with a group reference or octal escape is treated like one the substitution rejects; JSON printing itself is a parameter.
- `resolve_session`, the other sections of the documentation generator, session and tmux handling, prompts and reports: each follows from one lookup or one printed line.
