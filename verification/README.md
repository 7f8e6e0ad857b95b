# Furx, modelled and verified

This project models the parts of Furx that carry state across processes, files and languages, and
proves what they promise over every run and every input. Furx is a desktop workspace for terminal
agents (Rust, Tauri, TypeScript) with a phone companion (JavaScript) and a web companion.

`dafny verify dfyconfig.toml` checks everything.

| files | what they model |
|---|---|
| `PtyRegistry`, `PtyProtocol`, `PtySchedules`, `PtySystem`, `PtyManager` | spawning, waiting for and cancelling the process of a pane: the registry row, the session map, the child, the wait-threads of all generations |
| `LayoutTree`, `Layout`, `LayoutLaws`, `LayoutStore`, `Windows` | the panel trees of windows, detaching a panel into a window and closing it, the optimistic write loop, and the transactions over layout, registry and webviews |
| `Bits`, `JsNumber`, `Sha256Spec`, `Sha256` | SHA-256 and HMAC written by hand in JavaScript, against FIPS 180-4 and RFC 2104 |
| `Sequences`, `Utf8`, `Framing`, `AuditFraming`, `Frames`, `NonceCache`, `Outbound`, `EventCursor` | what is signed between desktop, phone and web companion, who accepts it, and replay |
| `Hex`, `Decimal`, `UrlQuery`, `Pairing` | the pairing QR, printed in Rust and parsed in JavaScript |
| `Scrollback` | the line buffers fed from a terminal in chunks |
| `CrashLog` | truncating texts by bytes, and a rate limit |
| `Cards` | card decisions and their append-only log |
| `Pause` | stopping and continuing an agent's process, and the flag that goes with it |
| `Weave`, `Migrate` | a source rewriter that matches tags |
| `Palette` | the command palette's search |

Code that changes state step by step is modelled as classes and methods over fields and arrays, each
proved against a function or a relation on values; interleaved protocols are transition systems whose
labels carry every outcome that is not decided by the state.

## What does not hold

Some properties the code's comments promise hold only under a condition; each has a lemma that says
exactly which, and one that gives an input or a run the code can meet.

- A cancel updates the row and kills the session in two steps. If a whole spawn of the same pane runs
  in between, the kill takes the new generation's session and its row says `running` for good
  (`StuckExactly`, `StraddleSticks`, `StuckStays`). Without such a straddled cancel it never happens
  (`EveryUnstraddledRun`).
- A child whose writer or reader cannot be taken after the fork is out of reach of every clean-up:
  `kill_if_spawn_id` finds no session to take it from (`OrphanExactly`, `HalfWiredIsOrphan`).
- `remove_from_children` drops a nested container that became empty without correcting the active tab
  of the group around it, so a valid layout can have a detach that `save` refuses
  (`DetachValidExactly`, `DetachCanSpoil`).
- Reattaching a window that is no longer in the layout asks for the stored revision again, which `save`
  refuses until the retries run out (`ReattachWritesExactly`, `ReattachCanStall`). A window of kind Main
  under another key takes all panels with it when it is closed (`ReattachLosesExactly`,
  `ReattachCanLose`).
- The registry of windows follows the layout only through edits that keep the window keys; a save that
  leaves out a detached window leaves its label behind (`EditKeepsExactly`, `EditCanDrop`).
- Removing a tab in front of the active one moves the selection on to the next tab, since its number is
  kept (`ActiveTabAfter`).
- A close request that lands on a window while it settles goes through; if the settle then cannot be
  written, the layout keeps a window nobody can see (`TearsExactly`, `CloseDuringSettleTears`).
- A chunk that ends between `\r` and `\n` loses the line before it (`StreamingIsWhole`,
  `StraddledCutLoses`). A snapshot can have one line more than the limit, exactly when `Snapshot` says.
- The crash relay keeps thirty a window, not the thirty a minute of its header: sixty can pass
  (`EachWindowPassesThirty`, `ThirtyAMinuteExactly`, `SixtyInOneMinute`).
- Decisions from Telegram and the phone reach the card without reaching the log if the log entry fails,
  and leave the snooze of a card they close (`FoldStep`, `PhoneLosesWord`, `SnoozeStep`,
  `PhoneClosesAsleep`). A key decides twice if its look-up fails (`KeyStep`, `FailedLookupRepeats`).
- A frame that is near in time but not at a whole second makes the phone's check raise instead of
  refuse (`VerifyOutbound`, `HalfSecondsRaise`).
- A task that stops running between the two looks of `pause_task` leaves its process stopped without a
  flag (`InvStep`, `FrozenWithoutFlag`); nothing but another pause frees it
  (`OnlyAnotherPauseThaws`, `AnotherPauseThaws`).
- A search for a character outside the Basic Multilingual Plane finds only keys that contain the whole
  query in one piece (`SpreadIsFoundExactly`, `SpreadCanBeMissed`).
- The comment on the hash says the upper half of the bit length is taken as zero; the code writes it,
  and the proof uses that (`PadBytesIsPad`).

## Model

| member | source | states |
|---|---|---|
| PtyProtocol.InvStep | src-tauri/src/commands.rs:347-404 | Every step of every party (spawn, wait-thread, cancel, kill, child) keeps the one inductive invariant of a pane: tokens in order, sessions attended, children accounted for. |
| PtyProtocol.InvReap | src-tauri/src/commands.rs:347-379 | The invariant through the steps from taking the lock to the register. |
| PtyProtocol.InvStart | src-tauri/src/pty.rs:280-335 | The invariant through fork, eviction, insertion and thread start, each of which may fail. |
| PtyProtocol.InvSettle | src-tauri/src/commands.rs:380-404 | The invariant through the clean-up of a failed spawn and the look at the row after a good one. |
| PtyProtocol.InvWait | src-tauri/src/pty.rs:337-412 | The invariant through the turns of a wait-thread, whose removal of the session and call of `finish` are two steps. |
| PtyProtocol.InvCancel | src-tauri/src/commands.rs:5266-5309 | The invariant through cancelling commands, whose row update and kill are two steps. |
| PtyProtocol.StuckExactly | src-tauri/src/pty.rs:337-412 | A row is `running` with nobody left to close it exactly when an unscoped kill took its own session and its spawn is past closing it. |
| PtyProtocol.OrphanExactly | src-tauri/src/pty.rs:280-309 | A live child is out of reach of session map and spawn exactly when it is one of the recorded losses (no writer or reader after the fork; survived the eviction). |
| PtyProtocol.RegisterAlwaysWins | src-tauri/src/commands.rs:347-379 | Under the pane lock `register` always hands back the spawn's own token: the mismatch abort is dead code. |
| PtySchedules.DeadChildRowCloses | src-tauri/src/pty.rs:345-402 | From any reachable state whose child is gone, the generation's own wait-thread can close the row, unless it is stuck: `done` for the exit code zero, `failed` for any other end, or what it had noted before. |
| PtySchedules.ChildEndsRowCloses | src-tauri/src/pty.rs:345-402 | A running child may end at any time; then row, session and child are as its exit code says, and the thread is gone. |
| PtySchedules.CancelIsWhole | src-tauri/src/commands.rs:5247-5309 | A cancel that nothing interleaves with kills exactly if it cancelled a running row, or was asked for directly where there is no row. |
| PtySchedules.SpawnCanEnd | src-tauri/src/commands.rs:347-404 | From every state the spawn in flight can go on by itself until it lets go of the lock. |
| PtySchedules.SpawnThenLateKill | src-tauri/src/commands.rs:5274-5287 | A whole spawn with an older cancel's kill pending ends in a stuck row. |
| PtySchedules.StraddleSticks | src-tauri/src/commands.rs:5274-5287 | From every pane with a running row there is a schedule, a spawn between a cancel's row update and its kill, that ends in a stuck row. |
| PtyProtocol.StuckStays | src-tauri/src/pty.rs:345-402 | A stuck row stays stuck under every step but another cancel or reap. |
| PtyProtocol.GenerationsIsolated | src-tauri/src/pty.rs:481-496 | A step of wait-thread t, `finish(t)` or `kill_if_spawn_id(t)` leaves every other generation's row, session, child and thread unchanged. |
| PtyProtocol.RowFollows | src-tauri/src/services/process_manager.rs:158-308 | From one row to the next the token grows, or within one generation the row leaves `running`, at most once. |
| PtyProtocol.TidyStep | src-tauri/src/commands.rs:347-404 | If no register runs between a cancel's update and its kill, every step keeps a session tied to the row of its own generation. |
| PtyProtocol.TidyMeans | src-tauri/src/commands.rs:5247-5309 | What that gives: no stuck row, only half-wired children lost, one reachable child a pane, none behind a closed row. |
| PtySystem.SysInvStep | src-tauri/src/commands.rs:35-47 | With all panes together, the locks by base pane id keep two spawns of one base apart and the invariant on every pane. |
| PtySystem.EveryRun | src-tauri/src/commands.rs:227-404 | In every run of the whole system from the start: exactly when rows stick and children are lost, one spawn a lock, register never crossed. |
| PtySystem.RowHistory | src-tauri/src/services/process_manager.rs:158-308 | Along every run each pane's row only moves forward. |
| PtySystem.ClosedRowsTellTruth | src-tauri/src/pty.rs:359-402 | In every run a closed row says how its generation ended: `done` after an exit with zero that its own thread saw, `failed` after another end or a spawn that gave up, `canceled` after a cancel. |
| PtySystem.StepIsLocal | src-tauri/src/commands.rs:35-47 | A step changes its own pane as the protocol says and no other; tokens come from one counter. |
| PtySystem.BaseIs | src-tauri/src/commands.rs:41-47 | A pane and all its remounts have one lock. |
| PtySystem.TidyRun | src-tauri/src/commands.rs:347-404 | Runs without straddled cancels keep every pane tidy. |
| PtySystem.EveryUnstraddledRun | src-tauri/src/commands.rs:347-404 | In every such run no row is ever stuck, no wired child is ever orphaned, and a closed row with no kill pending has neither session nor reachable child. |
| PtyManager.Manager.RegisterRow | src-tauri/src/services/process_manager.rs:158-198 | The upsert: a terminal or missing row becomes running under the new token, a running one keeps its own. |
| PtyManager.Manager.FinishRow | src-tauri/src/services/process_manager.rs:260-274 | Closes a row only if it runs under that token; `canceled` is never overwritten. |
| PtyManager.Manager.CancelRow | src-tauri/src/services/process_manager.rs:289-308 | Cancels a running row and tells whether this call did. |
| PtyManager.Manager.KillSession | src-tauri/src/pty.rs:441-451 | Takes the pane's session out and terminates its child; other panes are untouched. |
| PtyManager.Manager.KillIfSpawnId | src-tauri/src/pty.rs:481-496 | The same, only for the given generation. |
| PtyManager.Manager.EvictOld | src-tauri/src/pty.rs:287-295 | The respawn guard: any older session goes; its child dies only if SIGHUP kills it. |
| PtyManager.Manager.InsertSession | src-tauri/src/pty.rs:301-309 | The new session replaces whatever the map held. |
| PtyManager.Manager.PollOnce | src-tauri/src/pty.rs:345-402 | One turn of a wait-thread: leaves if the session is not its own, removes it once the child is gone. |
| PtyManager.Manager.CancelAndReap | src-tauri/src/commands.rs:5266-5309 | The row update, and the kill only if this call cancelled. |
| PtyManager.Manager.StartChild | src-tauri/src/pty.rs:280-335 | Fork, wiring, eviction with either outcome, insertion and threads, with the caller's clean-up when one of them fails. |
| PtyManager.Manager.PtySpawn | src-tauri/src/commands.rs:338-404 | A whole undisturbed spawn from a pane at rest: the row ends ours or failed, the older child is gone, and no child is left unheld except ours when its writer or reader could not be taken. |
| PtyManager.SpawnOutcome | src-tauri/src/commands.rs:338-404 | The same as a law of the slices, whatever an evicted child would do. |
| PtyManager.StartIsARun | src-tauri/src/pty.rs:280-335 | What StartChild does is a run of the protocol, with every outcome of every part. |
| PtyManager.SpawnIsARun | src-tauri/src/commands.rs:338-404 | And PtySpawn is one, from an idle pane through reap, token and register to the end. |
| PtyManager.HalfWiredIsOrphan | src-tauri/src/pty.rs:283-284 | From every reachable state at the fork: a child whose writer or reader cannot be taken is an orphan when the clean-up is over. |
| LayoutTree.RemoveLeafLeaves | src-tauri/src/services/window_reattach.rs:152-221 | Removing a leaf removes exactly the panels with that id, keeps the order of the others, and reports whether there was one. |
| LayoutTree.RemovalNested | src-tauri/src/services/window_reattach.rs:152-221 | A nested tree without the leaf obeys the structural rules exactly when the removal is clean: no active tab falls out of range, no container vanishes on the way. |
| LayoutTree.RemovalAtRoot | src-tauri/src/services/window_reattach.rs:152-221 | The same for a window's root, under the root's laxer rules. |
| LayoutTree.RemovalShape | src-tauri/src/services/window_reattach.rs:152-221 | What a removal leaves of a container, child by child: the direction, the other children in order, the emptied or single-child container replaced, the active tab kept within range. |
| LayoutTree.ActiveTabAfter | src-tauri/src/services/window_reattach.rs:154-163 | Which tab is shown afterwards; one removed in front of the active one moves the selection on. |
| LayoutTree.SpacesAre | src-tauri/src/services/layout_config.rs:178-178 | Blank is what `trim` leaves nothing of. |
| LayoutTree.ValidNodeExactly | src-tauri/src/services/layout_config.rs:243-289 | The recursive check passes a nested tree exactly if every node of it is sound by itself. |
| Layout.ValidExactly | src-tauri/src/services/layout_config.rs:157-214 | `validate` passes exactly what obeys its seven rules, each said of the whole layout. |
| Layout.EmptyIsValid | src-tauri/src/services/layout_config.rs:139-155 | The empty layout passes every rule. |
| Layout.FindDetachedKey | src-tauri/src/services/window_reattach.rs:119-130 | The search for a free key ends, at the smallest free number. |
| LayoutLaws.DetachDefined | src-tauri/src/services/window_reattach.rs:234-246 | A detach is possible exactly when the panel is below the root of Main. |
| LayoutLaws.DetachMoves | src-tauri/src/services/window_reattach.rs:234-257 | The panel leaves Main, all others keep their order, and it alone is in the new last window. |
| LayoutLaws.DetachConserves | src-tauri/src/services/window_reattach.rs:234-257 | No panel is lost or doubled. |
| LayoutLaws.DetachValidExactly | src-tauri/src/services/window_reattach.rs:234-257 | The result passes the rules of every write if and only if the removal was clean at Main's root. |
| LayoutLaws.DetachKeys | src-tauri/src/services/window_reattach.rs:234-257 | The set of window keys grows by one new key. |
| LayoutLaws.ReattachConserves | src-tauri/src/services/window_reattach.rs:75-114 | Closing a detached window moves all its panels to Main. |
| LayoutLaws.ReattachKeepsAll | src-tauri/src/services/window_reattach.rs:75-114 | The result is valid again, the other windows are untouched, and Main's panels are followed by those of the closed window in order. |
| LayoutLaws.ReattachMoves | src-tauri/src/services/window_reattach.rs:75-114 | Window by window: the closed one is gone, the others stand where they stood, and its leaves are behind what Main had, in the direction of Main's split or a horizontal one. |
| LayoutLaws.ReattachLosesExactly | src-tauri/src/services/window_reattach.rs:81-95 | Panels are lost exactly when the window of kind Main is closed under a key other than "main" and there was one to lose. |
| LayoutLaws.ReattachCanLose | src-tauri/src/services/window_reattach.rs:81-95 | A valid layout, for any other key and any panel, that loses it. |
| LayoutLaws.ReattachWritesExactly | src-tauri/src/services/window_reattach.rs:75-84 | The revision moves on exactly when there is such a window; for any other key the layout comes back as it was, which no save accepts. |
| LayoutLaws.ReattachCanStall | src-tauri/src/services/window_reattach.rs:75-84 | A valid layout, for any key it does not have. |
| LayoutLaws.DetachThenReattach | src-tauri/src/services/window_reattach.rs:75-114 | Detaching and closing again restores every window but for the panel's place, now last in Main. |
| LayoutLaws.SpoiledGroupIsUnclean | src-tauri/src/services/window_reattach.rs:184-201 | A tab group whose active nested group vanishes is not clean. |
| LayoutLaws.DetachCanSpoil | src-tauri/src/services/window_reattach.rs:184-201 | A valid layout whose detach the rules then refuse. |
| LayoutStore.Store.Save | src-tauri/src/services/layout_config.rs:427-490 | Compare-and-swap: writes exactly if valid and the revision moves on by one (and fits an i64); otherwise nothing changes. |
| LayoutStore.Store.OtherWriters | src-tauri/src/services/layout_config.rs:427-490 | Any other writers: each commit moves the revision by one. |
| LayoutStore.ReadsExactly | src-tauri/src/services/layout_config.rs:375-425 | A reader gets what is stored if it is valid and of this version, an empty layout if not, and what the old layout migrates to if nothing is. |
| LayoutStore.Try | src-tauri/src/commands.rs:653-670 | One attempt ends as what was stored at its beginning and what happens around it decide. |
| LayoutStore.PersistLayoutMutation | src-tauri/src/commands.rs:643-672 | Whoever writes in between: success is exactly one commit of `f` applied to what was readable just before it, no success is no commit; it ends as the first attempt that need not start over, and gives up only when all of them had to. |
| LayoutStore.ContentionDecides | src-tauri/src/commands.rs:658-668 | A valid proposal starts over exactly if somebody else wrote in between, and is written exactly if nobody did. |
| LayoutStore.QuietDetachCommits | src-tauri/src/commands.rs:733-742 | A detach that the layout allows goes through at the first attempt nobody disturbs. |
| LayoutStore.QuietReattachCommits | src-tauri/src/commands.rs:818-823 | So does the closing of a window that the layout has. |
| LayoutStore.WindowMutationsStep | src-tauri/src/services/window_reattach.rs:112-112 | Detach and reattach move the revision by at most one, as the loop needs. |
| LayoutStore.DetachThroughTheLoop | src-tauri/src/commands.rs:733-742 | A detach that went through the loop, whoever wrote in between, kept every panel of the layout it was committed on. |
| LayoutStore.ReattachThroughTheLoop | src-tauri/src/commands.rs:818-823 | So did the closing of a window. |
| LayoutStore.CommandsConserve | src-tauri/src/services/window_reattach.rs:75-114 | Either keeps the panels and the home of Main. |
| LayoutStore.ConcurrentRunsConserve | src-tauri/src/commands.rs:643-672 | However many of them interleave, each through its own loop: no panel is lost or doubled, after any number of commits. |
| Windows.InvStep | src-tauri/src/commands.rs:686-880 | Every step of detach, settle, close request, webview closing and outside edits that keep the keys keeps registry, layout, marks and webviews in step. |
| Windows.EditKeepsExactly | src-tauri/src/services/layout_config.rs:427-490 | An outside edit keeps them in step if and only if it keeps the set of window keys. |
| Windows.EditCanDrop | src-tauri/src/services/layout_config.rs:427-490 | In every state with a detached window, a valid edit without it leaves a registered label the layout does not have. |
| Windows.EveryRun | src-tauri/src/commands.rs:795-834 | In every run with every pattern of failures, outside edits keeping the keys: the layout is valid, the registry is its detached windows, and one of them lacks a webview exactly when it was torn away. |
| Windows.PersistedKeyIsWindowKey | src-tauri/src/commands.rs:715-740 | The key computed before the window is built is the key that is stored. |
| Windows.DetachGoesThrough | src-tauri/src/commands.rs:686-782 | When nothing fails a detach puts one new window into layout, registry and webviews. |
| Windows.SettleIsWritten | src-tauri/src/commands.rs:795-834 | A settle is written exactly if the revision can still move on. |
| Windows.SettleGoesThrough | src-tauri/src/commands.rs:846-880 | Then the window and its mark go. |
| Windows.PanelsConserved | src-tauri/src/commands.rs:686-834 | No step but an outside edit changes which panels there are. |
| Windows.RunsConservePanels | src-tauri/src/commands.rs:686-834 | Over every run the panels are those of the last outside edit: no detach or closing, failed or interleaved, loses or doubles one. |
| Windows.FailedDetachLeavesNothing | src-tauri/src/commands.rs:765-780 | A detach that cannot be stored leaves layout, registry, webviews and marks as if it had never begun, whatever runs between its two steps. |
| Windows.FailedSettleLeavesNothing | src-tauri/src/commands.rs:818-823 | So does a settle, whatever runs between its steps but a close request for its window. |
| Windows.TidyStep | src-tauri/src/lib.rs:606-646 | If no close request lands on a window in transit, no webview is torn away. |
| Windows.EveryPoliteRun | src-tauri/src/commands.rs:846-880 | Then, between commands, layout keys, registry and webviews coincide and no mark is held. |
| Windows.TearsExactly | src-tauri/src/lib.rs:609-646 | Exactly which steps tear a window of the layout from its webview. |
| Windows.CloseDuringSettleTears | src-tauri/src/lib.rs:609-646 | A close request during a settle whose write then fails leaves a window of the layout that nobody can see. |
| Sha256Spec.RoundConstants | mobile-companion/pwa/furx-sign.js:87-96 | The sixty-four constants are the first 32 fractional bits of the cube roots of the first sixty-four primes (section 4.2.2 of FIPS 180-4). |
| Sha256Spec.InitialHash | mobile-companion/pwa/furx-sign.js:99-101 | The initial values come from the square roots of the first eight (section 5.3.3). |
| Sha256Spec.ZeroCountIsLeast | mobile-companion/pwa/furx-sign.js:104-105 | The padding of section 5.1.1 is the smallest solution of its congruence. |
| Sha256Spec.Sha256OnBytes | mobile-companion/pwa/furx-sign.js:98-141 | The digest in bytes is the digest of the bit string. |
| JsNumber.RotrWord | mobile-companion/pwa/furx-sign.js:116-116 | The rotation through signed 32-bit numbers is the standard's ROTR. |
| JsNumber.SumCut | mobile-companion/pwa/furx-sign.js:122-122 | Cutting a sum once is adding the cut terms modulo 2^32. |
| Sha256.UpperS1IsSigma | mobile-companion/pwa/furx-sign.js:126-126 | The expression S1 is the function of section 4.1.2. |
| Sha256.UpperS0IsSigma | mobile-companion/pwa/furx-sign.js:129-129 | Likewise S0. |
| Sha256.LittleS0IsSigma | mobile-companion/pwa/furx-sign.js:120-120 | Likewise s0. |
| Sha256.LittleS1IsSigma | mobile-companion/pwa/furx-sign.js:121-121 | Likewise s1. |
| Sha256.ChooseIsCh | mobile-companion/pwa/furx-sign.js:127-127 | `(e & f) ^ (~e & g)` over signed numbers is Ch. |
| Sha256.MajorityIsMaj | mobile-companion/pwa/furx-sign.js:130-130 | The majority expression is Maj. |
| Sha256.FiveTerms | mobile-companion/pwa/furx-sign.js:128-128 | The sum of five mixed signed terms is exact and, cut once, equals adding modulo 2^32 after every term. |
| Sha256.FourTerms | mobile-companion/pwa/furx-sign.js:122-122 | The same for the schedule, whose terms are in another order than the standard's. |
| Sha256.PadBytesIsPad | mobile-companion/pwa/furx-sign.js:102-113 | The padded buffer is the standard's padding of the message's bits, with the length in two halves. |
| Sha256.PaddedBuffer | mobile-companion/pwa/furx-sign.js:102-113 | The buffer filled in place has those contents. |
| Sha256.ReadWord | mobile-companion/pwa/furx-sign.js:118-118 | Four bytes read big-endian are the word of the bit string at that place. |
| Sha256.ReadBlock | mobile-companion/pwa/furx-sign.js:118-118 | The first sixteen words of the schedule array are the block's. |
| Sha256.ExpandBlock | mobile-companion/pwa/furx-sign.js:119-123 | The loop over the array computes the message schedule of section 6.2.2. |
| Sha256.RunRounds | mobile-companion/pwa/furx-sign.js:124-133 | The eight rolling variables after sixty-four turns are the standard's. |
| Sha256.AddToHash | mobile-companion/pwa/furx-sign.js:134-135 | The block's result is added word by word. |
| Sha256.AddBlocks | mobile-companion/pwa/furx-sign.js:117-136 | The loop over the blocks reaches the last of the chained hash values. |
| Sha256.WriteDigest | mobile-companion/pwa/furx-sign.js:137-140 | The digest is written word by word, big-endian. |
| Sha256.Hash | mobile-companion/pwa/furx-sign.js:98-141 | The program's hash is SHA-256 of FIPS 180-4 for every message whose bit length is an exact double (2^50 bytes). |
| Sha256.XorKeptIsXor | mobile-companion/pwa/furx-sign.js:153-154 | A byte xor through 32-bit numbers, kept by a Uint8Array, is the xor of the bytes. |
| Sha256.KeyBlock | mobile-companion/pwa/furx-sign.js:145-149 | Long keys are hashed, all are filled up with zeros to one block. |
| Sha256.FillPads | mobile-companion/pwa/furx-sign.js:150-155 | Both pads are the key block xored with their constants. |
| Sha256.HmacSha256 | mobile-companion/pwa/furx-sign.js:144-160 | The program's HMAC is that of section 2 of RFC 2104 over SHA-256. |
| Utf8.DecodesExactly | web/src/crashLog.ts:40-44 | A strict decoder gives s exactly for the bytes that encode s (sections 3 and 4 of RFC 3629). |
| Utf8.EncodeInjective | mobile-companion/pwa/furx-sign.js:65-76 | Different texts have different bytes. |
| Utf8.PrefixOfEncoding | web/src/crashLog.ts:44-44 | Where the bytes of one text begin those of another, the text begins the other. |
| Utf8.LossyOfEncode | mobile-companion/pwa/pairing.js:35-55 | The lossy decoder gives back every encoded text. |
| Utf8.SubpartIsMaximal | mobile-companion/pwa/pairing.js:53-55 | A malformed beginning is replaced as far as it could still have become a character, as the lossy decoder of URLs does. |
| Utf8.LossyKeeps | mobile-companion/pwa/pairing.js:53-55 | What is well-formed survives in front of what is not, |
| Utf8.StrayByte | mobile-companion/pwa/pairing.js:53-55 | and behind it. |
| Framing.U64RoundTrip | mobile-companion/pwa/furx-sign.js:39-43 | Eight little-endian bytes read back as the length. |
| Framing.I64RoundTrip | mobile-companion/pwa/furx-sign.js:45-49 | And as the signed time. |
| Framing.ConcatBytes | mobile-companion/pwa/furx-sign.js:51-60 | The chunks end up one behind the other in one buffer. |
| Framing.JsCanonicalBytes | mobile-companion/pwa/furx-sign.js:64-78 | The phone builds the length-prefixed layout. |
| Framing.RustCanonicalBytes | src-tauri/src/services/mobile_bridge.rs:783-806 | The desktop builds the same bytes. |
| Framing.ParsesExactly | mobile-companion/pwa/furx-sign.js:62-78 | A reader recovers tag, nonce, time, scope, source and body from exactly the bytes that carry them. |
| Framing.CanonicalInjective | mobile-companion/pwa/furx-sign.js:62-78 | Hence different contents are never signed as the same bytes. |
| AuditFraming.PaddedDigits | web-companion/lib/auth.ts:26-26 | A length below 10^10 takes exactly ten digits and reads back. |
| AuditFraming.TenDigits | web-companion/lib/auth.ts:28-28 | Every length below 10^10 takes ten bytes. |
| AuditFraming.PrintIntIs | web-companion/lib/auth.ts:27-27 | The text of an integer: its digits behind a minus sign if negative, without a needless zero. |
| AuditFraming.PrintIntInjective | web-companion/lib/auth.ts:24-24 | Different times print differently. |
| AuditFraming.ParsesExactly | web-companion/lib/auth.ts:21-40 | The decimal framing, too, is inverted exactly, for fields below 10^10 bytes. |
| AuditFraming.CanonicalInjective | web-companion/lib/auth.ts:21-40 | Different uploads are never signed as the same bytes. |
| AuditFraming.CanonicalBytes | web-companion/lib/auth.ts:21-40 | The buffer with its moving offset holds that layout. |
| Frames.HexRoundTrip | mobile-companion/pwa/furx-sign.js:80-84 | Hexadecimal text decodes to the bytes it was made of. |
| Hex.HexDigits | mobile-companion/pwa/furx-sign.js:80-84 | What counts as a hexadecimal digit, and for what. |
| Hex.OneDigitEach | mobile-companion/pwa/furx-sign.js:80-84 | Codes are printed in lower case, escapes in upper case, and in one case there is one digit for a value. |
| Frames.LowerTextIsUnique | mobile-companion/pwa/furx-sign.js:80-84 | There is one lower-case text for any bytes. |
| Frames.HmacHex | mobile-companion/pwa/furx-sign.js:144-176 | The phone's signature is sixty-four lower-case digits that decode to the RFC 2104 code of the canonical bytes. |
| Frames.SignOutbound | src-tauri/src/services/mobile_bridge.rs:806-820 | So is the desktop's. |
| Frames.VerifyHmac | src-tauri/src/services/mobile_bridge.rs:649-777 | The desktop accepts exactly the signatures that decode to that code, of either case, up to 256 characters. |
| Frames.VerifyFrame | src-tauri/src/services/mobile_bridge.rs:649-781 | The desktop accepts exactly frames of the phone's kinds with the right code. |
| Frames.SidesAgree | src-tauri/src/services/mobile_bridge.rs:653-747 | Both tables give every kind of frame the same tag and fields. |
| Frames.PhoneToDesktop | mobile-companion/pwa/furx-sign.js:183-223 | What the phone signs the desktop accepts. |
| Frames.FramesAreSignedApart | mobile-companion/pwa/furx-sign.js:22-37 | No two different frames, of one kind or of two, share their signed bytes. |
| Frames.CarriableExactly | mobile-companion/pwa/furx-sign.js:22-37 | The eight-byte tags never stand in the way of carrying a frame. |
| Outbound.XorIsZero | mobile-companion/pwa/furx-sign.js:263-263 | Xor through signed numbers is zero exactly for equal codes. |
| Outbound.OrIsZero | mobile-companion/pwa/furx-sign.js:263-263 | And or-ing differences stays zero exactly if all are. |
| Outbound.SameText | mobile-companion/pwa/furx-sign.js:260-264 | The loop without early exit decides equality. |
| Outbound.Verifier.OutboundNonceSeen | mobile-companion/pwa/furx-sign.js:236-243 | Known nonces change nothing; new ones are appended, the oldest goes above 512. |
| Outbound.Verifier.VerifyOutbound | mobile-companion/pwa/furx-sign.js:251-268 | Accepts exactly a well-formed frame, in time, with the right code and an unknown nonce; raises exactly for a near time that is no whole number; anything else leaves the cache as it was. |
| Outbound.HalfSecondsRaise | mobile-companion/pwa/furx-sign.js:257-259 | Any half second next to now is such a time. |
| Outbound.DesktopToPhone | src-tauri/src/services/mobile_bridge.rs:812-820 | What the desktop signs the phone accepts exactly if it is in time and its nonce is not cached. |
| NonceCache.CacheRefinesHistory | mobile-companion/pwa/furx-sign.js:232-243 | Over any run the cache is the last 512 accepted nonces in order, without repeats, and a nonce comes back only after at least 512 others. |
| NonceCache.ForgottenNoncesReturn | mobile-companion/pwa/furx-sign.js:232-243 | And exactly then an authentic frame with it gets in again. |
| EventCursor.Cursor.ApplyEvent | mobile-companion/pwa/events.js:22-37 | Applied exactly if finite and above the cursor, which then moves there. |
| EventCursor.Cursor.ResetSeq | mobile-companion/pwa/events.js:45-47 | A reset floors the cursor. |
| EventCursor.Cursor.ApplyAll | mobile-companion/pwa/events.js:22-37 | Between resets exactly the strict running maxima of a stream of doubles are applied, in order. |
| EventCursor.AppliedGrow | mobile-companion/pwa/events.js:22-37 | So what is applied only grows: nothing stale, nothing twice. |
| CrashLog.SuffixBytes | web/src/crashLog.ts:28-29 | The suffix takes fourteen bytes. |
| CrashLog.CutDecodes | web/src/crashLog.ts:43-44 | A cut of the bytes decodes exactly when it falls between two characters, to the characters before it. |
| CrashLog.LongestFitIsUnique | web/src/crashLog.ts:36-50 | There is only one longest prefix that fits. |
| CrashLog.Truncate | web/src/crashLog.ts:31-51 | Nothing for an empty text, the text if it fits, else its longest prefix that fits the budget with the suffix; at most three steps back, and never past zero. |
| CrashLog.TruncationFits | web/src/crashLog.ts:31-51 | With a limit of fourteen or more the result keeps it. |
| CrashLog.TruncationIsLongest | web/src/crashLog.ts:36-47 | A text that fits is left alone, and any other is cut as late as its limit allows. |
| CrashLog.TinyLimits | web/src/crashLog.ts:36-47 | Below fourteen it is over the limit exactly when the text was. |
| CrashLog.Limiter.RateLimitOk | web/src/crashLog.ts:53-62 | One call of the limiter, state and answer. |
| CrashLog.PassedWithinRoom | web/src/crashLog.ts:53-62 | How many calls of any run can still pass within a minute that begins anywhere, seen from any state. |
| CrashLog.EachWindowPassesThirty | web/src/crashLog.ts:53-62 | Every window of every run: the call that finds the last one over opens it, and exactly the first thirty of its calls pass. |
| CrashLog.AtMostTwiceTheLimit | web/src/crashLog.ts:53-62 | At most sixty reports in any half-open minute of any run with a clock that does not go back, and thirty in the one that begins with the run. |
| CrashLog.PassedExactly | web/src/crashLog.ts:53-62 | How many of the calls of a minute that begins anywhere pass, exactly: those that fall into the window running then, as far as it has room, and the first thirty of those behind it. |
| CrashLog.ThirtyAMinuteExactly | web/src/crashLog.ts:5-5 | The thirty a minute of the header hold for a minute if and only if the running window takes none of its calls, or has no room left, or had spent at least what the next one is asked, or both are asked thirty together. |
| CrashLog.SixtyInOneMinute | web/src/crashLog.ts:5-5 | A run, from any start, with sixty in one minute. |
| Scrollback.LineBuffer.PushChar | src-tauri/src/pty.rs:62-76 | One character: a newline completes the line and drops the oldest above the limit, a return clears it, others are kept below 8192 bytes. |
| Scrollback.LineBuffer.Push | src-tauri/src/pty.rs:59-78 | One chunk, on the whole history and on the kept end of it. |
| Scrollback.LineBuffer.PushAll | src-tauri/src/pty.rs:59-78 | A run of chunks, from any state. |
| Scrollback.Fed | src-tauri/src/pty.rs:59-86 | A new buffer fed with chunks holds the last lines of the whole stream and the line in progress if the cuts were harmless, as clean ones are; no line is over 8195 bytes, however it was cut. |
| Scrollback.FedBoth | src-tauri/src/pty.rs:132-160 | Scrollback and session buffer on the same chunks, however they are cut: the 50 lines are the end of the 500, and both are the ends of the whole stream if the cuts were harmless. |
| Scrollback.LineBuffer.Snapshot | src-tauri/src/pty.rs:80-86 | The kept lines and a line in progress that is not empty: one more than the limit exactly when there is one and the lines are full. |
| Scrollback.MachineIs | src-tauri/src/pty.rs:61-77 | Character by character the machine computes the whole-stream definition. |
| Scrollback.StreamingIsWhole | src-tauri/src/pty.rs:59-78 | A run of chunks leaves what the whole stream leaves exactly when every cut between a return and its newline came on an empty line. |
| Scrollback.StreamingEqualsBatch | src-tauri/src/pty.rs:59-78 | From empty, with no such cut, the lines are those of the whole stream. |
| Scrollback.StraddledCutLoses | src-tauri/src/pty.rs:60-60 | Such a cut after any text loses that text. |
| Scrollback.NormaliseConcat | src-tauri/src/pty.rs:60-60 | What per-chunk replacement does to two chunks, wherever they were cut. |
| Scrollback.JoinSegments | src-tauri/src/pty.rs:61-69 | The segments, with newlines between them, are the text. |
| Scrollback.SegmentsHaveNoNewline | src-tauri/src/pty.rs:63-69 | And no segment has a newline in it, so they are the lines. |
| Scrollback.AfterLastReturnIs | src-tauri/src/pty.rs:70-70 | The part kept of a segment is what follows its last return. |
| Scrollback.CutIsShortest | src-tauri/src/pty.rs:71-75 | A line is the shortest prefix that reaches 8192 bytes, or all; never over 8195. |
| Scrollback.LinesAreBounded | src-tauri/src/pty.rs:71-75 | So is every line of a stream. |
| Scrollback.FedIsBounded | src-tauri/src/pty.rs:71-75 | And every line, complete or in progress, of any run of chunks, however cut. |
| UrlQuery.DecodeEncode | src-tauri/src/commands.rs:1639-1640 | Percent-decoding undoes percent-encoding of any bytes (section 2.1 of RFC 3986). |
| UrlQuery.DecodeFirst | mobile-companion/pwa/pairing.js:53-55 | A plus sign is a space, and what is no escape is itself. |
| UrlQuery.PercentEncodeIsEncoded | src-tauri/src/commands.rs:1638-1640 | Letters and digits stay, and only they; every other byte is a percent sign and two upper-case digits. |
| UrlQuery.EncodedIsUnique | src-tauri/src/commands.rs:1638-1640 | There is one such text for any bytes. |
| UrlQuery.QueryRoundTrip | mobile-companion/pwa/pairing.js:35-55 | A query parses to the parameters it was written from, values decoded. |
| UrlQuery.LooseParts | mobile-companion/pwa/pairing.js:35-55 | A parameter without an equals sign has no value, and empty ones are none. |
| Pairing.ValidExactly | mobile-companion/pwa/pairing.js:13-24 | For dotted quads the host check is a check of the private ranges by the first two numbers. |
| Pairing.ValidHostExactly | mobile-companion/pwa/pairing.js:13-24 | A host passes exactly if it is four numbers up to 255 with dots between them, the first two in 10, 172.16-31, 192.168 or 100.64-127. |
| Pairing.ParsesExactly | mobile-companion/pwa/pairing.js:27-57 | A URI is read exactly if prefix, version, token, expiry and port are right, the expiry at most forty-five seconds ago. |
| Pairing.FieldsRefused | mobile-companion/pwa/pairing.js:35-50 | Each refusal names the first thing that is wrong. |
| Pairing.FieldsAccepted | mobile-companion/pwa/pairing.js:51-56 | What is read: the token, expiry and name as given, and only valid addresses. |
| Pairing.BuiltIsParsed | mobile-companion/pwa/pairing.js:27-57 | Any built URI parses to its token, expiry, port, reachable hosts and name until forty-five seconds after its expiry, and is refused as expired from then on. |
| Pairing.FirstFittingIsFirst | src-tauri/src/commands.rs:1661-1665 | The candidates are tried in order. |
| Pairing.OneAddressFits | src-tauri/src/commands.rs:1652-1660 | One address without a name fits 175 characters, with any expiry of 64 bits and a second network. |
| Pairing.ChosenKeepsAHost | src-tauri/src/commands.rs:1654-1665 | What is shown: all addresses with the name if that fits 175 characters, else one with the name if that fits, else one alone, which does. So the error is never raised and the last candidate never taken. |
| Pairing.RoundTrip | src-tauri/src/commands.rs:1633-1665 | Generated on the desktop and parsed on the phone: the token, expiry, port, the reachable ones of the kept addresses, the Tailscale address and the first fifteen characters of the name, "Desktop" if empty or dropped; refused once it has expired. |
| Pairing.Desktop.GenerateCode | src-tauri/src/commands.rs:1599-1672 | The command with the sessions it makes: one is spent exactly when a code is shown, and none is asked for without an address. |
| Pairing.UrlsExactly | mobile-companion/pwa/pairing.js:60-65 | The URLs to try, in order and written out. |
| Pairing.NothingToTryExactly | mobile-companion/pwa/pairing.js:60-65 | There is no address to try exactly when no host was reachable. |
| Migrate.FindTagEnd | scripts/migrate_buttons.py:24-44 | The first `>` outside quotes and braces, or none. |
| Migrate.FindClose | scripts/migrate_buttons.py:47-64 | The first closing tag with as many buttons opened as closed before it, or none. |
| Migrate.InsideIsBalanced | scripts/migrate_buttons.py:47-64 | Up to it no beginning closes more than it opens. |
| Migrate.HeadMatches | scripts/migrate_buttons.py:21-21 | A place matches if a legacy head begins there: the tag name, white space, and the attribute with one of five words or a list that begins with a sixth; it is all of the head then, |
| Migrate.MatchIsHead | scripts/migrate_buttons.py:21-21 | and only if. |
| Migrate.NewHeads | scripts/migrate_buttons.py:10-19 | What a head becomes, word by word; anything unknown becomes the plain one. |
| Migrate.SpacesAre | scripts/migrate_buttons.py:21-21 | White space as Python has it. |
| Migrate.TagEndsBehindHead | scripts/migrate_buttons.py:72-84 | The tag ends behind the matched head, so the attributes in between are a text. |
| Migrate.EditIs | scripts/migrate_buttons.py:72-96 | What one rewriting is: the first legacy head from there on, its tag's end and its matching close. |
| Migrate.MigrateText | scripts/migrate_buttons.py:67-97 | Input and output are one text that differs only in `count` disjoint pairs of head and closing tag, each the first legacy button behind the one before; everything else is kept in order. |
| Migrate.RewritingIsDetermined | scripts/migrate_buttons.py:67-97 | The text alone decides the pairs, |
| Migrate.ResultIsDetermined | scripts/migrate_buttons.py:67-97 | and with them output and count. |
| Migrate.ReplacedPairsAreBalanced | scripts/migrate_buttons.py:85-96 | Between the two parts of a pair the buttons balance. |
| Weave.WovenIsInput | scripts/migrate_buttons.py:71-97 | With the parts left as they were, the pieces are the text. |
| Cards.Store.DecideCard | src-tauri/src/commands.rs:1246-1367 | Card and log entry appear together or not at all, wherever the transaction breaks off. |
| Cards.Store.RecordActivity | src-tauri/src/commands.rs:1374-1411 | New activity wakes a sleeping card, even if the look-up before failed; only what that saw is answered and logged, and a log entry that fails is an error after the card has changed. |
| Cards.Store.RemoteDecide | src-tauri/src/services/mobile_bridge.rs:1940-1971 | A decision from the phone writes decision and status only; its log entry may fail. |
| Cards.DecisionIsAtomic | src-tauri/src/commands.rs:1246-1367 | A decision that fails or repeats a key changes nothing; any other adds one entry, does to the card what it says, and leaves the others. |
| Cards.ActivityWakes | src-tauri/src/commands.rs:1388-1396 | New activity wakes the card exactly if its snooze still runs, marks it, and changes nothing else. |
| Cards.NewCards | src-tauri/src/commands.rs:1148-1160 | A new card is open, undecided, awake and unread. |
| Cards.ListingWakes | src-tauri/src/commands.rs:116-127 | Listing drops the snoozes that have run out on open cards, and changes nothing else. |
| Cards.FoldStep | src-tauri/src/commands.rs:1246-1367 | A step keeps every card's decision and status the last word of the log exactly if it is not a remote decision lost to the log. |
| Cards.PhoneLosesWord | src-tauri/src/services/mobile_bridge.rs:1940-1971 | A legal run, for any card, whose table is no fold of its log. |
| Cards.TableIsFoldOfLog | src-tauri/src/commands.rs:1246-1367 | So does every run in which no word is lost. |
| Cards.InboxRunsAreFolds | src-tauri/src/commands.rs:116-127 | In particular every run of decide, activity and list. |
| Cards.KeyStep | src-tauri/src/commands.rs:1273-1302 | A step keeps one entry per card and key exactly unless the look-up failed on a known key. |
| Cards.FailedLookupRepeats | src-tauri/src/commands.rs:1273-1302 | A legal run, for any card and key, that logs the key twice. |
| Cards.EachKeyDecidesOnce | src-tauri/src/commands.rs:1273-1302 | So each key decides a card once over every run whose look-ups work. |
| Cards.SnoozeStep | src-tauri/src/commands.rs:1303-1346 | Only open cards that were not reopened are snoozed, and exactly a remote decision that closes a snoozed card spoils that. |
| Cards.PhoneClosesAsleep | src-tauri/src/services/mobile_bridge.rs:1940-1971 | A legal run, for any card and time, that leaves a closed card snoozed. |
| Cards.InboxKeepsSnoozes | src-tauri/src/commands.rs:1303-1411 | Runs of the inbox keep it. |
| Pause.Child.TerminateChild | src-tauri/src/pty.rs:460-474 | Leaves the process dead from any state, stopped or deaf to SIGHUP, and lets the others hang up first. |
| Pause.HangupAloneLeavesAlive | src-tauri/src/pty.rs:453-459 | SIGHUP alone leaves alive exactly the stopped and the deaf. |
| Pause.SignalsAct | src-tauri/src/pty.rs:453-474 | A stop holds until the process is continued, and a hangup that comes meanwhile waits for that. |
| Pause.PauseWorks | src-tauri/src/commands.rs:7099-7150 | A whole pause: the process is stopped and flagged, or as it was if the flag cannot be set; nothing happens to a task that is flagged or has no process. |
| Pause.OnlyTheLookedUpStops | src-tauri/src/pty.rs:521-592 | A process that ended or was replaced since the look-up is not stopped. |
| Pause.ResumeWorks | src-tauri/src/commands.rs:7232-7265 | A whole resume: the process runs and the flag is gone; the flag stays if the signal is refused or clearing fails. |
| Pause.EndsAnyTime | src-tauri/src/pty.rs:441-451 | A kill, and an end of its own, can come at any time. |
| Pause.InvStep | src-tauri/src/commands.rs:7099-7265 | Every step of pause and resume, and of what happens around them, keeps stopped processes flagged or about to be, exactly except the update that finds no row. |
| Pause.NoneFrozenBetweenCommands | src-tauri/src/commands.rs:7099-7265 | Over any run without that, no live process is stopped with a null flag between commands. |
| Pause.SteadyTasksAreFound | src-tauri/src/services/orchestration.rs:706-726 | It cannot happen while the task stays running. |
| Pause.FrozenWithoutFlag | src-tauri/src/services/orchestration.rs:706-726 | It does when the task stops running between the two looks of `pause_task`. |
| Pause.OnlyAnotherPauseThaws | src-tauri/src/commands.rs:7232-7265 | From there every run without another pause and without the end of the process, resumes and all, leaves it as it is. |
| Pause.AnotherPauseThaws | src-tauri/src/commands.rs:7099-7160 | Another pause finds the task not running, rolls back and continues the process. |
| Palette.Scan | web/src/CommandPalette.tsx:319-323 | The greedy scan finishes exactly if the query is a subsequence of the key: it misses nothing. |
| Palette.KeptExactly | web/src/CommandPalette.tsx:317-326 | Kept exactly if substring or subsequence; above one exactly if substring. |
| Palette.BasicSubstringIsSubsequence | web/src/CommandPalette.tsx:317-324 | For queries in the Basic Multilingual Plane a substring is a subsequence. |
| Palette.OtherPlanesOnlyInOnePiece | web/src/CommandPalette.tsx:320-323 | Any other query is never a subsequence, since its 16-bit units meet whole characters. |
| Palette.SpreadIsFoundExactly | web/src/CommandPalette.tsx:317-326 | Found is exactly what contains the query, or has it spread over it if the query lies in that plane. |
| Palette.SpreadCanBeMissed | web/src/CommandPalette.tsx:320-323 | A key that has the query spread over it and is not found, for any character outside. |
| Palette.SortIsStable | web/src/CommandPalette.tsx:327-327 | Descending by score, and the list's order among equals. |
| Palette.FuzzyFilter | web/src/CommandPalette.tsx:310-330 | The answer: up to two hundred matching items, by descending score and in list order among equals, before everything that matches and is left out; the first two hundred items for an empty query. |
| Palette.AnswerIsUnique | web/src/CommandPalette.tsx:310-330 | A query has one answer. |
| Palette.SubstringScoreIs | web/src/CommandPalette.tsx:317-317 | The score of a substring: two, less the part of the key before its first occurrence. |
| Palette.SubstringExactly | web/src/CommandPalette.tsx:317-317 | A substring stands in the key with anything before and behind it. |
| Palette.UnitsAddUp | web/src/CommandPalette.tsx:317-317 | Lengths and places count 16-bit units: one for a character of the Basic Multilingual Plane, two for any other. |
| Palette.EarlierScoresHigher | web/src/CommandPalette.tsx:317-317 | So the earlier occurrence scores higher. |
| Palette.ListedExactly | web/src/CommandPalette.tsx:313-328 | Below the cap exactly the matching items are in the answer; beyond it nothing left out scores higher than anything listed. |
| Palette.SubstringsComeFirst | web/src/CommandPalette.tsx:317-328 | In the answer every item that contains the query comes before every one it is only spread over, and is not left out for one. |

## Left out

Assumptions, and what the model takes from outside:

- Database calls in the spawn protocol succeed; a `try_wait` error means the child is gone; a PTY that cannot be opened and a program that cannot be started are one failing step. That the system hangs up a terminal whose last handle is dropped is not used. Clocks, random values, identifiers and the outcome of every fallible call are inputs or labels.
- The process registry's metadata, progress and timestamps, the events and audit entries of the spawn protocol, and the project, agent and working-directory checks before it.
- The stored form of layouts: JSON, the migration of older layouts and reading errors of rows are one parameter or one failing outcome.
- Windows.InvStep: a detach or settle persists in one step of this machine, because PersistLayoutMutation proves what its loop does; screen placement, ownership checks and the teardown when Main closes are not modelled.
- Windows.EveryRun: outside edits keep the set of window keys; `EditKeepsExactly` says what that assumption is worth.
- Splitting, moving, grouping and closing panes (src-tauri/src/services/window_reattach.rs:300-500): edits across windows that no command here uses. The ones that empty a detached window remove it, which is an edit of the kind `EditCanDrop` shows.
- Sha256.Hash: messages above 2^50 bytes, whose bit length is no exact double.
- AuditFraming.ParsesExactly: fields of 10^10 bytes and more, where ten digits do not suffice. Times are integers.
- Outbound.Verifier.VerifyOutbound: kinds of frames are those of the protocol; names that every JavaScript object has are not looked up as kinds.
- Frames.SignOutbound: the `hmac` and `sha2` crates are taken to be RFC 2104 and FIPS 180-4. Web Crypto in the audit upload, and its time window, are not modelled.
- The desktop's own nonce cache, whose look-ups also refresh an entry.
- Secrecy and unforgeability: only functional equality and injectivity are proved.
- Text in JavaScript is a sequence of Unicode scalar values: lone surrogates are left out. A comparison by 16-bit units is one by characters here, with the same outcome.
- Pairing.BuiltIsParsed: the URL parser itself. URIs that do not begin with `furx://pair?` are refused, also those whose scheme or host it would fold, and expiries are exact numbers below 2^53.
- Pairing.Desktop.GenerateCode: the session service, whose answer is an input here, and the check for the permanent secret.
- Pairing.ValidExactly: parts of an address that are not decimal digits are refused; the original also reads blanks, exponents and hexadecimal.
- Scrollback.LineBuffer.Push: the text comes decoded and stripped of escape sequences. Whether a session buffer had any output, and its context, are not modelled. The two buffers of the original are one class with two limits.
- CrashLog.PassedExactly: a clock that goes back, under which a window lasts longer and fewer pass.
- Cards.Store.DecideCard: notes, timestamps, the check of key and snooze texts (their outcome is an input), and cards changed by hand. The merge watcher's own reopening is the same update as that of new activity.
- Pause.InvStep: one task and its pane; `stop_all_agents` runs the same steps for one task after the other. Commands run one at a time, as synchronous commands do; SIGCONT in a roll-back is delivered; nobody else stops the process.
- Palette.FuzzyFilter: trimming and lower-casing, and rounding of scores, which are rationals here.
- Migrate.MigrateText: the import line that is added, and the files it runs over.
- User interfaces, SQL, the window system, HTTP, Keychain, tmux and git.
