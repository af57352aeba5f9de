# AthenaOS core models

Dafny models of the parts of AthenaOS whose behaviour is decided by explicit state: the asynchronous event ring, the AML
parser with its namespace, name codec and table dump, the accessibility key filter, the audit subsystem, the render
broker's marshalling and its VRAM window, application bundle manifests, GEM references of render clients, anti-cheat
sessions, and the desktop focus order.

`dafny verify dfyconfig.toml` checks the whole project.

Code that works by updating fields or buffers is modelled as a class or a method with loops. Its contract ties the new
state to a specification function, and the properties below are proved of that function over every input, every run or
every interleaving.

| modules | source | main results |
|---|---|---|
| `AerRing`, `AerInterleaving` | kernel/src/aer.rs | every interleaving of one producer and one consumer is a bounded FIFO queue, across counter wrap-around |
| `AmlNamespace`, `AmlLexer`, `AmlParser`, `AmlTotality`, `AmlInterpreter` | kernel/src/acpi_full.rs | parsing arbitrary bytes is total, makes progress, balances scopes and costs at most one unit of budget per byte |
| `AmlNames`, `AmlEncoding`, `AmlTrees`, `AmlLookup`, `AmlSkips` | kernel/src/acpi_full.rs | encoded declarations are read back as the namespace they denote, every path holds its last declaration, and skipped terms are left behind as a whole |
| `AcpiDump` | kernel/src/acpi_full.rs | the dumped rows are the base64 of the table, within the shared budget |
| `KeyFilter`, `KeyFilterTraces`, `KeyFilterSwitching`, `KeyFilterKeys` | kernel/src/a11y_input.rs | sticky, slow and bounce keys over whole event traces, and over runs that switch them on and off |
| `AuditLog`, `AuditRules`, `AuditSystem`, `AuditRuns` | kernel/src/audit.rs | the rotating log is a suffix of the write history; serials, losses and rate limit over whole runs |
| `RenderMarshal`, `RenderPatch`, `RenderRelay`, `RenderReturn` | kernel/src/gpu_render.rs, amdgpud/src/main.rs | a submission's pointer graph survives the trip from client to driver; what comes back to the client |
| `VramWindow` | amdgpud/src/main.rs | the cached register window behaves as a flat array, and exactly when |
| `AppBundle`, `AppBundleVerifier` | kernel/src/app_bundle.rs | the parser accepts exactly the documented format |
| `RenderClients`, `RenderSessions` | linuxkpi-drm/bringup_render.c, amdgpud/src/main.rs, kernel/src/gpu_render.rs | reference ownership over many clients, from opening an inode to dropping it |
| `AntiCheat` | kernel/src/anticheat.rs | session invariants and isolation over every run |
| `FocusOrder` | kernel/src/a11y.rs | cursor range, Tab cycles, the modal trap and its restoration |

`Bytes`, `Arithmetic` and `Wrappers` hold what the others share.

## Where code and documentation disagree

- The comment in `set_config` (kernel/src/a11y_input.rs:144) says that switching features off leaves no modifier stuck.
  This holds exactly under the condition of `SwitchOffLeavesNothingStuckIff`. It fails for a modifier that is locked
  (`ShiftCanStick`), that was held when sticky keys came on, as the shortcut Super+Alt+K does (`ShortcutLeavesStuck`), or
  that was waiting for its dwell then (`PendingModifierSticks`).
- `close_modal` is documented to restore the chrome focus (kernel/src/a11y.rs:824-825). This holds exactly under the
  condition of `CloseRestoresIff`. It fails after nested modals (`NestedCanLose`, `ClosingBothLoses`), and every second
  close clears the focus (`SecondCloseClears`).
- `vram_write` initialises its cached high part so as to force the first register write (amdgpud/src/main.rs:804). In
  the last 2 GiB window below 2^63 that write is skipped (`WriteIsFlatIff`, witness `LastWindowMisses`), and reading back
  conceals it exactly under the condition of `ReadBackIff`.
- `handle_request_attestation` returns "session ID on success, error code on failure" (kernel/src/anticheat.rs:914). The
  two overlap for the ids 1, 5, 7 and 8 (`RequestResultIsClearIff`, witness `FirstRequestLooksFailed`); a
  suspicious game's status code is an error code too (`QueryResultIsClearIff`).
- The kernel puts a client's pointers back before it returns a record (kernel/src/gpu_render.rs:588-590), but a command
  submission's record returns with an address of the daemon (`SubmissionComesBackIff`).
- The attestation policy gives a session 86400 seconds (kernel/src/anticheat.rs:510-521), but the number is added to a
  millisecond clock (kernel/src/anticheat.rs:591-600), so that a session expires after 86.4 seconds
  (`SessionLifetime`, witness `SessionEndsEarly`).
- The heartbeat deadline multiplies an interval from the caller in 64 bits; when it wraps, an active game is disconnected
  too early (`DeadlineIsThreeIntervalsIff`, witness `HugeIntervalDisconnects`).
- `normalize_path` restores a decoded name except in the cases that `Restorable` excludes (`NormalizeRoundTrip`,
  witness `UnderscoresAreLost`).
- Skipped AML terms do not always end where the ACPI specification ends them: four operators are counted one operand short
  (`ArityAgrees`), bare paths of several segments are not skipped as operands (`SkipsOperandIff`), and rooted names not as
  terms (`NameTermSkippedIff`).
- Errors of nested AML bodies, from the depth limit as well as from the budget, are dropped by the enclosing term, so
  that a successful load need not have parsed everything (`LoadOutcomeIff`, witness `OkWithoutTheBody`).

## Model

| member | source | states |
|---|---|---|
| `AerRing.MaskSurvivesWrap` | kernel/src/aer.rs:73 | the slot of a wrapped 64-bit counter is the slot of the true count, because 1024 divides 2^64 |
| `AerRing.DifferenceSurvivesWrap` | kernel/src/aer.rs:69 | the wrapped difference of two wrapped counters is their true difference |
| `AerRing.UnreadAppend` | kernel/src/aer.rs:73-85 | storing at the head slot appends to the unread events and disturbs none of them |
| `AerRing.UnreadRest` | kernel/src/aer.rs:96-99 | advancing the tail, also across wrap-around, drops exactly the oldest unread event |
| `AerRing.Ring.Push` | kernel/src/aer.rs:65-85 | refuses exactly when 1024 events are unread, otherwise appends the event to the contents |
| `AerRing.Ring.Pop` | kernel/src/aer.rs:88-101 | empty exactly when nothing is unread, otherwise returns and removes the oldest event |
| `AerInterleaving.StepKeeps` | kernel/src/aer.rs:65-101 | every atomic step of producer, consumer and lock keeps the invariant that ties counters, slots and local states to the history |
| `AerInterleaving.FifoInEveryRun` | kernel/src/aer.rs:65-101 | in every interleaving the popped events are a prefix of the pushed ones, at most 1024 are outstanding, and every dispatcher call is pushed or counted as an error |
| `AerInterleaving.SlotsNeverRace` | kernel/src/aer.rs:73-81 | in every interleaving the slot being written is neither unread nor the one being read |
| `AerInterleaving.StepRefinesQueue` | kernel/src/aer.rs:84-99 | publishing the head enqueues, publishing the tail dequeues the oldest event, every other step leaves the abstract queue unchanged |
| `AerInterleaving.RefusalsAreExact` | kernel/src/aer.rs:69-94 | a push fails exactly when 1024 events look unread from the counters it observed, a pop is empty exactly when it observed no new event |
| `AmlNamespace.ResolveAbsolute` | kernel/src/acpi_full.rs:1147-1172 | resolving any name in an absolute scope gives an absolute path |
| `AmlNamespace.CaretsResolveInAncestor` | kernel/src/acpi_full.rs:1147-1172 | a name with n carets resolves as its rest does in the n-th enclosing scope, stopping at the root |
| `AmlNamespace.InsertExtends` | kernel/src/acpi_full.rs:1174-1182 | inserting keeps the namespace well-formed, drops no key and leaves the scope stack |
| `AmlNamespace.PushPopBalanced` | kernel/src/acpi_full.rs:1136-1145 | a push, any extension and a pop restore the scope stack exactly |
| `AmlNamespace.PushPopRestoresIff` | kernel/src/acpi_full.rs:1136-1145 | push and pop balance exactly for non-empty stacks, because the last entry is never popped |
| `AmlLexer.ParseNameString` | kernel/src/acpi_full.rs:1856-1926 | reading a name never moves backwards, for arbitrary bytes |
| `AmlLexer.ParsePkgLength` | kernel/src/acpi_full.rs:1928-1949 | fails exactly on a missing or cut length field; otherwise it moves past one to four bytes inside the slice |
| `AmlLexer.ParseDataObject` | kernel/src/acpi_full.rs:1951-2035 | reading a data object never moves backwards, for arbitrary bytes |
| `AmlLexer.SkipTermArg` | kernel/src/acpi_full.rs:2071-2099 | skipping an argument never moves backwards, for arbitrary bytes |
| `AmlTotality.PackageOutcome` | kernel/src/acpi_full.rs:1385-1412 | a package term, nested bodies included, never fails, advances and costs less budget than it has bytes |
| `AmlTotality.TermNeverFails` | kernel/src/acpi_full.rs:1351-1854 | at every position of every byte string a term succeeds, strictly advances, restores scope stack and depth, keeps all keys, and spends less budget than its bytes |
| `AmlTotality.TermListOutcome` | kernel/src/acpi_full.rs:1319-1349 | a term list restores scope stack and depth on success and failure alike; it fails only by depth at entry or by a budget below its length, never as stuck |
| `AmlTotality.LoadTableSucceeds` | kernel/src/acpi_full.rs:1309-1315 | any table loads whenever the remaining budget covers its body bytes |
| `AmlTotality.FreshInterpreterLoads` | kernel/src/acpi_full.rs:1219-1349 | a fresh interpreter loads any sequence of tables whose bodies total at most 200,000 bytes |
| `AmlTotality.BudgetBoundIsTight` | kernel/src/acpi_full.rs:1319-1349 | a body of n zero bytes loads exactly when the budget is at least n |
| `AmlInterpreter.Interpreter.EnterScope` | kernel/src/acpi_full.rs:1136-1139 | pushes the resolved scope |
| `AmlInterpreter.Interpreter.LeaveScope` | kernel/src/acpi_full.rs:1141-1145 | pops a scope but never the last |
| `AmlInterpreter.Interpreter.InsertNode` | kernel/src/acpi_full.rs:1174-1182 | inserts under the resolved path |
| `AmlInterpreter.Interpreter.ReadNameString` | kernel/src/acpi_full.rs:1856-1926 | the decoding loops compute the specified name and end position |
| `AmlInterpreter.Interpreter.ReadPkgLength` | kernel/src/acpi_full.rs:1928-1949 | the length loop computes the specified weighted sum |
| `AmlInterpreter.Interpreter.ParseNamed` | kernel/src/acpi_full.rs:1378-1383 | a named object updates the namespace as specified |
| `AmlInterpreter.Interpreter.ParsePackage` | kernel/src/acpi_full.rs:1385-1412 | a package term updates all fields as specified, dropping errors of its body |
| `AmlInterpreter.Interpreter.ParseTerm` | kernel/src/acpi_full.rs:1351-1854 | one term updates all fields as specified |
| `AmlInterpreter.Interpreter.ParseTermList` | kernel/src/acpi_full.rs:1319-1349 | the loop with budget and depth counter computes the specified state and result |
| `AmlInterpreter.Interpreter.Load` | kernel/src/acpi_full.rs:1309-1315 | loading a table computes the specified state and result |
| `AmlNames.NameRoundTrip` | kernel/src/acpi_full.rs:1856-1926 | wherever an encoded name (section 20.2.2 of the ACPI specification) stands, decoding consumes exactly it and gives the trimmed dotted name |
| `AmlNames.NormalizePath` | kernel/src/acpi_full.rs:4076-4099 | the loop pads every component of the path |
| `AmlNames.NormalizeRoundTrip` | kernel/src/acpi_full.rs:4076-4099 | normalising a decoded name restores the full-width path exactly when the name is restorable, a condition on prefix and first segment |
| `AmlNames.UnderscoresAreLost` | kernel/src/acpi_full.rs:4076-4099 | the root's all-underscore child normalises to the bare root |
| `AmlEncoding.PkgLengthRoundTrip` | kernel/src/acpi_full.rs:1928-1949 | package lengths in the encoding of section 20.2.4 of the ACPI specification are read back |
| `AmlEncoding.PkgLengthValue` | kernel/src/acpi_full.rs:1928-1949 | the length for any lead byte, its reserved bits ignored, as a sum of weighted bytes |
| `AmlEncoding.IntegerRoundTrip` | kernel/src/acpi_full.rs:1951-2069 | every 64-bit integer is read back from its shortest encoding |
| `AmlEncoding.DataRoundTrip` | kernel/src/acpi_full.rs:1951-2035 | integers, strings, buffers and packages are read back, each encoding being consumed exactly |
| `AmlTrees.ItemParses` | kernel/src/acpi_full.rs:1351-1854 | one encoded declaration, under any budget and depth, is parsed to exactly the meaning of its kept part, at the cost of its terms, and never reports an error |
| `AmlTrees.ListParses` | kernel/src/acpi_full.rs:1319-1349 | an encoded list of nested declarations, under any budget and depth, is parsed to exactly the namespace that its kept part denotes; it fails exactly when it is not gone through |
| `AmlTrees.LoadTableDenotes` | kernel/src/acpi_full.rs:1309-1349 | loading any encoded table, whatever its nesting and the budget, leaves exactly the namespace of the tree cut at the depth limit as far as the budget pays, and charges its terms |
| `AmlTrees.LoadOutcomeIff` | kernel/src/acpi_full.rs:1309-1349 | a load succeeds exactly when the budget exceeds the terms before the last declaration; everything is parsed exactly when the budget covers all terms and no body is too deep |
| `AmlTrees.OkWithoutTheBody` | kernel/src/acpi_full.rs:1407-1411 | with one unit of budget a Scope around an event loads with success and without the event |
| `AmlTrees.CutPackageIsSkipped` | kernel/src/acpi_full.rs:1385-1396 | a package with a cut length declares nothing and only its operator is skipped |
| `AmlTrees.CutSkippedPackage` | kernel/src/acpi_full.rs:1453-1468 | a skipped package with a cut length leaves only its operator behind |
| `AmlTrees.CutObjectIsDropped` | kernel/src/acpi_full.rs:1636-1655 | a region or mutex whose name ends the bytes declares nothing |
| `AmlTrees.NameOverrunsPackage` | kernel/src/acpi_full.rs:1397-1411 | what each kind of package declares when it ends inside its own name |
| `AmlLookup.ResolveIs` | kernel/src/acpi_full.rs:1147-1172 | resolution joins the scope's components, as far as the prefix leaves them, with the name's segments |
| `AmlLookup.InsertStores` | kernel/src/acpi_full.rs:1174-1182 | inserting stores the object without children under that path, lists it as the last child of the current scope, and leaves every other node alone |
| `AmlLookup.DenoteAllFinds` | kernel/src/acpi_full.rs:1319-1349 | looking up any path after any declarations gives the value of the last declaration of that path, computed from the declarations alone, or what was there |
| `AmlLookup.LoadedTableIsFound` | kernel/src/acpi_full.rs:1309-1349 | after loading any encoded table, looking up any path gives the value of its last declaration among those that depth and budget leave |
| `AmlLookup.LoadedNameIsFound` | kernel/src/acpi_full.rs:1378-1383 | after loading a named datum, its path holds its data |
| `AmlSkips.SkipsOperandIff` | kernel/src/acpi_full.rs:2071-2099 | skipping an operand ends behind its encoding exactly when it is not a bare path of several segments |
| `AmlSkips.ArityAgrees` | kernel/src/acpi_full.rs:1475-1600 | operands are counted as section 20.2.5.4 of the ACPI specification does, one short for Not, FindSetLeftBit, FindSetRightBit and Mid |
| `AmlSkips.OperatorSkipped` | kernel/src/acpi_full.rs:1475-1600 | a skipped operator with its operands is left behind as a whole |
| `AmlSkips.DataTermSkipped` | kernel/src/acpi_full.rs:1357-1376 | integers and strings that stand as terms are left behind as a whole |
| `AmlSkips.AliasSkipped` | kernel/src/acpi_full.rs:1469-1474 | an alias ends behind its two names |
| `AmlSkips.MatchSkipped` | kernel/src/acpi_full.rs:1557-1564 | a match ends behind its list, two comparisons and start index |
| `AmlSkips.CreateFieldSkipped` | kernel/src/acpi_full.rs:1602-1617 | a buffer field ends behind two operands and a name |
| `AmlSkips.ExternalSkipped` | kernel/src/acpi_full.rs:1618-1626 | an external declaration ends behind its name and two bytes |
| `AmlSkips.ExtendedSkipped` | kernel/src/acpi_full.rs:1795-1823 | extended operators end behind their operands |
| `AmlSkips.ExtendedFieldSkipped` | kernel/src/acpi_full.rs:1824-1830 | a bit-wise buffer field ends behind three operands and a name |
| `AmlSkips.FatalSkipped` | kernel/src/acpi_full.rs:1811-1818 | a fatal error ends behind its five bytes and operand |
| `AmlSkips.FieldListSkipped` | kernel/src/acpi_full.rs:1656-1676 | field lists are skipped as a whole |
| `AmlSkips.NameTermSkippedIff` | kernel/src/acpi_full.rs:1832-1854 | a name that stands as a term is left behind exactly when no root or caret precedes it |
| `AmlSkips.MethodFlags` | kernel/src/acpi_full.rs:1414-1452 | the flag byte is argument count, serialisation bit and synchronisation level |
| `AmlSkips.CutNames` | kernel/src/acpi_full.rs:1856-1926 | what is read of a name that the bytes cut off |
| `AmlSkips.CutData` | kernel/src/acpi_full.rs:1951-2035 | what is read of a datum that the bytes cut off |
| `AcpiDump.Base64RoundTrip` | kernel/src/acpi_full.rs:1240-1258 | base64 (section 4 of RFC 4648) has four characters per started group and decodes back |
| `AcpiDump.SymbolIsAlphabet` | kernel/src/acpi_full.rs:1240-1258 | the characters are those of Table 1 of RFC 4648 |
| `AcpiDump.Base64Split` | kernel/src/acpi_full.rs:1283-1287 | encoding splits after any multiple of three bytes |
| `AcpiDump.RowsAreBase64` | kernel/src/acpi_full.rs:1262-1295 | without newlines the rows are the base64 of the whole table, decode to it and have the charged length |
| `AcpiDump.Dumper.EncodeRow` | kernel/src/acpi_full.rs:1283-1288 | the chunk loop writes the base64 of its row |
| `AcpiDump.Dumper.Dump` | kernel/src/acpi_full.rs:1262-1295 | charges first, then writes the framed rows only within the budget |
| `AcpiDump.DumpIsFramed` | kernel/src/acpi_full.rs:1279-1294 | a dump is its title's begin line, the rows and its title's end line |
| `AcpiDump.SkipIsFinal` | kernel/src/acpi_full.rs:1264-1273 | after a skipped table nothing is written, since skipped tables are charged too |
| `AcpiDump.DumpsWithinBudget` | kernel/src/acpi_full.rs:1262-1295 | over every run the log consists of encoded characters and exactly counted framing, and the encoded characters stay within 600 KiB |
| `KeyFilter.A11yKeyFilter.Configure` | kernel/src/a11y_input.rs:142-153 | drops latched, locked and pending keys of the features that are switched off |
| `KeyFilter.A11yKeyFilter.WrapKeyDown` | kernel/src/a11y_input.rs:163-181 | emits the key between latched downs and ups and uses the latch up |
| `KeyFilter.A11yKeyFilter.Key` | kernel/src/a11y_input.rs:184-195 | passes everything through when all features are off, otherwise handles the press or release |
| `KeyFilter.A11yKeyFilter.KeyDown` | kernel/src/a11y_input.rs:197-256 | bounce, sticky, slow and plain presses, in this order |
| `KeyFilter.A11yKeyFilter.KeyUp` | kernel/src/a11y_input.rs:258-284 | a release completes or rejects a pending slow key, is swallowed or passes |
| `KeyFilter.A11yKeyFilter.Tick` | kernel/src/a11y_input.rs:289-302 | a tick accepts a pending key once its dwell has passed |
| `KeyFilterTraces.StickyRun` | kernel/src/a11y_input.rs:163-302 | with sticky keys on, no run presses a modifier that is down or releases one that is up; latched and locked stay disjoint; after each call exactly the locked modifiers are down |
| `KeyFilterTraces.ModifiersHeldForKey` | kernel/src/a11y_input.rs:163-181 | an ordinary key goes down while exactly the locked and latched modifiers are down, and the latch serves that one key |
| `KeyFilterTraces.DoubleTapLocksIff` | kernel/src/a11y_input.rs:209-246 | in every run the second of two undisturbed taps, by either key of the modifier, locks it exactly within the double-tap window |
| `KeyFilterTraces.NextTapLatches` | kernel/src/a11y_input.rs:209-246 | an accepted key, a lock or an unlock ends the wait for a double tap: the next tap only latches |
| `KeyFilterTraces.ShiftCanStick` | kernel/src/a11y_input.rs:142-153 | a double tap of Shift before switching off leaves Shift down |
| `KeyFilterTraces.AcceptsIffEmits` | kernel/src/a11y_input.rs:197-302 | in every run an ordinary key-down is emitted exactly at the steps that accept the key |
| `KeyFilterTraces.SlowKeysWaitForDwell` | kernel/src/a11y_input.rs:247-302 | every ordinary key-down under slow keys comes from its own press, held at least the dwell with no release between |
| `KeyFilterTraces.SlowKeysComeThrough` | kernel/src/a11y_input.rs:247-302 | a press held undisturbed for the dwell is emitted at the tick or release that ends it |
| `KeyFilterTraces.BounceKeysDropExactly` | kernel/src/a11y_input.rs:200-208 | without slow keys a press is emitted exactly when it is of another key than the last accepted one or outside the window |
| `KeyFilterTraces.BounceKeysKeepApart` | kernel/src/a11y_input.rs:200-208 | adjacent accepted downs of one key are at least the bounce window apart |
| `KeyFilterSwitching.DownIffTouched` | kernel/src/a11y_input.rs:142-302 | in every run, with features switched at any time, a modifier is logically down exactly when its last touch pressed it, or it was down before and is untouched |
| `KeyFilterSwitching.SwitchOffLeavesNothingStuckIff` | kernel/src/a11y_input.rs:142-153 | after any run from a fresh filter with features switched at any time, switching off leaves no modifier stuck exactly when each one last touched by a press is still held |
| `KeyFilterSwitching.StickyPhaseLeaves` | kernel/src/a11y_input.rs:142-302 | after a sticky phase of any run a modifier is down exactly when the phase leaves it locked, or when it was down before and the phase neither tapped it before an accepted key nor double-tapped it |
| `KeyFilterSwitching.ShortcutLeavesStuck` | kernel/src/a11y_input.rs:276-278 | Super and Alt held while sticky keys come on, released and sticky keys off: both are stuck although nothing was ever locked |
| `KeyFilterSwitching.PendingModifierSticks` | kernel/src/a11y_input.rs:289-302 | a modifier waiting for its slow-keys dwell when sticky keys come on goes down and stays down |
| `KeyFilterKeys.ReleasesComeThrough` | kernel/src/a11y_input.rs:258-284 | in every run a release of an ordinary key emits its key-up, once and last, unless its press still waits; nothing else emits one |
| `KeyFilterKeys.KeysFollowFingers` | kernel/src/a11y_input.rs:184-284 | without slow and bounce keys a key is logically down exactly while it is physically held |
| `KeyFilterKeys.CountersTell` | kernel/src/a11y_input.rs:163-284 | in every run the counters are the bounced presses, the early releases and the keys that used a latch |
| `AuditLog.TallyClosedForm` | kernel/src/audit.rs:464-477 | count and rotations after N writes in closed form, for every capacity |
| `AuditLog.NeverFull` | kernel/src/audit.rs:464-477 | at capacity 4096 the buffer never reaches the threshold between calls |
| `AuditLog.AuditLogBuffer.constructor` | kernel/src/audit.rs:447-462 | a new buffer is valid, with an empty history |
| `AuditLog.AuditLogBuffer.Write` | kernel/src/audit.rs:464-477 | appends to the history; the live slots stay its most recent records |
| `AuditLog.AuditLogBuffer.Rotate` | kernel/src/audit.rs:494-499 | discards the oldest quarter and keeps the rest in place |
| `AuditLog.AuditLogBuffer.ReadLatest` | kernel/src/audit.rs:479-492 | returns the last min(n, count) records of the history in order |
| `AuditRules.ComparisonsMean` | kernel/src/audit.rs:186-197 | exactly one of less, equal and greater holds, by the order of the words, and the other three are their negations |
| `AuditRules.BitOperatorsMean` | kernel/src/audit.rs:186-197 | BitTest asks for every bit of the rule's value, BitMask for some common bit |
| `AuditRules.EqualRuleMatches` | kernel/src/audit.rs:854-877 | a rule for one value of one field matches exactly the covered calls with that value in that field |
| `AuditRules.FirstRuleDecides` | kernel/src/audit.rs:990-1008 | the first rule decides if it matches, and otherwise the rest do |
| `AuditRules.EvaluateExit` | kernel/src/audit.rs:990-1008 | returns the action of the first matching rule, none exactly when no rule matches, and Never exactly when that suppresses the call |
| `AuditRules.CheckExcluded` | kernel/src/audit.rs:1010-1022 | true exactly when some exclude rule names the event type |
| `AuditRules.ExcludeRuleMeans` | kernel/src/audit.rs:1010-1022 | an exclude rule excludes exactly the type that it names by equality |
| `AuditRules.ListsAddUp` | kernel/src/audit.rs:1010-1022 | a type is excluded by a list exactly when some part of the list excludes it |
| `AuditRules.CheckFileWatch` | kernel/src/audit.rs:1028-1030 | true exactly when some watch covers path and access |
| `AuditRules.WatchMeans` | kernel/src/audit.rs:411-418 | a watch covers exactly its path, for accesses that share a permission |
| `AuditSystem.AuditSystem.CheckRateLimit` | kernel/src/audit.rs:1090-1100 | counts the call within its second and compares with the limit |
| `AuditSystem.AuditSystem.SendToDaemon` | kernel/src/audit.rs:699-708 | appends to a bounded queue that drops its oldest message |
| `AuditSystem.SendKeepsNewest` | kernel/src/audit.rs:699-708 | a registered daemon's queue keeps the newest 1024 messages |
| `AuditSystem.AuditSystem.LogSyscall` | kernel/src/audit.rs:1116-1147 | skip, rate limit, suppression, backlog and record, in this order; panics exactly when specified |
| `AuditSystem.AuditSystem.LogEvent` | kernel/src/audit.rs:1149-1167 | records an event under the next serial unless disabled or excluded |
| `AuditSystem.AuditSystem.LogFileAccess` | kernel/src/audit.rs:1169-1192 | records a watched access under the next serial |
| `AuditRuns.SerialsAreConsecutive` | kernel/src/audit.rs:1068-1192 | in every run from a new system the latest n records carry consecutive serials ending at serial - 1, and the daemon's queue holds serials of logged calls in order |
| `AuditRuns.LogIsWhatWasLogged` | kernel/src/audit.rs:1116-1192 | over every run the log is exactly the records of the logged operations, with their types, times and texts, in order |
| `AuditRuns.IgnoredIff` | kernel/src/audit.rs:1116-1182 | a disabled system ignores every operation, an enabled one exactly the excluded types and unwatched accesses |
| `AuditRuns.EveryCallIsAccountedFor` | kernel/src/audit.rs:1116-1147 | calls = skipped + suppressed + growth of backlog + growth of lost, and the log grows by logged calls and recorded events |
| `AuditRuns.RunsToTheEnd` | kernel/src/audit.rs:1102-1114 | outside panic mode no run panics |
| `AuditRuns.BacklogStaysWithinLimit` | kernel/src/audit.rs:1132-1146 | the backlog never passes a limit that stays fixed |
| `AuditRuns.FullBacklogIsFinal` | kernel/src/audit.rs:1132-1146 | the backlog is never worked off: once at a fixed limit, no later call is logged, and the log grows by events alone |
| `AuditRuns.LoggedCallsAreBounded` | kernel/src/audit.rs:1132-1146 | a new system whose limit is not changed logs at most 8192 calls ever |
| `AuditRuns.LimiterIsExact` | kernel/src/audit.rs:1090-1100 | within one second the limiter lets through exactly the first calls up to the limit, less those already counted |
| `RenderMarshal.AcceptedIffSizesAddUp` | amdgpud/src/main.rs:1367-1411 | a framed payload is accepted exactly when 24 + 24*count + 4*(sum of dwords) is its length |
| `RenderMarshal.DataTiles` | amdgpud/src/main.rs:1386-1411 | in an accepted payload each byte behind the headers is in exactly one data range, and no range leaves the payload |
| `RenderPatch.PatchSubmission` | amdgpud/src/main.rs:1363-1424 | dispatched exactly for a 24-byte argument and an accepted payload; then all three kinds of pointers are right, and in every case only pointer fields change |
| `RenderPatch.PatchChunk` | amdgpud/src/main.rs:1388-1411 | one turn of the loop links one more chunk, or reports that its data does not fit |
| `RenderPatch.PatchBufferList` | amdgpud/src/main.rs:1334-1362 | dispatched exactly when the entries fill the rest of the payload, and only the pointer field changes |
| `RenderRelay.PatchedMeans` | amdgpud/src/main.rs:1384-1411 | following the patched pointers in the daemon's memory yields the payload's chunks |
| `RenderRelay.CopyHeaders` | kernel/src/gpu_render.rs:488-499 | copies the header behind every pointer, or shows that the submission is unreadable |
| `RenderRelay.CopyData` | kernel/src/gpu_render.rs:500-517 | appends the data of every chunk, or shows that the submission is unreadable or too large |
| `RenderRelay.MarshalSubmission` | kernel/src/gpu_render.rs:468-521 | succeeds exactly for 1 to 64 readable chunks that fit; the payload is acceptable and denotes the client's chunks |
| `RenderRelay.Relay` | kernel/src/gpu_render.rs:468-521 | end to end, the daemon dispatches exactly what the kernel takes, and the driver finds the client's own chunks behind the patched pointers |
| `RenderReturn.FinishResponse` | kernel/src/gpu_render.rs:577-608 | the client gets a status, or the record with every replaced pointer put back; short responses and unwritable ranges fail |
| `RenderReturn.PointersComeBack` | kernel/src/gpu_render.rs:577-592 | every pointer with an entry comes back as the client's own, whatever daemon and driver put there |
| `RenderReturn.OtherBytesStay` | kernel/src/gpu_render.rs:588-590 | nothing outside the pointer fields is changed |
| `RenderReturn.SubmissionComesBackIff` | kernel/src/gpu_render.rs:468-521 | a submission has no entry: its record comes back with the daemon's address, and the client's pointer is kept exactly when the two are equal |
| `VramWindow.FlatWriteAt` | amdgpud/src/main.rs:798-808 | a flat write changes exactly the addressed dwords to the given data |
| `VramWindow.WriteIsFlatIff` | amdgpud/src/main.rs:798-808 | a non-empty write reaches the flat array exactly when its last offset is below 2^63 and either its first is below the last window or the high register is already there |
| `VramWindow.LastWindowMisses` | amdgpud/src/main.rs:804 | a dword for the last window lands at the start of video memory |
| `VramWindow.Gpu.MmWrite` | amdgpud/src/main.rs:289-297 | writes one dword at the window selected by offset, cache and old high register |
| `VramWindow.Gpu.MmRead` | amdgpud/src/main.rs:276-284 | reads one dword at the window selected by offset, cache and old high register |
| `VramWindow.Gpu.VramWrite` | amdgpud/src/main.rs:798-808 | for all 64-bit offsets, writes each dword to its target: the offset modulo 2^63, or the stale window while a transfer stays in the sentinel window it starts in; nothing when unmapped |
| `VramWindow.Gpu.VramRead` | amdgpud/src/main.rs:810-819 | reads the same targets; zeros when unmapped |
| `VramWindow.ReadBackIff` | amdgpud/src/main.rs:798-819 | for every memory and data, reading back returns what was written exactly under a condition on offset, size and old high register |
| `VramWindow.Gpu.WriteThenRead` | amdgpud/src/main.rs:798-819 | reading back returns the written data under that condition, which includes misdirected writes within one window |
| `AppBundle.ParseManifest` | kernel/src/app_bundle.rs:183-259 | the loop computes the specified manifest or error |
| `AppBundle.ParseDepsIff` | kernel/src/app_bundle.rs:218-252 | dependencies parse exactly when they are valid and their encoding stands at the cursor |
| `AppBundle.ParseIff` | kernel/src/app_bundle.rs:22-259 | the parser returns m exactly when m is within the limits, in UTF-8, and its documented encoding is a prefix of the input |
| `AppBundle.EncodeParses` | kernel/src/app_bundle.rs:22-41 | parsing inverts encoding whatever follows |
| `AppBundle.HeaderErrorsIff` | kernel/src/app_bundle.rs:183-216 | each error of a manifest has its exact condition |
| `AppBundle.DepsErrorIff` | kernel/src/app_bundle.rs:218-252 | the dependencies fail with the error of the first that is refused |
| `AppBundle.DepErrorsIff` | kernel/src/app_bundle.rs:219-245 | each error of a dependency has its exact condition |
| `AppBundleVerifier.RegisterLookup` | kernel/src/app_bundle.rs:138-152 | registering changes the lookup of one name and version only |
| `AppBundleVerifier.SatisfiedBy` | kernel/src/app_bundle.rs:263-287 | after a registration a dependency on it is satisfied exactly by the registered hash |
| `AppBundleVerifier.UnsatisfiedInOrder` | kernel/src/app_bundle.rs:263-287 | the reported names are those of the unsatisfied dependencies, in order |
| `AppBundleVerifier.RegisterKeepsSatisfied` | kernel/src/app_bundle.rs:138-143 | installing a component that replaces no other hash breaks no manifest |
| `AppBundleVerifier.PackIsLossless` | kernel/src/app_bundle.rs:384-386 | the packed word yields its three fields back |
| `AppBundleVerifier.CodesAreDistinct` | kernel/src/app_bundle.rs:176-181 | every error has a code of its own, none that of success |
| `AppBundleVerifier.Registry.RegisterComponent` | kernel/src/app_bundle.rs:345-376 | registers exactly when both ranges are readable, the digest copy gives 32 bytes and the registry is initialised; otherwise nothing changes |
| `AppBundleVerifier.Registry.Verify` | kernel/src/app_bundle.rs:263-287 | ok and bad sum to the dependencies, the bad names are the unsatisfied ones in order, and none is bad exactly when all are installed at their hashes |
| `AppBundleVerifier.Registry.SysVerify` | kernel/src/app_bundle.rs:310-343 | the result word carries the first error, or counts that sum to the number of dependencies; its bad field is zero exactly when every dependency is installed at its hash |
| `RenderClients.MapsIff` | linuxkpi-drm/bringup_render.c:235-280 | mapping succeeds exactly for an aligned request that fits, finds a live and allowed object with good pages, and finds room |
| `RenderClients.MapErrorsIff` | linuxkpi-drm/bringup_render.c:235-285 | each error code has its exact condition |
| `RenderClients.TablesHoldOnlyAllowed` | linuxkpi-drm/bringup_render.c:253-256 | in every run each table entry was allowed to its client when it was mapped |
| `RenderClients.RenderClient.MmapPages` | linuxkpi-drm/bringup_render.c:222-285 | returns the specified result; success keeps one reference and one table entry and hands out the pages, failure changes neither count nor table |
| `RenderClients.RenderClient.CopyPages` | linuxkpi-drm/bringup_render.c:263-274 | copies the page addresses or reports the first bad page |
| `RenderClients.RenderClient.Close` | linuxkpi-drm/bringup_render.c:198-215 | returns every reference in the table exactly once |
| `RenderClients.ReferencesAreOwned` | linuxkpi-drm/bringup_render.c:29-37 | in every run the references held on each object are its occurrences in the tables of open clients |
| `RenderClients.MappedIsAlive` | linuxkpi-drm/bringup_render.c:32-34 | an object mapped by an open client has a reference, whatever others do |
| `RenderClients.TrackedIffFreshIds` | amdgpud/src/main.rs:1266-1277 | over every run the broker can close all open clients exactly when no id in use was opened again |
| `RenderSessions.EventKeeps` | kernel/src/gpu_render.rs:77-92 | every mint, announcement, drop, request, service, crash and registration keeps ids fresh and every close promised |
| `RenderSessions.EveryClientStaysTracked` | kernel/src/gpu_render.rs:69-92 | from boot, in every interleaving of kernel, queue and daemon, every open client stays tracked and references are owned, because the kernel's counter never reissues an id |
| `RenderSessions.DroppingAllReturnsAll` | linuxkpi-drm/bringup_render.c:198-215 | once every inode is dropped and the queue is served, the seam holds no reference |
| `AntiCheat.RunKeeps` | kernel/src/anticheat.rs:916-1191 | in every run games and protected processes have the same keys, every session has a registered game, and every status is determined by its violation count |
| `AntiCheat.IdsAreNeverReused` | kernel/src/anticheat.rs:581-605 | the ids issued in a run are consecutive |
| `AntiCheat.RequestResultIsClearIff` | kernel/src/anticheat.rs:912-940 | in every run from a new manager the k-th successful request returns k, and can be told from every failure exactly when k is not 1, 5, 7 or 8 |
| `AntiCheat.FirstRequestLooksFailed` | kernel/src/anticheat.rs:912-940 | the first request of the first game returns the code of a missing manager |
| `AntiCheat.QueryResultIsClearIff` | kernel/src/anticheat.rs:1134-1153 | in every run the answer about a game can be told from a refusal exactly unless one or two violations are on record |
| `AntiCheat.QueryTells` | kernel/src/anticheat.rs:1134-1153 | the answer to a query follows from the reports since the game was last unregistered |
| `AntiCheat.ProcessesAreIsolated` | kernel/src/anticheat.rs:830-850 | in every run from a new manager, no stretch of calls by other tasks without the daemon right changes anything recorded about a process |
| `AntiCheat.SessionLifetime` | kernel/src/anticheat.rs:581-605 | in every run an admitted verification succeeds exactly when it is clean and within 86400 milliseconds, is invalid exactly when in time but not clean, and expired exactly when late; code and policy disagree exactly about clean ones in the rest of the promised 86400 seconds |
| `AntiCheat.VerifiedIffLastClean` | kernel/src/anticheat.rs:607-655 | in every run a session is recorded as verified exactly when its last timely verification was clean |
| `AntiCheat.VerifyResultsAre` | kernel/src/anticheat.rs:946-989 | the code of every verification |
| `AntiCheat.ResultsAre` | kernel/src/anticheat.rs:916-1191 | the code of every other admitted call, by what is registered |
| `AntiCheat.DeniedIff` | kernel/src/anticheat.rs:830-850 | callers that do not hold the right, on themselves or as a daemon, get exactly the permission error and change nothing |
| `AntiCheat.SessionEndsEarly` | kernel/src/anticheat.rs:591-600 | ninety seconds into the promised day a verification reports expiry |
| `AntiCheat.ViolationsAccumulate` | kernel/src/anticheat.rs:1045-1128 | over every run the violations on record are those reported since the last successful unregistration |
| `AntiCheat.StatusTellsReports` | kernel/src/anticheat.rs:916-1191 | in every run from a new manager the invariant holds, and a game's status is determined by the reports since it was last unregistered |
| `AntiCheat.BannedStartsOver` | kernel/src/anticheat.rs:996-1079 | a banned game with the write right unregisters and registers itself and is active without a violation |
| `AntiCheat.VerificationIgnoresReports` | kernel/src/anticheat.rs:946-989 | no report changes the outcome of a verification |
| `AntiCheat.DeadlineIsThreeIntervalsIff` | kernel/src/anticheat.rs:1158-1191 | an active game is disconnected exactly after three missed intervals if and only if that deadline fits into 64 bits or wraps to the last instant |
| `AntiCheat.HugeIntervalDisconnects` | kernel/src/anticheat.rs:1158-1191 | an interval of a third of the clock's range disconnects a game after three milliseconds |
| `AntiCheat.HeartbeatsAreKept` | kernel/src/anticheat.rs:1158-1191 | in every run the deadline counts from the registration or the last accepted heartbeat |
| `AntiCheat.HeartbeatStatus` | kernel/src/anticheat.rs:1158-1191 | an accepted heartbeat brings a disconnected game back and changes no other status |
| `AntiCheat.AntiCheatManager.RequestAttestation` | kernel/src/anticheat.rs:916-940 | creates an unverified session with the next id for a registered game behind the write gate; otherwise only an error |
| `AntiCheat.AntiCheatManager.VerifyAttestation` | kernel/src/anticheat.rs:946-989 | gated on the session's owner; records the outcome of an unexpired session and reports it |
| `AntiCheat.AntiCheatManager.RegisterGame` | kernel/src/anticheat.rs:996-1039 | adds an active game and its protected process unless the game is registered |
| `AntiCheat.AntiCheatManager.UnregisterGame` | kernel/src/anticheat.rs:1045-1079 | removes the game, its process and all its sessions |
| `AntiCheat.AntiCheatManager.ReportViolation` | kernel/src/anticheat.rs:1090-1128 | adds one violation, ends trust and sets the status that the count determines |
| `AntiCheat.AntiCheatManager.QueryStatus` | kernel/src/anticheat.rs:1134-1153 | returns the status code or an error and changes nothing |
| `AntiCheat.AntiCheatManager.SendHeartbeat` | kernel/src/anticheat.rs:1158-1191 | a late heartbeat of an active game disconnects it, a later one revives it |
| `FocusOrder.CursorInRange` | kernel/src/a11y.rs:791-930 | in every run the cursor is none or in the active layer |
| `FocusOrder.TabCycle` | kernel/src/a11y.rs:849-860 | k Tabs move cursor i to (i + k) mod n |
| `FocusOrder.TabReaches` | kernel/src/a11y.rs:849-860 | every item of the active layer is reached by fewer than n Tabs |
| `FocusOrder.MovesFromNothing` | kernel/src/a11y.rs:849-876 | with nothing focused Tab goes to the first item and Shift+Tab to the last |
| `FocusOrder.ClampIs` | kernel/src/a11y.rs:922-930 | a cursor past the end moves to the last item |
| `FocusOrder.TabInverses` | kernel/src/a11y.rs:849-876 | Tab and Shift+Tab undo each other |
| `FocusOrder.Trapped` | kernel/src/a11y.rs:812-822 | while a modal is open only its items are focused, and the saved cursor follows the chrome alone |
| `FocusOrder.CloseRestores` | kernel/src/a11y.rs:817-830 | for a modal opened in any state, closing gives the cursor that the open met, clamped to every chrome set meanwhile |
| `FocusOrder.CloseRestoresExactly` | kernel/src/a11y.rs:824-830 | with the chrome unchanged exactly the old item is focused again |
| `FocusOrder.MovesCycle` | kernel/src/a11y.rs:849-876 | in a modal the cursor moves round its items by the number of Tabs less Shift+Tabs, whatever happens to the chrome |
| `FocusOrder.NestedClose` | kernel/src/a11y.rs:817-830 | after a modal over a modal, closing leaves the outer modal's cursor clamped to the chrome, whatever came before |
| `FocusOrder.CloseAfterAnyRun` | kernel/src/a11y.rs:804-830 | closing after any run from the chrome, with opens and closes anywhere, leaves the cursor that the last unclosed open met, clamped to each chrome set since, or none when nothing is open |
| `FocusOrder.CloseRestoresIff` | kernel/src/a11y.rs:817-830 | in every run from a new focus order, closing brings back an earlier chrome focus exactly when that cursor clamps to it, and with nothing open exactly when there was no focus |
| `FocusOrder.MetOverModal` | kernel/src/a11y.rs:817-822 | an open over another modal meets that modal's net Tabs, modulo its size |
| `FocusOrder.SecondCloseClears` | kernel/src/a11y.rs:826-830 | in any state, a second close with no open since the first leaves no focus |
| `FocusOrder.ClosingBothLoses` | kernel/src/a11y.rs:817-830 | open, open, close restores the focus, and the second close loses it |
| `FocusOrder.NestedCanLose` | kernel/src/a11y.rs:817-830 | two nested modals can move the chrome focus |
| `FocusOrder.FocusRing.ReplaceChrome` | kernel/src/a11y.rs:804-811 | replaces the chrome and clamps the cursor, or the saved cursor behind a modal |
| `FocusOrder.FocusRing.Open` | kernel/src/a11y.rs:817-822 | saves the cursor and focuses the first item of the modal, if any |
| `FocusOrder.FocusRing.Close` | kernel/src/a11y.rs:826-830 | leaves the modal and restores the saved cursor, clamped to the chrome |
| `FocusOrder.FocusRing.Forward` | kernel/src/a11y.rs:849-860 | moves the cursor within the active layer and returns the item it then focuses |
| `FocusOrder.FocusRing.Backward` | kernel/src/a11y.rs:864-876 | moves the cursor within the active layer and returns the item it then focuses |

## Left out

- Weak memory beyond stale reads of the other counter: the ring's steps are sequentially consistent otherwise.
- Several registered event rings: the dispatcher is modelled for one ring, and waking threads is not modelled.
- The identity attributes of a namespace node, field and reference values, and evaluation of AML methods.
- Counter widths: serials, ids, counters, times and reference counts are unbounded. The event ring's counters, the
  little-endian words, the index registers and the heartbeat deadline are modelled with their widths, wrapping as in the
  release build; a debug build would abort instead.
- Bit masks of modifiers, permissions and system calls are sets, `and` on audit words is defined on naturals, and the
  words of a package length are summed, not or-ed.
- Key repeat timing (`repeat_due`), procfs text, log messages, record text and the smoketests.
- Audit sessions and integrity measurement, the rule lists that logging never consults, and the truncation of message
  sequence numbers to 32 bits.
- The version and info arms of the render broker, and client memory that changes while the kernel reads it.
- Misaligned video memory offsets, and transfers whose end does not fit into 64 bits.
- The seeded contents of the component registry, and reading the manifest from user memory.
- Everything behind the foreign calls of the render seam: object lookup, permission and page tables are inputs.
- Cryptographic checks of attestation, whose outcome is an input, the kernel-internal registration functions, and the
  periodic scan.
- Screen geometry, roles and names of focus items.
