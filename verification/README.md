# A verified model of GoRemote's stateful core

GoRemote keeps a forest of folders and connections, talks Telnet, shows sessions
in split panes, and moves events, session output and plugin requests between
goroutines. This project models the parts of it that hold state and can go
wrong, and proves what they promise. `dafny verify dfyconfig.toml` checks all of
it.

- **The connection forest.** `Trees` is the mutable tree with its four maps and
  its child lists; `Forests` says what each edit does as a value and proves the
  invariant over whole runs, with `Ancestry` for the parent relation, and
  `Edits` spells out node by node what an edit changes. `Walks` determines the
  visit sequence from names and IDs alone, `WalkOrder` says in which order it
  comes, and `Snapshots` what the walk does when a child list names nodes that
  are gone. On top of it:
  duplicating a branch while the tree is being walked (`Duplication`), merging
  an import (`Imports`), saving and loading (`Inventory`), and the independent
  integrity check (`Integrity`).
- **Split panes.** `PaneTree` keeps real nodes with parent pointers and proves
  that splitting, removing and restoring re-link them correctly.
- **Telnet.** `Telnet` gives the protocol as a language of items and proves that
  the byte machine decodes it, both ways; `Negotiation` is the connection
  wrapper, `TelnetExchange` two negotiators facing each other, `Prompt` the
  bounded search for a login prompt. The documents are RFC 854, RFC 855,
  RFC 1073 and RFC 1091.
- **Concurrent delivery.** `EventBus`, `SessionOutput` and `Multiplexer` are
  step systems: every statement is about all interleavings. `Frames` is the wire
  format below the multiplexer, `Tally` the sums behind the counters.
- **State machines with failure.** `Backups` and `Restore` for the backup
  directory and the swap protocol, `Quarantine` for credential providers,
  `Recents` for the bounded list.

`Octets` and `Identifiers` hold bytes and node IDs, `Wrappers` the option type,
`Lists` the one list edit that several parts make.

Fresh IDs come from a supply of distinct, non-nil IDs that the tree neither
holds nor lists and that is long enough; clock readings, failing steps and what
arrives on a connection are parameters, and every statement is about all of
their values.

Places where the code does less than its comments say, each with a proof of the
failing case and of the exact condition under which the promise holds:

- Removing a root-level connection leaves its ID in the root's child list
  (`Forests.RootRemovalLeavesEntry`, `Forests.RunTheorem`). From then on a walk
  hands its visitor a nil node, crashes in the sort, or visits a node twice
  (`Snapshots.TwoEditsBreakTheWalk`); which of these is decided by whether the
  removed IDs name a connection again and whether the root lists anything else
  (`Snapshots.WalkExactly`, `Snapshots.RunWalks`). Duplicating then panics or
  copies too much (`Duplication.DuplicateNode`), and saving crashes or writes
  what cannot be loaded again (`Inventory.Reload`).
- The validator accepts a nil ID that the decoder refuses
  (`Integrity.NilIdSlipsThrough`).
- Two negotiators never stop agreeing on SGA or BINARY
  (`TelnetExchange.ExchangeStops`); RFC 854 asks that a request for a mode
  already in effect not be acknowledged.
- A plugin caller is stranded, answered neither by a reply nor by a loss notice,
  exactly when a later call takes over its ID while it is in flight, or a late
  withdrawal by the former holder of its ID deletes its entry
  (`Multiplexer.ForgetsExactly`, `Multiplexer.AttendedExactly`). The first takes
  a caller that still waits 2^64 calls later (`Multiplexer.WrapStrandsACaller`),
  the second a withdrawal that is 2^64 calls late
  (`Multiplexer.LateWithdrawalStrandsACaller`); with fewer calls neither happens
  (`Multiplexer.FewCallsStrandNobody`).
- A restore that cannot stat the old backups directory drops it and reports
  success (`Restore.FailedStatLosesBackups`), and a restore of a backup that the
  safety backup pushes out deletes that backup first
  (`Restore.RestoringTheOldestLosesIt`). After a restore that failed to swap and
  to roll back, another one in the same second deletes the only whole copy
  (`Restore.SecondRestoreLosesAll`), except in the cases that
  `Restore.RestoreTwice` lists.
- The size check of an archive underflows when one file may be larger than all
  together (`Restore.LimitsExactIff`).
- A failure recorded late shortens a quarantine
  (`Quarantine.LateRecordsShortenQuarantine`): what counts is the stamp of the
  last quarantine imposed (`Quarantine.GateExactly`).
- The integrity check panics on a tree with a missing root entry
  (`Integrity.Validate`).

## Model

| member | source | states |
|---|---|---|
| Trees.Tree.constructor | internal/domain/tree.go:41-48 | A new tree is the empty forest that every run starts from. |
| Trees.Tree.AddFolder | internal/domain/tree.go:52-73 | Refuses a nil ID, an ID in use by either kind and an unknown parent, changing nothing; otherwise the new state is the one that Edits.AddExactly describes. |
| Trees.Tree.AddConnection | internal/domain/tree.go:77-98 | As AddFolder, for connections, with the parent-is-not-a-folder error. |
| Trees.Tree.IsDescendantFolder | internal/domain/tree.go:312-328 | Climbing the parent links answers exactly whether the first folder is the second or lies below it. |
| Trees.Tree.Move | internal/domain/tree.go:103-134 | The outcome and the whole new state, both index lists included, as Edits.MoveExactly describes them; a failed move changes nothing. |
| Trees.Tree.Remove | internal/domain/tree.go:138-166 | The recursive, list-editing removal ends in exactly the state that Edits.RemoveExactly describes, whatever order it deletes in; the root-level branch is kept as written. |
| Trees.Tree.DropConnections | internal/domain/tree.go:144-146 | Deletes exactly the listed connections. |
| Trees.RemoveID | internal/domain/tree.go:330-337 | The list without the first occurrence of the ID. |
| Lists.RemoveFirstExactly | internal/domain/tree.go:330-337 | Exactly the first occurrence is gone; what stood before it and behind it is unchanged and in order. |
| Trees.Tree.Ancestors | internal/domain/tree.go:234-251 | Found exactly for IDs in the tree; the path is the chain of folders from the root down to the parent, in the sense of Trees.PathExactly. |
| Trees.PathExactly | internal/domain/tree.go:241-250 | The path starts with a folder under the root, each of its folders is the parent of the next, and it ends with the parent asked for; it is empty for the root. |
| Trees.Tree.Walk | internal/domain/tree.go:273-275 | On every tree that edits can reach, stale root entries included, the walk visits what the child lists say and ends as they make it end: completed, with a nil node handed to the visitor last, or with a crash in the comparison. |
| Trees.Tree.WalkFrom | internal/domain/tree.go:277-308 | The same for the part of the tree below any one parent. |
| Trees.Snapshot | internal/domain/tree.go:278-302 | Copying and sorting any child list: sorted when every entry names a node, a crash when a missing entry has to be compared, the list itself when the missing entry is the only one. |
| Edits.AddExactly | internal/domain/tree.go:52-98 | Each outcome of an addition if and only if its case holds; after success the node is in the map of its kind and last in the list of its parent, every other entry and list is as before. |
| Edits.MoveExactly | internal/domain/tree.go:103-134 | Each outcome of a move if and only if its case holds, for both kinds: done exactly when the node is known, the new parent is the root or a folder, and the node is no folder that the new parent is or lies below. After it only the parent of this node differs, and it stands last among its new siblings and no longer among the old. |
| Edits.RemoveExactly | internal/domain/tree.go:138-166 | Done exactly for known IDs. A folder goes with all folders below it and the connections in them and nothing else, a connection alone; what stays is unchanged and keeps its place in its list. |
| Forests.RunTheorem | internal/domain/tree.go:52-166 | Every run of edits from the empty tree keeps disjoint non-nil IDs, existing parents and acyclicity, and the child lists agree with the parent links exactly when no root-level connection was removed; each such removal leaves one known stale entry. |
| Forests.StepConsistent | internal/domain/tree.go:52-166 | Any one edit, failing or not, keeps the invariant and adds at most the one stale entry of a root-level connection removal. |
| Forests.RootRemovalLeavesEntry | internal/domain/tree.go:158-163 | The failing case of the index invariant: after a root-level connection is removed its ID is still listed once under the root though it names no node. |
| Forests.CycleExactly | internal/domain/tree.go:113-119 | Move reports a cycle if and only if carrying out the move would destroy the forest. |
| Forests.StaleUnique | internal/domain/tree.go:158-163 | The stale entries of a state are determined by the state, so the exception in the run theorem cannot be hidden in a different reading of the lists. |
| Ancestry.ReparentForest | internal/domain/tree.go:113-123 | Giving a folder a new parent keeps the forest if and only if the new parent is not the folder itself or below it. |
| Ancestry.InsertForest | internal/domain/tree.go:65-71 | Adding a folder under the root or a known folder keeps every chain reaching the root. |
| Ancestry.CutForest | internal/domain/tree.go:142-157 | Cutting away a downward-closed set of folders leaves a forest. |
| Walks.WalkTheorem | internal/domain/tree.go:270-308 | A walk of a sound tree visits every node exactly once, visits nothing else, and visits each node after its parent. |
| Walks.ArrangementUnique | internal/domain/tree.go:279-285 | Two lists of the same children that are both in walk order are equal: the sort order, which WalkOrder.WalkInOrder spells out, has no ties. |
| WalkOrder.WalkInOrder | internal/domain/tree.go:277-308 | On every tree that edits can reach: of two siblings visited one after the other, folders come before connections, and of one kind the earlier has no greater name, nor the same name and greater ID bytes; and whatever is visited between a folder and something below it is below it too. A connection under the root by a stale entry stands apart only when it is visited again. |
| Octets.LexExactly | internal/domain/tree.go:279-285 | The order of names and IDs in full: less means a proper prefix, or the smaller byte where the two first differ. |
| Snapshots.WalkExactly | internal/domain/tree.go:273-308 | For every reachable tree: the root level lists each child exactly once if and only if nothing stale is listed; the walk is cut short if and only if some stale entry names no connection; it is the walk that visits each node exactly once if and only if the tree is sound; and a completed walk visits each node once plus once for each stale entry that names it. |
| Snapshots.RunWalks | internal/domain/tree.go:52-308 | The same for every run of edits from the empty tree, in terms of the root-level connections it removed. |
| Snapshots.TwoEditsBreakTheWalk | internal/domain/tree.go:158-163 | The shortest runs that show it: adding and removing one root-level connection makes the next walk hand out a nil node, with a second connection beside it the walk crashes, and adding the connection again makes it visited twice. |
| Snapshots.MissingExactly | internal/domain/tree.go:296-306 | Some entry of the root list names no connection if and only if some stale ID does not. |
| Snapshots.NilNodeComesLast | internal/domain/tree.go:294-306 | When the visitor is handed a nil node it has been handed every real node before, and the missing entry is the only one at the root. |
| Snapshots.CompleteCounts | internal/domain/tree.go:277-308 | How often a completed walk visits each ID. |
| Snapshots.CutShort | internal/domain/tree.go:277-308 | A walk that is cut short has visited every folder and every connection in a folder once and no connection of the root, and it crashed exactly when the root lists two entries or more. |
| Duplication.DuplicateNode | internal/app/commands.go:384-482 | For every reachable tree: succeeds or panics exactly for IDs in the tree; panics exactly when some stale root entry names no connection; otherwise the tree holds an isomorphic copy of the branch (parents, kinds and fields kept, only the root renamed), every original untouched, and the invariant; and it holds nothing else if and only if no stale entry names a node of the branch. A sound tree stays sound. |
| Duplication.CopyExactly | internal/app/commands.go:401-468 | Node by node: the copy of the root hangs beside it with " (copy)" behind its name; every other node of the branch, and nothing else, has a copy of its kind under the copy of its parent with the same name and fields; the originals are as before. |
| Duplication.DuplicateTheorem | internal/app/commands.go:395-469 | Running the copying visitor over everything a completed walk yields gives such a copy for every reachable tree, node and supply of fresh IDs, and one copy too many exactly when a node of the branch is visited twice. |
| Duplication.Duplicator.WalkFrom | internal/domain/tree.go:277-308 | Although the visitor adds nodes to the tree being walked, the live walk visits what a walk of the original would visit, in that order and no copy, ends as that walk would end, and terminates. |
| Duplication.Duplicator.Visit | internal/app/commands.go:401-468 | One visitor call does exactly one step of the copying specification and its AddFolder or AddConnection never fails. |
| Duplication.VisitKeeps | internal/app/commands.go:401-468 | After every prefix of the walk the map names exactly the visited nodes of the branch, each has its copy, and the tree holds nothing else besides the originals if and only if no node of the branch was visited twice. |
| Duplication.LevelRead | internal/domain/tree.go:277-308 | While the copying goes on, every level is read as it was before the copying until the duplicated root itself has been visited there, so the walk's snapshots contain no copy. |
| Imports.MergeTheorem | internal/app/commands.go:667-683 | Replaying the walk of any sound tree into any tree with disjoint IDs never fails and gives the disjoint union, with the invariant. |
| Imports.MergeExactly | internal/app/commands.go:667-683 | A replayed walk goes through if and only if the two trees have no ID in common. Otherwise it stops at the first imported node, in walk order, whose ID is in use; exactly the nodes before it are merged, unchanged, and the invariant holds. |
| Imports.MergeImported | internal/app/commands.go:673-686 | The merge loop does that replay. It goes through if and only if the trees share no ID, and is refused for a duplicate otherwise. |
| Inventory.EncodeInventory | internal/persistence/codec.go:39-54 | For every reachable tree the two lists are the folders and the connections of the walk, in walk order, with a nil pointer at the end when the walk hands out a nil node; it crashes exactly when the walk does. |
| Inventory.EntriesInOrder | internal/persistence/codec.go:43-52 | The list of either kind is all the walk's nodes of that kind, in the order in which they are visited. |
| Inventory.DecodeInventory | internal/persistence/codec.go:59-104 | Nil pointers are skipped; it succeeds if and only if the lists describe a forest, then rebuilds exactly the listed nodes; a refused folder or connection means a nil or repeated ID or a missing parent, according to the error; for unique non-nil IDs it reports orphans exactly when some parent chain never reaches the root, and their exact number. |
| Inventory.Pass | internal/persistence/codec.go:72-93 | One in-place filtering pass keeps the waiting folders in order, adds the others, and makes progress unless none of them can ever be added. |
| Inventory.PlaceConnections | internal/persistence/codec.go:95-103 | Adds all connections, or fails because the lists do not describe a forest. |
| Inventory.OrphanCount | internal/persistence/codec.go:89-91 | When a pass makes no progress the folders left over are exactly the ones whose chain never reaches the root. |
| Inventory.OrderIrrelevant | internal/persistence/codec.go:65-103 | Any permutation of either list gives the same verdict, repeated IDs included; as far as IDs are unique it gives the same nodes and the same orphans. |
| Inventory.EncodedAcceptable | internal/persistence/codec.go:36-54 | What is encoded from a walk that visits each node once is always accepted, and the node maps come back unchanged. |
| Inventory.SavedAcceptable | internal/persistence/codec.go:36-104 | What is saved from any reachable tree is accepted again if and only if no stale entry names a connection, which would be saved twice. |
| Inventory.Reload | internal/persistence/codec.go:39-104 | Encoding and decoding any reachable tree: it crashes exactly when a missing root entry has another beside it, otherwise it loads again if and only if no stale entry names a connection, and then gives a sound tree with the same nodes and the walk of the sound one. A sound tree always comes back. |
| Integrity.SortIDs | internal/persistence/integrity.go:90-97 | The in-place insertion sort ends in the sorted rearrangement of its input. |
| Integrity.Less | internal/persistence/integrity.go:99-106 | The byte loop decides the byte-wise order: the first difference settles it, and equal IDs are not less. |
| Integrity.SortedIdsSorts | internal/persistence/integrity.go:90-97 | That rearrangement is non-decreasing and has every ID as often as the input. |
| Integrity.CycleKey | internal/persistence/integrity.go:80-88 | Computes the key without changing its argument. |
| Integrity.KeyTheorem | internal/persistence/integrity.go:78-88 | Two lists have the same key if and only if they are rearrangements of each other, although the key is only a concatenation of bytes. |
| Integrity.FolderCycleOf | internal/persistence/integrity.go:59-76 | Terminates on every index and returns the specified cycle, or nothing. |
| Integrity.CycleTheorem | internal/persistence/integrity.go:56-76 | A cycle is reported exactly when the parent chain of the folder never ends, and it is precisely that cycle in parent order, without the tail leading into it. |
| Integrity.CycleEnters | internal/persistence/integrity.go:59-76 | The reported cycle starts with the folder by which the chain comes to it: what leads there and the cycle are together the chain, without repetition. |
| Integrity.OneIssuePerCycle | internal/persistence/integrity.go:227-244 | Exactly one issue per distinct cycle: every folder's cycle is reported and no two issues report rearrangements of the same cycle. |
| Integrity.ErrorsExactly | internal/persistence/integrity.go:163-260 | The report holds an error if and only if an ID occurs twice, a parent is missing, or a folder's chain runs into a cycle. |
| Integrity.ReportExactly | internal/persistence/integrity.go:163-260 | Which issues the report holds, warnings included: one for every repeated ID, for every entry whose parent is no folder, with that parent, for every tab and focused tab that is no connection, and the cycle issues; nothing else. |
| Integrity.RepetitionsCounted | internal/persistence/integrity.go:166-190 | There are as many duplicate issues as it takes to leave every ID once. |
| Integrity.CleanIffAcceptable | internal/persistence/integrity.go:163-244 | For non-nil IDs, no error-level finding and being a forest are the same thing. |
| Integrity.ValidatorAgreesWithDecoder | internal/persistence/integrity.go:163-244 | For any lists with non-nil IDs the validator reports no error if and only if the decoder accepts them: cycle chasing and fixpoint insertion agree. |
| Integrity.Validate | internal/persistence/integrity.go:48-132 | For every tree that edits can reach: the validator panics if and only if some stale root entry names no connection, and otherwise reports an error if and only if the tree is not sound. |
| Integrity.TreeValidated | internal/persistence/integrity.go:48-260 | Of a tree whose walk completes the validator reports an error if and only if some node would be visited twice. |
| Integrity.NilIdSlipsThrough | internal/persistence/integrity.go:166-190 | Why the IDs must not be nil: a single folder with the nil ID passes the validator and is refused by the decoder. |
| Integrity.ValidateFlat | internal/persistence/integrity.go:163-260 | Panics exactly when a list holds a nil pointer; otherwise the passes emit exactly the specified issues in order, and an error among them exactly when the lists are not clean. |
| Integrity.FindDuplicates | internal/persistence/integrity.go:166-190 | One issue for every repeated occurrence of an ID, in order. |
| Integrity.FindMissingParents | internal/persistence/integrity.go:197-225 | One issue for every non-root parent that is not indexed. |
| Integrity.FindCycles | internal/persistence/integrity.go:227-244 | One issue for the first folder that leads into each cycle. |
| PaneTree.PaneGroup.Leaves | cmd/desktop/gui_fyne.go:395-411 | The leaves from left to right. |
| PaneTree.PaneGroup.LeafFor | cmd/desktop/gui_fyne.go:414-421 | The first leaf in that order hosting the session, or null. |
| PaneTree.FirstHostMeans | cmd/desktop/gui_fyne.go:414-421 | The leaf found hosts the session and no earlier one does; none is found exactly when none does. |
| PaneTree.PaneGroup.SplitLeaf | cmd/desktop/gui_fyne.go:427-449 | Null exactly for a null or non-leaf target, changing nothing; otherwise the tree stays a heap-disjoint full binary tree with correct links, the new leaf stands directly after its target and is active, and no other leaf, session or orientation changes. |
| PaneTree.PaneGroup.PlaceBranch | cmd/desktop/gui_fyne.go:437-446 | The pointer writes of a split change exactly four links. |
| PaneTree.GraftLeaves | cmd/desktop/gui_fyne.go:427-449 | Replacing a leaf by a branch inserts the new leaf directly after its target in leaf order. |
| PaneTree.InsertAfterExactly | cmd/desktop/gui_fyne.go:427-449 | Inserting means exactly one element more, right behind the target. |
| PaneTree.GraftLinked | cmd/desktop/gui_fyne.go:427-449 | Those four links are enough: the whole heap again realises the new shape, parent links included. |
| PaneTree.PaneGroup.RemoveLeaf | cmd/desktop/gui_fyne.go:455-503 | Found exactly when some leaf hosts the session; the leaf goes, the order of the rest stays, the group is empty exactly when it was the last, and the active leaf stays or becomes the first leaf of the surviving sibling. |
| PaneTree.PaneGroup.LiftSibling | cmd/desktop/gui_fyne.go:467-484 | The pointer writes of a removal change exactly the sibling's parent link and the grandparent's link. |
| PaneTree.CollapseLeaves | cmd/desktop/gui_fyne.go:455-503 | Collapsing deletes one leaf from the leaf order and no node appears twice afterwards. |
| PaneTree.CollapseLinked | cmd/desktop/gui_fyne.go:467-484 | Those links are enough to realise the collapsed shape in the heap. |
| PaneTree.Snapshot | cmd/desktop/gui_fyne.go:3899-3911 | The saved form of the live tree: connection IDs at the leaves, orientations at the branches. |
| PaneTree.Collect | cmd/desktop/gui_fyne.go:4002-4015 | The connection IDs a saved layout names, left to right. |
| PaneTree.Build | cmd/desktop/gui_fyne.go:4054-4081 | Fresh nodes only, linked both ways into a full binary tree that shows the rebuilt layout; null exactly when nothing reopened. |
| PaneTree.Join | cmd/desktop/gui_fyne.go:4077-4080 | Setting two parent links joins two separate trees into one that shows both. |
| PaneTree.FirstLeaf | cmd/desktop/gui_fyne.go:4086-4099 | The leftmost leaf. |
| PaneTree.PaneGroup.RestoreLayout | cmd/desktop/gui_fyne.go:3996-4110 | Restores exactly when at least two of the saved sessions are open again and the first of them has a tab, moves the others that have one to it, and re-establishes the invariant with the first leaf active and the leaves hosting exactly those sessions in saved order; otherwise nothing changes. |
| PaneTree.PaneGroup.Rebuild | cmd/desktop/gui_fyne.go:4053-4110 | The new tree shows the rebuilt layout, consists of fresh nodes and has its first leaf active. |
| PaneTree.RebuiltMembers | cmd/desktop/gui_fyne.go:4025-4081 | The leaves of the rebuilt tree are the saved sessions that reopened, in order, although halves with nothing open give way. |
| PaneTree.SaveRestore | cmd/desktop/gui_fyne.go:3899-4081 | Saving and restoring gives the same tree if and only if every session is open again under its own non-empty connection ID. |
| PaneTree.PaneGroup.RestoreSaved | cmd/desktop/gui_fyne.go:3899-4110 | For every split pane whose sessions are all open: restoring what was saved of it succeeds exactly when its first session has a tab, and the live tree then shows this very pane, every session with a tab now in that one. |
| PaneTree.RestoredInOrder | cmd/desktop/gui_fyne.go:4002-4081 | When only some sessions are open again, the restored leaves are exactly those, in the saved order. |
| PaneTree.RestoredSplits | cmd/desktop/gui_fyne.go:4054-4081 | And they are split as they were: the restored pane is the saved one with the closed leaves taken out, each gap closed by the other half. |
| Telnet.DecodePrinted | plugins/protocol-telnet/negotiate.go:93-163 | For every stream printed from well-formed items the machine outputs exactly the data bytes, emits exactly the answers in order and ends in its normal state. |
| Telnet.EveryStreamParses | plugins/protocol-telnet/negotiate.go:93-163 | Every byte stream whatever is a sequence of complete items and one unfinished item, and only the complete ones had an effect. |
| Telnet.CompleteIffPrinted | plugins/protocol-telnet/negotiate.go:93-163 | The machine is back in its normal state exactly after the printed streams. |
| Telnet.ChunksDoNotMatter | plugins/protocol-telnet/negotiate.go:88-96 | Cutting the stream into chunks in any way changes nothing while the window size stays. |
| Telnet.OutNoLonger | plugins/protocol-telnet/negotiate.go:91-92 | Filtered data is never longer than the input, so the output buffer suffices. |
| Telnet.NegState.Feed | plugins/protocol-telnet/negotiate.go:93-163 | One call consumes the input exactly as specified and writes nothing beyond the data it reports. |
| Telnet.NegState.HandleWill | plugins/protocol-telnet/negotiate.go:166-179 | DO for echo, suppress-go-ahead and binary; DONT for the rest. |
| Telnet.NegState.HandleDo | plugins/protocol-telnet/negotiate.go:182-205 | The printed answer to a DO, with the current window size after WILL NAWS. |
| Telnet.NegState.HandleSB | plugins/protocol-telnet/negotiate.go:209-225 | The printed answer to a subnegotiation: the escaped terminal type for TTYPE SEND, nothing otherwise. |
| Telnet.BuildNAWS | plugins/protocol-telnet/negotiate.go:230-257 | The frame of RFC 1073 for the clamped size, 255 bytes doubled. |
| Telnet.SizeRoundTrip | plugins/protocol-telnet/negotiate.go:230-269 | Built, collected by the machine and parsed, a window size comes back clamped to 16 bits. |
| Telnet.CountIACs | plugins/protocol-telnet/negotiate.go:294-300 | The number of bytes that need doubling. |
| Telnet.EscapeIAC | plugins/protocol-telnet/negotiate.go:273-309 | Every 255 doubled, or refused exactly when the doubled length does not fit an int. |
| Telnet.EscapeDecodes | plugins/protocol-telnet/negotiate.go:271-292 | Feeding escaped data gives the data back, no reply, normal state. |
| Telnet.DataOnTheWire | plugins/protocol-telnet/negotiate.go:96-122 | In numbers: a byte other than 255 goes through, 255 255 is one 255, and 255 with a command below 250 does nothing. |
| Telnet.VerbsOnTheWire | plugins/protocol-telnet/negotiate.go:166-205 | The answers in numbers: WILL 0, 1 and 3 and DO 0, 3 and 24 are agreed to, other options refused, WONT and DONT not answered, and none of them reaches the application. |
| Telnet.WindowSizeOnTheWire | plugins/protocol-telnet/negotiate.go:191-257 | DO 31 is agreed to and followed by 255 250 31, the clamped width and height, high byte first and 255 doubled, and 255 240. |
| Telnet.SubnegotiationOnTheWire | plugins/protocol-telnet/negotiate.go:209-225 | Subnegotiation 24 with a leading 1 is answered with 24 0 and the escaped terminal type, unless that is too long; any other is not answered. |
| Telnet.EscapeExactly | plugins/protocol-telnet/negotiate.go:273-309 | Escaping goes byte by byte, doubles 255 and nothing else, and is refused exactly when something needs doubling and the result is longer than 2^63-1. |
| Negotiation.Negotiator.Read | plugins/protocol-telnet/negotiate.go:348-373 | Everything taken from the connection went through the machine exactly once: the caller has its data, the peer its replies, and the call returns only with data or an error. |
| Negotiation.Negotiator.Write | plugins/protocol-telnet/negotiate.go:379-388 | On success the escaped bytes were sent whole and the count is the caller's. |
| Negotiation.Negotiator.WriteRaw | plugins/protocol-telnet/negotiate.go:393-404 | Repeats partial writes until all is sent, or fails after sending a prefix. |
| Negotiation.Negotiator.SendNAWS | plugins/protocol-telnet/negotiate.go:409-415 | Sends the frame and stores the size for later answers. |
| TelnetExchange.ExchangeStops | plugins/protocol-telnet/negotiate.go:166-225 | Two negotiators wired to each other fall silent after at most two non-empty replies exactly when the starting stream has no WILL or DO of SGA or BINARY; otherwise no message is ever empty. |
| TelnetExchange.MessageIsVolley | plugins/protocol-telnet/negotiate.go:166-225 | Every message of such an exchange is again a complete stream of items, and the replies carry no data. |
| TelnetExchange.TwoRepliesHappen | plugins/protocol-telnet/negotiate.go:191-199 | Two non-empty replies do occur: DO NAWS is answered and the answer is answered. |
| Prompt.ExpectPrompt | plugins/protocol-telnet/session.go:148-190 | The bounded window reports what an unbounded search of everything read, in lower case, for the lowered needle would report, and mirrors every scanned byte in order. |
| Prompt.WindowSuffices | plugins/protocol-telnet/session.go:174-182 | Sliding a window of at least the needle's length loses no first occurrence. |
| Prompt.FoundExactly | plugins/protocol-telnet/session.go:157-189 | Success exactly when some byte completes the needle for the first time within the limit, with nothing failing before it. |
| Prompt.LowerExactly | plugins/protocol-telnet/session.go:173-175 | Lower case means: the bytes 65 to 90 become the ones 32 above, all others stay. |
| EventBus.RunSound | internal/eventbus/bus.go:54-136 | Every interleaving keeps the ownership of channel closing and all counters. |
| EventBus.NoPanic | internal/eventbus/bus.go:54-136 | In every interleaving no channel is closed twice or sent to after closing, and done is closed at most once. |
| EventBus.PublishesAccountedFor | internal/eventbus/bus.go:99-117 | With no publish under way, delivered plus dropped is the number of publishes that saw the subscriber, and the bus counter is the sum of the subscribers' drops. |
| EventBus.OfferExactly | internal/eventbus/bus.go:109-116 | In every interleaving an event offered to a subscription arrives, in the buffer or with the waiting receiver, if one waits or the buffer is not full; otherwise it is dropped and counted; no other subscription changes. |
| EventBus.RoomMeansDelivered | internal/eventbus/bus.go:99-117 | Hence a subscription that always has room when something is offered is delivered every event it has seen. |
| EventBus.NothingLost | internal/eventbus/bus.go:109-116 | In every run what was delivered has been taken or waits in a buffer within its size. |
| EventBus.PublishExactly | internal/eventbus/bus.go:99-117 | A publish on a closed bus does nothing; otherwise it is counted and offered to exactly the registered subscriptions. |
| EventBus.SubscribeExactly | internal/eventbus/bus.go:54-67 | A new subscription is empty, has the size asked for or none for a negative one, and is registered unless the bus is closed. |
| EventBus.CancelExactly | internal/eventbus/bus.go:69-93 | A cancelled context lets the watcher take its subscription, and no other, off the bus. |
| EventBus.CloseExactly | internal/eventbus/bus.go:121-136 | The first Close takes every subscription off the bus and has all of them to close; a second one does nothing. |
| EventBus.DropsLagBehind | internal/eventbus/bus.go:112-115 | In between, the bus counter lags by at most one drop per publisher at work. |
| EventBus.AllClosedInTheEnd | internal/eventbus/bus.go:69-93 | When Close has returned and the watchers have finished, every channel ever handed out is closed exactly once. |
| EventBus.FinishedWatcherMeansClosed | internal/eventbus/bus.go:69-93 | A subscription whose watcher has finished is closed, or Close has taken it over. |
| EventBus.ClosingNeverStalls | internal/eventbus/bus.go:69-136 | As long as a channel is open although the bus is closed or its context is cancelled, some step towards closing it is enabled, or it waits for publishers, one of which has a step of its own. |
| EventBus.PublishersMove | internal/eventbus/bus.go:99-117 | A Publish call never waits: in every interleaving it has a step of its own until it returns. |
| EventBus.ClosingProgresses | internal/eventbus/bus.go:69-93 | No step takes a channel further from being closed, and each closing step brings it nearer. |
| SessionOutput.RunSound | internal/app/sessions.go:376-443 | Every interleaving of fan-out, subscribing, cancelling and session end keeps the closing discipline. |
| SessionOutput.NoPanic | internal/app/sessions.go:67-81 | No subscriber channel is sent to after closing or closed twice. |
| SessionOutput.InOrder | internal/app/sessions.go:376-394 | Each subscriber receives a subsequence of the chunks, in order, each at most once. |
| SessionOutput.ChunksAccountedFor | internal/app/sessions.go:69-81 | In every run, of the chunks copied while a subscriber was on the list it has got all but those it was passed over with, because it was closed, cancelled or full, and the one on its way; what it got it has taken, or it waits in a buffer within its size. |
| SessionOutput.SendExactly | internal/app/sessions.go:69-81 | A send delivers the current chunk only if a receiver waits or the buffer is not full, and gives it up only if that is not so or the subscription is cancelled. |
| SessionOutput.FanOutExactly | internal/app/sessions.go:376-391 | Chunks are numbered as they are read, and each goes to everybody on the list when it is copied. |
| SessionOutput.SubscribeExactly | internal/app/sessions.go:305-320 | A new subscriber comes last on the list, open and empty; sizes below one mean sixteen. |
| SessionOutput.EndExactly | internal/app/sessions.go:395-432 | At the end of the stream the sweep takes over everybody on the list; a watcher takes exactly its own subscriber off it. |
| SessionOutput.AllClosedInTheEnd | internal/app/sessions.go:318-330 | Once the watchers have run, every subscriber ever registered is closed exactly once, those added after the final sweep included. |
| SessionOutput.ClosingNeverStalls | internal/app/sessions.go:395-443 | When the session is done or its context is cancelled, an open subscriber always has an enabled step towards closing, or waits for the end of one send. |
| SessionOutput.ClosingProgresses | internal/app/sessions.go:423-443 | No step takes a subscriber further from being closed and each closing step brings it nearer. |
| Frames.WriteFrame | proto/plugin/v1/frame.go:23-41 | Written means the whole frame is on the wire; an oversized or unencodable frame puts nothing there. |
| Frames.ReadFrame | proto/plugin/v1/frame.go:44-63 | Takes exactly the specified bytes and gives the specified frame or failure. |
| Frames.CheckedFrameLen | proto/plugin/v1/frame.go:65-73 | The platform test is never the one that decides. |
| Frames.CheckedFrameSize | proto/plugin/v1/frame.go:75-86 | Refuses exactly negative and oversized lengths; the uint32 test is never the one that decides. |
| Frames.HeaderRoundTrip | proto/plugin/v1/frame.go:32-33 | The four header bytes give the length back. |
| Frames.HighByteFirst | proto/plugin/v1/frame.go:32-33 | The header is the length as a 32-bit number, high byte first. |
| Frames.RefusedExactly | proto/plugin/v1/frame.go:44-63 | Which refusal a stream meets, each if and only if its case holds, in bytes and with the limit of 4 MiB. |
| Frames.ParsesExactlyWire | proto/plugin/v1/frame.go:44-63 | A frame is read if and only if the stream starts with a header within the limit and a complete body that decodes. |
| Frames.ReadWhatWasWritten | proto/plugin/v1/frame.go:23-63 | Reading what was written gives the frames back, then whatever follows. |
| Frames.CutOffStream | proto/plugin/v1/frame.go:44-57 | A stream cut off anywhere yields a proper prefix of the frames, never a wrong one, and then a missing header or body. |
| Multiplexer.RunSound | host/plugin/ipc/client.go:95-167 | Every interleaving of callers, cancellations, replies and loss keeps the bookkeeping of IDs and channels. |
| Multiplexer.RepliesReachTheirCaller | host/plugin/ipc/client.go:125-166 | A reply reaches only a caller whose ID it carries, and no channel is given more than one item. |
| Multiplexer.OutcomesHaveCauses | host/plugin/ipc/client.go:95-167 | In every run what a call returns has occurred: a reply is a frame that was read, carries its ID and no error; an error one that does; a loss, a failed write and an ended context happened. |
| Multiplexer.FrameReachesItsCaller | host/plugin/ipc/client.go:125-165 | A frame read under the ID of a waiting call is what the call returns, as a reply or as an error. |
| Multiplexer.WithdrawnCallReturns | host/plugin/ipc/client.go:116-138 | A call whose write fails or whose context ends returns with that and leaves no entry under its ID. |
| Multiplexer.StartExactly | host/plugin/ipc/client.go:101-110 | A call is registered under the next ID, which then grows by one and wraps at 2^64; after the loss it is refused. |
| Multiplexer.IdsAreUnique | host/plugin/ipc/client.go:106-109 | No two of the first 2^64 calls share an ID. |
| Multiplexer.LoopNeverBlocks | host/plugin/ipc/client.go:143-166 | Every channel the read loop is about to send into has room. |
| Multiplexer.ForgetsExactly | host/plugin/ipc/client.go:101-138 | A step leaves every expecting caller attended if and only if it neither registers a call under an ID still held by a caller who expects an answer nor withdraws an entry that meanwhile belongs to another such caller. |
| Multiplexer.AttendedExactly | host/plugin/ipc/client.go:95-167 | In every run, of any length, a call that still expects an answer is unattended if and only if such a step stranded it. |
| Multiplexer.FewCallsStrandNobody | host/plugin/ipc/client.go:106-109 | Up to 2^64 calls nobody is ever stranded. |
| Multiplexer.NobodyWaitsForever | host/plugin/ipc/client.go:146-155 | In every run, once the loop is gone a caller still waiting has its reply or the loss notice if and only if no step stranded it, and up to 2^64 calls none did. |
| Multiplexer.LostStaysLost | host/plugin/ipc/client.go:101-105 | After the loss no later call is registered. |
| Multiplexer.WrapStrandsACaller | host/plugin/ipc/client.go:106-109 | The first way to be stranded: with 2^64 calls in flight the next one takes over the ID of the first, which is neither answered nor told of a loss, whatever happens afterwards. |
| Multiplexer.LateWithdrawalStrandsACaller | host/plugin/ipc/client.go:116-138 | The second way: a caller withdraws after its ID has come round again and deletes the entry of the new call, which nobody ever answers. |
| Multiplexer.StrandsForGood | host/plugin/ipc/client.go:95-167 | Whoever a step strands gets nothing in any continuation. |
| Backups.Prune | internal/persistence/backup.go:178-217 | Succeeds exactly when the directory can be read and enough removals work; then exactly the archives that Backups.RetainedAreNewest describes remain, and a failure never removes one of those. |
| Backups.RetainedIsTail | internal/persistence/backup.go:204-215 | Dropping the front of the list sorted by time and name leaves exactly the newest `keep`. |
| Backups.RetainedAreNewest | internal/persistence/backup.go:204-215 | Retained are `keep` archives, or all if there are no more, and each is newer than every other one: by time, then by the bytes of the name. |
| Restore.ValidateRestoreArchive | internal/persistence/backup.go:327-345 | Accepts exactly the archives within the limits when one file may not be larger than all together. |
| Restore.LimitsExactIff | internal/persistence/backup.go:331-343 | The uint64 arithmetic neither overflows nor underflows for all archives if and only if the limit of one file is at most the total limit. |
| Restore.DefaultLimitsExact | internal/persistence/backup.go:23-33 | With the shipped limits an archive is accepted if and only if it has at most 256 entries, none above 16 MiB and at most 64 MiB together. |
| Restore.SizesAddUp | internal/persistence/backup.go:331-343 | The total is the sum over all entries that are not directories. |
| Restore.Store.BackupLocked | internal/persistence/backup.go:56-84 | Succeeds exactly when no step fails and pruning meets enough working removals; the store's files stay as they are, the new archive then holds exactly them, once each, and the backups are the newest ten. A failure loses none of the newest. |
| Restore.Store.OpenArchive | internal/persistence/backup.go:244-266 | Which refusal, if any, an archive meets; it is opened exactly when it is readable, within the limits, and all its paths are safe and outside backups/. |
| Restore.ChecksExactly | internal/persistence/backup.go:246-266 | Each refusal if and only if its case holds: not there or unreadable, over a limit, or a path that is unsafe, "backups" or below it. |
| Restore.ContentsExactly | internal/persistence/backup.go:279-291 | A path is among an archive's files exactly when some file entry has it, and the last such entry says what it holds. |
| Restore.Store.Extract | internal/persistence/backup.go:279-291 | Succeeds exactly when no entry fails and every file keeps to a size limit below 2^63-1; the temporary directory then holds exactly what was left in it overlaid by the archive's files, the last entry of a path winning. |
| Restore.Store.Swap | internal/persistence/backup.go:298-309 | Which of the renames fails and what that leaves: the new directory in place and the old one aside, or the old one whole in one of the two places; a leftover that holds something is never replaced. |
| Restore.Store.KeepBackups | internal/persistence/backup.go:311-319 | Carries the backups over; a failing test for their directory is taken for their absence. |
| Restore.Store.Restore | internal/persistence/backup.go:233-325 | From any state of the two temporary directories and whatever step fails, the files from before are whole, and unless they were set aside the newest backups are; a cancelled restore changes nothing; the answer is determined by the inputs; on success the store holds exactly the archive's files over what a failing removal left, and the backups if and only if the test for their directory did not fail; what was set aside before survives exactly until the archive has passed its checks. |
| Restore.RefusedEarlyExactly | internal/persistence/backup.go:233-266 | A restore ends before it clears anything if and only if it is cancelled, the safety backup fails, or the chosen archive was pruned away or does not pass the checks. |
| Restore.RestoredExactly | internal/persistence/backup.go:233-325 | A restore succeeds if and only if none of the listed things goes wrong: every failing step but the two that are passed over, a missing, unreadable, pruned, oversized or unsafe archive, and a directory in the way. |
| Restore.RestoreOwnBackup | internal/persistence/backup.go:233-325 | For every store and every backup in it that is within the limits and has fewer than ten newer ones, the safety backup counted: restoring it without a failure succeeds, the store then holds exactly its files, and the newest ten backups are kept. |
| Restore.FailedStatLosesBackups | internal/persistence/backup.go:311-324 | For every store with backups and every restorable archive: when the test for the backups directory fails, the restore reports success and all backups are gone, from the store and from the directory set aside. |
| Restore.RestoreTwice | internal/persistence/backup.go:270-309 | Two restores in one second: exactly when the first can neither swap nor roll back, and then, from the inputs alone, exactly when the files are still whole anywhere after the second. |
| Restore.RestoreOverAside | internal/persistence/backup.go:270-324 | The same for any restore that starts with the only whole copy set aside. |
| Restore.SecondRestoreLosesAll | internal/persistence/backup.go:270-324 | It happens: for any store with files and any restorable archive, failing swap and roll-back followed by a restore of other files in the same second reports success and leaves the files nowhere. |
| Restore.CopyIrrelevant | internal/persistence/backup.go:240-249 | The safety copy decides nothing about a restore that does not choose it, so the answer depends on the inputs only. |
| Restore.RestoringTheOldestLosesIt | internal/persistence/backup.go:240-249 | For every store with ten backups or more: restoring the oldest of them deletes it before it is opened, restores nothing, and leaves the files and the newest ten archives. |
| Quarantine.Host.constructor | host/credential/host.go:113-130 | Only positive options replace the defaults of three failures, one minute and five minutes. |
| Quarantine.Host.Register | host/credential/host.go:137-152 | One provider becomes known exactly when it is not nil, its manifest is a credential manifest and the plugin host accepts it; otherwise nothing changes. |
| Quarantine.Host.Unregister | host/credential/host.go:155-161 | Forgets the provider and its counters; no other provider changes. |
| Quarantine.Host.Reinstate | host/credential/host.go:185-191 | Lifts the quarantine and forgets the counters of this provider only. |
| Quarantine.Host.IsQuarantinedLocked | host/credential/host.go:200-213 | Quarantined exactly before the expiry; an expired quarantine is forgotten with its counters. |
| Quarantine.Host.Admit | host/credential/host.go:219-262 | The gate of Resolve: not found, refused or passed, by the state and the clock read under the lock. |
| Quarantine.Host.RecordSuccess | host/credential/host.go:378-383 | Forgets this provider's failures, not its quarantine. |
| Quarantine.Host.RecordFailure | host/credential/host.go:385-412 | Counts within the window of the first failure, restarts outside it, and quarantines at the threshold. |
| Quarantine.CounterStaysBelow | host/credential/host.go:390-403 | After every run the counter is below the threshold and has a first failure exactly when it is positive. |
| Quarantine.CounterIsStreak | host/credential/host.go:390-396 | The counter is the length of an unbroken streak of failures, all within the window of its first. |
| Quarantine.QuarantineIsEarned | host/credential/host.go:398-402 | A quarantine comes only after at least the threshold number of recorded failures in a row, all within the window of the first. |
| Quarantine.BurstQuarantines | host/credential/host.go:390-402 | Conversely, from a state without counted failures, exactly the threshold number of failures within the window of the first quarantines, with the last of them and not before. |
| Quarantine.GateExactly | host/credential/host.go:200-262 | In every run whose clock does not go back, late records included, and until somebody lifts the quarantine: a Resolve of a registered provider gets through if and only if the last quarantine imposed has expired. |
| Quarantine.QueryExactly | host/credential/host.go:194-213 | Quarantined() answers by the same rule. |
| Quarantine.LiftedMeansOpen | host/credential/host.go:155-191 | After Reinstate or Unregister, and before the first quarantine, nobody is turned away until the next one. |
| Quarantine.RegisteredExactly | host/credential/host.go:137-161 | In every run a provider is known exactly when it was registered and has not been unregistered since. |
| Quarantine.ExpiryExactly | host/credential/host.go:200-213 | In every run: the recorded expiry is that of the last quarantine imposed, or gone after the first reading at or past it. |
| Quarantine.NoResolveUntilExpiry | host/credential/host.go:200-262 | Hence with failures recorded in stamp order and nobody lifting the quarantine, no Resolve gets through before the expiry of any earlier one. |
| Quarantine.ExpiryHolds | host/credential/host.go:398-402 | Hence under the same condition the expiry never moves earlier. |
| Quarantine.ExpiryMovesBack | host/credential/host.go:385-402 | A failure moves the expiry earlier if and only if it reaches the threshold with a stamp older than the quarantining one. |
| Quarantine.LateRecordsShortenQuarantine | host/credential/host.go:385-388 | That happens with the default limits, because the stamp is read before the lock is taken. |
| Recents.Workspace.TouchRecent | app/workspace/workspace.go:52-73 | The new list is the touched entry in front of the others, cut to twenty; an empty ID changes nothing. |
| Recents.Workspace.ClearRecents | app/workspace/workspace.go:76-78 | Empties the list. |
| Recents.TruncateOnce | app/workspace/workspace.go:48-73 | Truncating at every touch keeps the same entries as truncating the unbounded list once at the end. |
| Recents.KeptAreFirst | app/workspace/workspace.go:48-73 | The list is the front of the unbounded one: all of it, or its first twenty. |
| Recents.EverythingIsLatestFirst | app/workspace/workspace.go:33-37 | The unbounded list is exactly what was touched since the last clear, latest touch first, with the time of that touch. |
| Recents.LastTouchExactly | app/workspace/workspace.go:52-78 | What counts is the last touch of an entry, and a later clear undoes it. |
| Recents.CountsTouches | app/workspace/workspace.go:60-68 | Each count is the number of touches since that entry last entered the list. |
| Recents.TouchesExactly | app/workspace/workspace.go:60-68 | Touches are counted one by one. |
| Identifiers.IdOrder | internal/persistence/integrity.go:99-106 | The byte-wise comparison is a strict total order. |
| Walks.BeforeOrder | internal/domain/tree.go:279-285 | The walk's comparison by name, then ID, is a strict total order on a folder's children. |

## Left out

- Duplication.DuplicateNode: node fields other than ID, parent and name are one value copied whole, so the model does not say which of a copy's maps are shared with the original; the source does not clone the Inheritance maps (internal/app/commands.go:425-434).
- Trees.Tree.AddFolder: the nil-pointer argument, and callers that keep and change a node they have added, are not part of the model; nodes are values.
- Integrity.ValidateFlat: message texts are dropped; issues keep severity, code and related IDs.
- PaneTree.PaneGroup.RestoreLayout: the tab container, the groups of the tabs that are given up and drawing are not part of the model; the session map is a parameter.
- PaneTree.FirstLeaf: in a full binary tree the source's fallback to the right half is never reached, so it is not written out.
- Telnet.EscapeIAC: a length that does not fit an int is refused as in the source; memory limits are not modelled.
- Negotiation.Negotiator.Read: one goroutine reads; writes by other goroutines between two reads, and a connection that returns neither bytes nor an error forever, are not part of the model.
- EventBus, SessionOutput and Multiplexer are step systems on values rather than classes: the interleaving, not the update in place, is what they are about. A section under a lock is one step; which goroutine waits for a lock is not modelled, and fairness of the scheduler is assumed only in the comments, never in a proof.
- EventBus.PublishesAccountedFor: event payloads are not modelled; SessionOutput follows the order of chunks instead.
- SessionOutput.InOrder: chunks are numbered; the copy that isolates their bytes from the read buffer is not modelled.
- Frames.ReadWhatWasWritten: JSON is an abstract codec, and the frames are those it gives back unchanged.
- Multiplexer.RunSound: bytes left half-written by a failing write and the decoding of payloads are not part of the model.
- Restore.Store.Restore: the store knows the two temporary directories of one second only; those of other seconds have other names and are never touched. Empty directories, file modes and the operating system's path rules are not modelled; a sanitised path is an input.
- Restore.Store.BackupLocked: the search for an unused archive name is replaced by an unused name; files in the backups directory that are not archives are not modelled.
- Quarantine.Host.Admit: the provider call, its timeout and panics lie between two steps and only their outcome is recorded; audit records and plugin-host events are not modelled.
- The user interface, the other protocol plugins, cryptography, JSON, XML, CSV and zip encodings, git, updates, keychain and notifier calls: foreign libraries or operating-system calls.
- Inheritance of fields, name search, templates, settings, version comparison, manifests and the mRemoteNG attribute tables: they would add many easy members.
- The persister's clean flag (internal/app/app.go:258-274): a change between saving and clearing can be lost from it, so nothing is claimed about it.
