# Verified models of Open WebUI's persistent state

Open WebUI keeps chats, configuration, background tasks, automations, folders, channel members and
access grants as dictionaries and table rows that many calls edit in place. This project models the
parts where one wrong edit corrupts stored data, and proves what those edits keep. Everything is in
Dafny 4.11; `dafny verify dfyconfig.toml` checks the whole project.

**The message history (Messages, Deletion, Descent, DeletionOrder, Upsert, UpsertEffect, TurnSteps, Turn,
TurnRecords, Merge, CurrentMessage, RepairEffect, History, NewChat).**
A chat's history is a dictionary of records; each record names its parent and lists its children, and
`currentId` marks the shown leaf. `Linked` says that the two kinds of links are inverse to each other,
`Acyclic` that parents have smaller ranks. The class `History` runs the operations in place; functions
such as `Deleted`, `Upserted` and `Merged` are the specifications its methods are proved against, and
the lemmas are about those functions.

**The mirror table (MirrorTable, MirrorRebuild, MirrorContents, SelfHeal, ChatStore, Conversations).** Every history edit is also
written to rows that hold parent links only. The rows are proved to mirror the history over whole runs, links and contents.
The map rebuilt from them, in whatever order they arrive, always has the history's ids, parent links and contents;
it has its child sets after every completed turn, deletion or read of a conversation, and in between
exactly when no link half is missing. Repeated self-healing reads converge to exactly the messages a
chain of parents leads to.

**Configuration (ConfigSplit, ConfigTree, ConfigRepair, ConfigNames, ConfigStartup, StartupEffect).** Dictionary
settings that were flattened into dotted rows are put back together at startup, together with a prefix
rename and the seeding of defaults.

**Registries and schedulers (Tasks, RedisTasks, Automations).** State machines over all interleavings
of their steps.

**Glob search, folders, direct messages, grants (Glob, Folders, Channels, AccessGrants, GrantEffect).**

Where a promise turned out to hold only under a condition, the condition is proved exact:

- The rebuilt child sets are those of the history exactly when its child lists follow its parent links and
  nothing hangs below the empty id (`RebuiltChildren`). During a turn they differ until the user message is
  listed by its parent, and whenever a child already listed, such as an answer, is not saved yet (`TurnRebuilds`).
- Composite row keys of two chats can coincide exactly when one chat's prefix starts with the other's
  (`ClashExactly`), and exactly then some write of the one lands in a row of the other
  (`WritesLeaveOthersExactly`, `ClashOverwrites`); `SameLengthNeverClash` shows why equally long ids are safe.
- Splitting a connection setting's key undoes joining exactly for `Unambiguous` pairs (`SplitUndoesJoin`): a
  number as key, or a key whose first segment is no number and a path of which exactly the first part
  starts with a field name.
- A flattened setting comes back unchanged exactly when it is not empty, holds no empty dictionary, and the
  path to each leaf is `Recoverable` (`RepairRestoresExactly`): without dots in its keys, or, for a setting
  keyed by connection, unambiguous in the sense above, so that connection keys may have dots. The
  flattening walk leaves no row for an empty dictionary.
- The counting lookup of a direct-message channel finds exactly the channels with the requested members,
  except that it never finds a channel for an empty set of users (`CountsMatchExactly`).
- Converting grants to the old format and back keeps them exactly when each can be expressed and a
  public-read grant stands alone (`BackAndForthKeepsExactly`). The comment on `grants_to_access_control`
  says that write grants are preserved beside a public read; the code returns no lists in that case, and
  the model follows the code.
- Access control comes back unchanged from its grants exactly when it is the public one of a resource that is
  no file, or empty, or lists some principal, none twice in a list and no wildcard reader
  (`AccessControlComesBackExactly`).
- A user who left a channel keeps an inactive row; joining again or being added again leaves it inactive
  (`Join`, `AddMembers`).
- A Redis clean-up keeps the task hash and the item sets together exactly when it names the item under
  which the background task was saved (`CleanupKeepsConsistentExactly`).
- A turn without any assistant leaves the message the user replied to as the current one, not the user's
  message (`TurnCurrent`), because linking the reply is itself an upsert.
- The first history of a chat, built in one piece, is a linked forest exactly when the ids of its request
  are distinct and the user message has a role (`NewHistoryIsForestExactly`). It shows the first answer,
  where a turn on an empty history shows the last (`NewChatMatchesTurn`).
- A self-healing read never writes a message without a role, so such a gap is read again each time; the
  convergence is stated for the messages that have one (`Fillable`).

## Model

| member | source | states |
|---|---|---|
| Deletion.Survivor | backend/open_webui/models/chats.py:796-821 | which messages survive a deletion, and the parent link and child list of each survivor |
| DeletionOrder.SurvivorRecord | backend/open_webui/models/chats.py:809-817 | the whole record of each survivor: only grandchildren get another parent and only the parent another child list |
| DeletionOrder.AdoptedInOrder | backend/open_webui/models/chats.py:804-814 | the parent's new list, in order: its old children, then the children of each deleted child, in the order of the deleted message's own list and of each child's list |
| Deletion.DeleteKeepsLinked | backend/open_webui/models/chats.py:796-821 | after a deletion child lists and parent links are still inverse to each other, without duplicates |
| Deletion.DeleteKeepsAcyclic | backend/open_webui/models/chats.py:796-821 | a deletion creates no cycle |
| Deletion.DeleteRemovesExactly | backend/open_webui/models/chats.py:802-821 | exactly the message and its direct children go, so the history shrinks by 1 plus their number |
| Deletion.DeleteKeepsNoDangling | backend/open_webui/models/chats.py:816-821 | a history without dangling parents stays without |
| Deletion.DeleteKeepsAncestors | backend/open_webui/models/chats.py:796-821 | for two survivors, "is a proper ancestor of" holds after the deletion exactly when it held before |
| Descent.ForestDescentTerminates | backend/open_webui/models/chats.py:829-832 | in a linked, acyclic history the walk over last children has a decreasing measure |
| Descent.DescentUnique | backend/open_webui/models/chats.py:829-832 | the walk over last children has one end |
| Descent.DeleteCurrentIsLeaf | backend/open_webui/models/chats.py:823-832 | the new current message is a stored leaf at or below the deleted message's parent, and none exactly when that parent is not stored or no root is left |
| Descent.DeleteCurrentNoneIffEmpty | backend/open_webui/models/chats.py:823-832 | without dangling parents the current message is none exactly when the history is empty |
| DeletionOrder.CurrentClimbsToStart | backend/open_webui/models/chats.py:823-832 | climbing from the new current message each message is the last of its parent's list, up to the deleted message's parent or the last root |
| History.History.Delete | backend/open_webui/models/chats.py:796-833 | the in-place deletion: new records, dictionary order, the start of the walk, and the set of deleted ids |
| History.History.SettleCurrent | backend/open_webui/models/chats.py:823-832 | the loop ends and sets the current message to where the walk ends |
| History.Reparent | backend/open_webui/models/chats.py:816-817 | every adopted grandchild, and no other message, gets the new parent |
| Upsert.RoleFor | backend/open_webui/models/chats.py:855-868 | a newly stored message always gets a role (which one, `UpsertStores` says) |
| Upsert.Lister | backend/open_webui/models/chats.py:847-852 | a parentless message goes below a message that lists it, and below none only if nobody does |
| Upsert.InsertedLinks | backend/open_webui/models/chats.py:845-877 | storing a new message settles exactly the pending links to it and leaves exactly its own children pending |
| Upsert.AppendLinks | backend/open_webui/models/chats.py:839-843 | extending a child list settles exactly the unlisted children named and leaves exactly the unstored ones pending |
| Upsert.InsertKeepsAcyclic | backend/open_webui/models/chats.py:845-877 | a fresh message closes no cycle |
| UpsertEffect.UpsertOverrides | backend/open_webui/models/chats.py:839-843 | upserting a stored message overrides exactly the keys it brings, key by key |
| UpsertEffect.UpsertStores | backend/open_webui/models/chats.py:845-877 | the record stored for a new message: given keys as given, and the id, parent, child list, role and time filled in, the role being the parent's opposite |
| UpsertEffect.UpsertFrame | backend/open_webui/models/chats.py:836-879 | an upsert touches no other message, keeps the order with a new id at the end, and shows the message |
| UpsertEffect.ListerIsFirst | backend/open_webui/models/chats.py:847-852 | a parentless message goes below the first message in order that lists it |
| History.History.Upsert | backend/open_webui/models/chats.py:836-879 | the in-place upsert: the saved record, the order, and the current message |
| History.History.InferRole | backend/open_webui/models/chats.py:855-868 | the role chosen when neither message nor output has one |
| Turn.TurnInBetween | backend/open_webui/main.py:1422-1522 | after each step of a turn only the named link halves are missing, and no cycle exists |
| Turn.TurnKeepsForest | backend/open_webui/main.py:1422-1522 | a turn with fresh ids takes a linked, acyclic history to one, and adds exactly the user message and the answers, below the right messages |
| Turn.TurnFrame | backend/open_webui/main.py:1422-1522 | no earlier message changes, except that the one replied to gains the user message and the one answered gains the answers, at the end of their lists |
| Turn.TurnCurrent | backend/open_webui/main.py:1422-1522 | the turn ends on the last answer, a leaf; without answers on the message replied to, if stored |
| TurnRecords.AnswerRecord | backend/open_webui/main.py:1499-1522 | the whole record of each saved placeholder |
| TurnRecords.UserRecord | backend/open_webui/main.py:1422-1497 | the whole record of the user message, the answers at the end of its list in order |
| TurnRecords.TurnOrder | backend/open_webui/main.py:1422-1522 | the user message and then the answers go to the end of the dictionary |
| TurnRecords.GrandparentLinkedOnce | backend/open_webui/main.py:1451-1461 | in any history, the user message is appended to its stored parent's list unless it is there already |
| TurnRecords.AnswersLinkedOnce | backend/open_webui/main.py:1485-1497 | in any history, the stored user message's list is extended by the answers |
| TurnRecords.AppendNewExtends | backend/open_webui/main.py:1489-1492 | extending keeps what the list had, adds exactly the missing ids, and repeats none |
| ChatStore.ChatStore.RunTurn | backend/open_webui/main.py:1422-1522 | the turn as a sequence of stored upserts: the history and the rows it leaves, which still mirror it |
| ChatStore.ExtendKids | backend/open_webui/main.py:1488-1492 | the child list extended by each new id once, in order |
| ChatStore.ConversationKeepsForest | backend/open_webui/models/chats.py:796-879 | through any sequence of fresh turns and deletions the history stays a linked, acyclic forest |
| ChatStore.ConversationCanDelete | backend/open_webui/models/chats.py:823-832 | at any time of such a sequence, deleting any message ends its walk |
| NewChat.BuildHistory | backend/open_webui/main.py:1262-1306 | the loops that build a new chat's history |
| NewChat.NewRecord | backend/open_webui/main.py:1266-1292 | the new history holds the user message, listing all answers, and a childless placeholder below it for each, and nothing else |
| NewChat.NewAnswerRecord | backend/open_webui/main.py:1274-1292 | the whole record of each placeholder, from the last entry that names it |
| NewChat.NewHistoryIsForestExactly | backend/open_webui/main.py:1262-1292 | the new history is a linked, acyclic forest if and only if the ids of the request are distinct and a stored user message has a role |
| NewChat.NewRowsMirrorExactly | backend/open_webui/models/chats.py:448-465 | the initial rows mirror the new history's ids and parent links exactly when every message has a role |
| NewChat.NewChatStartsSound | backend/open_webui/models/chats.py:416-469 | a new chat satisfies what every run and conversation starts from |
| NewChat.NewChatMatchesTurn | backend/open_webui/main.py:1262-1522 | the new history has the messages, order and links of a turn on an empty history; both show the same answer exactly when there is at most one |
| Merge.MergeHistory | backend/open_webui/models/chats.py:774-793 | the merge loops compute the merged records, order, current message and other keys |
| Merge.MergeIsLinked | backend/open_webui/models/chats.py:780-793 | whatever child lists came in, the merged ones are the exact inverse of the parent links, and the current message is merged or none |
| Merge.MergeContents | backend/open_webui/models/chats.py:775-778 | the merged records are those of both sides, the incoming one winning, with only child lists changed |
| Merge.MergeOrder | backend/open_webui/models/chats.py:774-778 | the order of the merged messages: the existing ones first, then those only the incoming side has |
| Merge.MergeChildOrder | backend/open_webui/models/chats.py:780-785 | each merged child list is in the order of the merged messages |
| Merge.MergeCurrent | backend/open_webui/models/chats.py:787-793 | the incoming current message if merged, else the existing one if merged, else none; of the other keys the incoming win |
| Merge.MergeCountsChildren | backend/open_webui/models/chats.py:780-785 | the child lists together hold each message with a stored parent exactly once |
| Merge.MergeIncomingAgain | backend/open_webui/models/chats.py:774-793 | merging with the same incoming history again changes nothing |
| Merge.MergeWithItself | backend/open_webui/models/chats.py:774-793 | merging the result with itself changes nothing |
| History.History.RepairCurrentId | backend/open_webui/models/chats.py:364-414 | only the current id may change, exactly when it is not fine and another latest leaf exists |
| History.FindLatestLeaf | backend/open_webui/models/chats.py:396-406 | the first leaf with a role among those with the largest timestamp above -1 |
| CurrentMessage.LatestLeafUnique | backend/open_webui/models/chats.py:396-406 | that leaf is determined |
| CurrentMessage.RepairTwice | backend/open_webui/models/chats.py:364-414 | a second repair changes nothing |
| CurrentMessage.RepairLandsOnLatestLeaf | backend/open_webui/models/chats.py:388-413 | a changed current id is a stored leaf with a role, none newer |
| RepairEffect.RepairExactly | backend/open_webui/models/chats.py:364-414 | in terms of the records' keys: a settled current message stays, otherwise the first newest leaf with a role becomes current |
| MirrorTable.UpsertKeepsMirror | backend/open_webui/models/chat_messages.py:210-290 | writing a stored message's row keeps the rows a mirror of ids and parent links |
| MirrorTable.DeleteKeepsMirror | backend/open_webui/models/chats.py:1057-1058 | rewriting the survivors and dropping the deleted rows keeps the mirror |
| MirrorTable.Backfill | backend/open_webui/models/chats.py:881-896 | the loop writes each message that has a role, in order |
| MirrorContents.UpsertKeepsHolds | backend/open_webui/models/chat_messages.py:210-290 | every row keeps holding its message's role, output and copied keys when a message is written |
| MirrorContents.DeleteKeepsHolds | backend/open_webui/models/chats.py:1057-1058 | so does it when the survivors are rewritten and deleted rows dropped |
| MirrorContents.OldRowHolds | backend/open_webui/models/chat_messages.py:233-260 | writing over a row makes it hold the new keys and keeps its creation time |
| MirrorContents.RebuiltContents | backend/open_webui/models/chat_messages.py:346-375 | the rebuilt record has the message's id, role, output and copied keys, an absent content reading as empty, and no other keys |
| MirrorTable.ClashExactly | backend/open_webui/models/chat_messages.py:223-224 | two chats share a composite key exactly when one prefix starts with the other |
| MirrorTable.SameLengthNeverClash | backend/open_webui/models/chat_messages.py:223-224 | chat ids of one length never share a key |
| MirrorTable.ClashOverwrites | backend/open_webui/models/chat_messages.py:223-233 | two prefixes clash if and only if some message of the one chat overwrites the parent in a row of the other |
| MirrorTable.WritesLeaveOthersExactly | backend/open_webui/models/chat_messages.py:223-233 | the writes of one chat leave all rows of another alone if and only if their prefixes do not clash |
| MirrorRebuild.RebuildMap | backend/open_webui/models/chat_messages.py:331-392 | the three loops build one record a row, with the columns the row keeps and child lists by parent link in row order |
| MirrorRebuild.RebuiltParents | backend/open_webui/models/chat_messages.py:356-375 | the rebuilt map has the history's ids and parent links, in any row order |
| MirrorRebuild.RebuiltChildren | backend/open_webui/models/chat_messages.py:377-392 | for any history, the rebuilt child sets are the history's if and only if its lists follow its parent links and nothing hangs below the empty id |
| MirrorRebuild.RebuiltDistinct | backend/open_webui/models/chat_messages.py:377-387 | no rebuilt list names a child twice |
| MirrorRebuild.RebuiltOrder | backend/open_webui/models/chat_messages.py:377-387 | each rebuilt child list is in the order in which the rows arrived |
| ChatStore.ChatStore.Upsert | backend/open_webui/models/chats.py:969-1020 | one stored upsert: history and row change together, and the rows still mirror the history |
| ChatStore.ChatStore.Delete | backend/open_webui/models/chats.py:1022-1063 | one stored deletion, and the repaired current id when there is nothing to delete |
| ChatStore.RunKeepsMirror | backend/open_webui/models/chats.py:969-1063 | after every call of any run the rows have exactly the history's ids and parent links, and hold its messages |
| ChatStore.RunRebuilds | backend/open_webui/models/chat_messages.py:331-392 | after every call of any run the rebuilt map has the history's ids, parent links and contents, and its child sets if and only if the history's lists follow its parent links |
| MirrorRebuild.FollowsWhenComplete | backend/open_webui/models/chat_messages.py:377-387 | while a history waits for link halves, the rebuilt child sets are its own if and only if none is missing |
| ChatStore.TurnHistory | backend/open_webui/main.py:1422-1522 | the stored upserts of a turn go through the histories of the turn |
| Conversations.ConversationStaysIntact | backend/open_webui/models/chats.py:909-1063 | through any sequence of stored turns, deletions and reads the history stays a linked, acyclic forest that the rows mirror |
| Conversations.ConversationRebuilds | backend/open_webui/models/chat_messages.py:331-392 | after each completed turn, deletion or read the rebuilt map has the history's ids, parent links, child sets and contents |
| Conversations.TurnRebuilds | backend/open_webui/main.py:1422-1522 | after each upsert within a turn, the rebuilt child sets are the history's if and only if no link half is missing |
| ChatStore.RunLeavesOthers | backend/open_webui/models/chat_messages.py:223-290 | no run touches the rows of a chat whose prefix does not clash |
| SelfHeal.GetMessagesMap | backend/open_webui/models/chats.py:909-960 | the map returned, and the rows after the read: exactly the missing messages that the history can supply are added |
| SelfHeal.ReturnedMap | backend/open_webui/models/chats.py:922-947 | the returned map: every message with a row, and every named message without one as the history has it |
| SelfHeal.ReadShrinks | backend/open_webui/models/chats.py:922-947 | a read writes exactly what can be filled, strictly shrinking the unwritten history while that is not empty |
| SelfHeal.ReadsConverge | backend/open_webui/models/chats.py:909-960 | after as many reads as the history has unwritten messages, nothing is left to supply and later reads change nothing |
| SelfHeal.ReadsReachLineages | backend/open_webui/models/chats.py:761-771 | after i reads the rows are exactly the first ones and what a chain of at most i missing parents leads to |
| ChatStore.MirrorNeedsNoHealing | backend/open_webui/models/chats.py:922-925 | a mirrored history is never written by a read |
| ConfigSplit.SplitApiConfigFragment | backend/open_webui/models/config.py:56-78 | the loop over field names finds the last marker and splits there, after the numeric-key case |
| ConfigSplit.SplitUndoesJoin | backend/open_webui/models/config.py:38-78 | for any key and path, the split returns exactly what was joined if and only if the pair is unambiguous |
| ConfigSplit.SplitJoinsBack | backend/open_webui/models/config.py:56-78 | whatever a fragment is split into joins to the fragment again |
| ConfigSplit.SplitJoin | backend/open_webui/models/config.py:78-78 | splitting at dots undoes joining parts without dots |
| ConfigTree.AssignPath | backend/open_webui/models/config.py:81-89 | the walk writes the value at the path and keeps every dictionary passed |
| ConfigTree.GetAssigned | backend/open_webui/models/config.py:81-89 | a path reads back what was written to it |
| ConfigTree.GetOther | backend/open_webui/models/config.py:81-89 | a write leaves incomparable paths alone |
| ConfigTree.WalkPathsAreLeaves | backend/open_webui/migrations/versions/3ff2c63645b8_reshape_config_to_per_key_rows.py:443-459 | the flattening walk yields exactly the paths of leaves |
| ConfigTree.TidyUnique | backend/open_webui/models/config.py:310-359 | leaves determine a dictionary without empty dictionaries inside |
| ConfigTree.RebuildFromLeaves | backend/open_webui/models/config.py:322-349 | writing all leaves back in any order gives the dictionary without the empty dictionaries inside it |
| ConfigRepair.RepairIsIdempotent | backend/open_webui/models/config.py:301-366 | a second repair changes nothing, whatever order the queries answer in |
| ConfigRepair.RepairFrame | backend/open_webui/models/config.py:310-362 | rows other than settings and their flattened rows keep their values |
| StartupEffect.RepairKeepsStored | backend/open_webui/models/config.py:317-349 | what a stored setting has at a path no placed row touches, it keeps |
| StartupEffect.RepairPlaces | backend/open_webui/models/config.py:322-349 | a placed row's value is at its path, when no other placed row touches it |
| StartupEffect.RowGoesExactly | backend/open_webui/models/config.py:338-362 | a flattened row goes exactly when it is placed |
| StartupEffect.PlacedExactly | backend/open_webui/models/config.py:330-347 | it is placed exactly when its fragment spells a path and no other value than a dictionary is stored under its connection |
| ConfigRepair.RepairRestores | backend/open_webui/models/config.py:310-359 | a flattened setting, under its own or former names, is restored up to empty dictionaries in any row order, when its paths read back |
| ConfigRepair.RepairRestoresExactly | backend/open_webui/models/config.py:310-359 | a flattened setting, keyed by connection or not, comes back unchanged if and only if it is non-empty, tidy and its paths are recoverable |
| ConfigRepair.ReadsBackExactly | backend/open_webui/models/config.py:56-78 | a joined path spells the same path again if and only if it is recoverable |
| ConfigRepair.EmptyDictionaryLost | backend/open_webui/migrations/versions/3ff2c63645b8_reshape_config_to_per_key_rows.py:455-456 | a setting holding an empty dictionary does not come back |
| ConfigNames.DictConfigsSeparate | backend/open_webui/models/config.py:24-36 | no name of a setting hides below another name |
| ConfigStartup.ConfigStore.RenamePrefix | backend/open_webui/models/config.py:267-298 | the loop moves the rows as `Renamed` says |
| StartupEffect.RenameMoves | backend/open_webui/models/config.py:281-289 | the row `old.f` becomes `new.f` with its value, unless that exists: then the existing one keeps its value |
| StartupEffect.RenameAddsOnly | backend/open_webui/models/config.py:281-289 | every key the rename adds is such a target |
| ConfigStartup.ConfigStore.RepairFlattened | backend/open_webui/models/config.py:301-366 | the loops over settings, queries and rows carry out the repair |
| ConfigStartup.ConfigStore.PlaceRows | backend/open_webui/models/config.py:322-349 | each found row that belongs to the setting is written into its value and collected for deletion |
| ConfigStartup.ConfigStore.SeedDefaults | backend/open_webui/models/config.py:239-264 | missing enabled defaults are added, existing rows kept |
| StartupEffect.SeedFills | backend/open_webui/models/config.py:131-136 | a default is added with its value exactly when its key is missing and the table is in charge of it |
| ConfigStartup.ConfigStore.SeedRegisteredDefaults | backend/open_webui/config.py:40-43 | the startup sequence |
| ConfigStartup.RenameClears | backend/open_webui/models/config.py:281-289 | the rename leaves no row below the old prefix and overwrites none |
| ConfigStartup.StartupIsIdempotent | backend/open_webui/config.py:40-43 | a second startup changes nothing |
| ConfigStartup.StartupClearsOldPrefix | backend/open_webui/config.py:40-43 | no row is left below the old prefix |
| ConfigStartup.StartupFrame | backend/open_webui/config.py:40-43 | rows outside the renamed and repaired keys keep their values |
| StartupEffect.StartupRenames | backend/open_webui/config.py:40-43 | a startup moves `rag.web.f` to `web.f` with its value unless that exists |
| StartupEffect.StartupSeeds | backend/open_webui/config.py:40-43 | a startup adds every missing default it is in charge of, with its value |
| StartupEffect.StartupAddsOnly | backend/open_webui/config.py:40-43 | it adds no row but moved ones, settings and defaults |
| Tasks.TaskRegistry.CreateTask | backend/open_webui/tasks.py:102-122 | a created task is known and appended to its item's list |
| Tasks.TaskRegistry.CleanupTask | backend/open_webui/tasks.py:86-99 | a cleaned task is forgotten and leaves its item's list; an emptied list goes |
| Tasks.TaskRegistry.FinishRequest | backend/open_webui/main.py:1648-1654 | for a request that names a chat and a task: deregister, then report inactive when the chat's list is empty |
| Tasks.RegistryHoldsLiveTasks | backend/open_webui/tasks.py:86-122 | over any interleaving an item's list holds exactly its created and not cleaned tasks in order of creation, without duplicates, and no empty list is kept |
| Tasks.TasksAreKnown | backend/open_webui/tasks.py:93-111 | the dictionary of tasks holds exactly the created ones neither cleaned up nor stopped |
| Tasks.DeregisterThenCheck | backend/open_webui/main.py:1648-1654 | the chat is reported inactive exactly when no other task of it was live |
| Tasks.LastTaskReports | backend/open_webui/main.py:1648-1654 | while its own task is live, a request reports inactive exactly when it was the whole list |
| RedisTasks.SetsHoldSavedTasks | backend/open_webui/tasks.py:47-65 | through any disciplined interleaving of processes an item's set holds exactly the saved tasks not cleaned up or stopped |
| RedisTasks.CleanupKeepsConsistentExactly | backend/open_webui/tasks.py:55-65 | a clean-up keeps hash and sets together exactly when it names the item the task was saved under |
| Automations.AutomationStore.ClaimDue | backend/open_webui/models/automations.py:282-325 | the claimed rows are an answer to the query and get the answered next run and this last run; others keep their values |
| Automations.SelectDue | backend/open_webui/models/automations.py:292-305 | the earliest due rows outside the locked ones, up to the limit |
| Automations.ClaimedInTime | backend/open_webui/models/automations.py:282-325 | a due automation with k rivals is claimed within k / limit + 1 calls |
| Automations.DueFromNextRun | backend/open_webui/models/automations.py:319-321 | until claimed again, a claimed automation is due exactly from its answered next run on |
| Automations.ClaimedAgain | backend/open_webui/models/automations.py:282-325 | it is claimed again within the rivals' bound from its next run, and not before |
| Automations.NotClaimedEarly | backend/open_webui/models/automations.py:292-300 | it is not claimed in the first e / limit calls when e automations run strictly earlier |
| Automations.NoSlotClaimedTwice | backend/open_webui/models/automations.py:286-305 | however claimers interleave under skip-locked, no scheduled slot is claimed twice |
| Automations.SharedRow | backend/open_webui/models/automations.py:286-323 | among concurrent claimers a row changes only when the claimer that locked it commits, and stays active |
| Glob.TranslationIsPerCharacter | backend/open_webui/models/files.py:289-294 | the five successive replacements amount to one translation a character |
| Glob.TranslatedTokens | backend/open_webui/models/files.py:275-295 | the translated pattern is always a legal LIKE pattern, one token a glob character |
| Glob.TranslationPreservesMatching | backend/open_webui/models/files.py:275-295 | the LIKE pattern matches a text exactly when the glob does, also with `\`, `%` and `_`, with and without regard to case |
| Glob.SearchIsGlobMatch | backend/open_webui/models/files.py:324-326 | the search keeps a file name exactly when the glob matches it |
| Glob.TranslationIsInjective | backend/open_webui/models/files.py:275-295 | no two globs share a translation |
| Folders.SubtreeIds | backend/open_webui/models/folders.py:252-269 | the worklist walk ends and returns the root and its subtree, each folder once |
| Folders.RootMetAgainExactly | backend/open_webui/models/folders.py:262-267 | the walk would meet its root again exactly when the root lies below itself |
| Folders.ChildFolders | backend/open_webui/models/folders.py:194-215 | the recursive walk returns exactly what lies below, each folder once and after everything below it, and none when the user has no such folder |
| Folders.WalksAgree | backend/open_webui/models/folders.py:194-269 | the worklist's result is the root plus exactly the recursion's |
| Folders.FolderStore.DeleteChildren | backend/open_webui/models/folders.py:381-391 | the recursion deletes exactly what lies below and lists it, lower folders first |
| Folders.FolderStore.DeleteFolder | backend/open_webui/models/folders.py:367-398 | exactly the folder's subtree goes and is listed, the folder first; nothing happens for another user's folder |
| Folders.NobodyPointsIntoDeleted | backend/open_webui/models/folders.py:367-398 | no remaining folder of the user has a deleted parent |
| Channels.CountsMatchExactly | backend/open_webui/models/channels.py:437-455 | with one row each, the two counts match exactly for the channels whose members are the users, if there are any |
| Channels.DuplicateRowsMislead | backend/open_webui/models/channels.py:446-455 | without that condition a channel whose one member has two rows passes the test for two users |
| Channels.LookupIsExact | backend/open_webui/models/channels.py:432-466 | the lookup finds a direct-message channel with exactly the requested users whenever there is one |
| Channels.MemberStore.AddMembers | backend/open_webui/models/channels.py:468-492 | the requested users become members, one row each; no other row changes, new ones are active |
| Channels.MemberStore.InsertNewChannel | backend/open_webui/models/channels.py:361-373 | a new channel gets exactly its users, one active row each |
| Channels.MemberStore.RemoveMembers | backend/open_webui/models/channels.py:494-508 | exactly the rows of the named users in the channel go, and are counted |
| Channels.MemberStore.Join | backend/open_webui/models/channels.py:528-564 | joining adds one active row for a user without one, and changes nothing otherwise |
| Channels.MemberStore.Leave | backend/open_webui/models/channels.py:566-584 | leaving marks the user's row, changes no other, and keeps the membership |
| AccessGrants.AccessControlToGrants | backend/open_webui/models/access_grants.py:83-147 | the grants of an access control, in order |
| GrantEffect.GrantPlaces | backend/open_webui/models/access_grants.py:115-147 | each grant at its place: read before write, groups before users |
| AccessGrants.GrantsToAccessControl | backend/open_webui/models/access_grants.py:276-318 | the access control collected from grants |
| GrantEffect.CollectedLists | backend/open_webui/models/access_grants.py:289-318 | each list has the ids of its grants, each at its first place |
| GrantEffect.AccessControlComesBackExactly | backend/open_webui/models/access_grants.py:83-318 | access control comes back unchanged from its grants if and only if nothing in it is repeated, empty or public among lists |
| AccessGrants.ThereBackAndThere | backend/open_webui/models/access_grants.py:83-318 | access control to grants, back and again gives the same grants, or just the public-read one |
| AccessGrants.BackAndForthKeepsExactly | backend/open_webui/models/access_grants.py:276-318 | grants survive the old format if and only if each can be expressed and a public read stands alone |
| AccessGrants.NormalizeAccessGrants | backend/open_webui/models/access_grants.py:150-188 | the loop that validates and de-duplicates |
| AccessGrants.NormalizedContents | backend/open_webui/models/access_grants.py:160-188 | the result holds the grants of the items the loop accepts, each with the id of its last submission |
| GrantEffect.NormalizedExactly | backend/open_webui/models/access_grants.py:160-188 | the result holds exactly the submitted grants that are valid, a grant to anyone being the public read, each under the id of its last submission |
| GrantEffect.SubmittedIsKept | backend/open_webui/models/access_grants.py:160-188 | every valid submitted grant is in the result |
| GrantEffect.FirstSubmissionOrder | backend/open_webui/models/access_grants.py:178-188 | the result is in the order of first submissions |
| AccessGrants.NormalizeIsIdempotent | backend/open_webui/models/access_grants.py:150-188 | normalising again changes nothing, and no two results share the table's unique key |

## Left out

- Message contents, usage merging, the `done` flag's default and null-byte cleaning: `rest` maps, of which the rows copy the keys in `COLUMNS`; a record's value that is not a dictionary is modelled in `Merge` only, and a `childrenIds` value is a list or missing.
- Clocks, uuid generation and `next_run_ns`: parameters; of `next_run_ns` only the contract "none, or after now" is used.
- SQL sessions, dialects and failed writes: a committed call is one atomic step on a map, and the swallowed write errors of the mirror do not happen.
- ChatStore.ChatStore.Delete: asks that the walk over last children ends, because the source loops forever on a cyclic child list; `ConversationCanDelete` shows that turns and deletions never produce one.
- Turn.TurnKeepsForest: asks for fresh, distinct ids; saving an id again would reset its record, which the source allows.
- Turn.TurnInBetween: other calls on the same chat between the steps of a turn are not interleaved.
- Folders.SubtreeIds: asks that the folder does not lie below itself, exactly the case in which the source would walk for ever; setting a folder's parent is not modelled.
- ConfigTree.AssignPath: the nested dictionaries are values and the passed ones are kept as frames, so aliasing between dictionaries is not modelled.
- ConfigStartup.ConfigStore.RepairFlattened: a setting already stored as a dictionary is read, changed in place and assigned back as the same object of a plain JSON column; whether the session notices that change and writes it is not modelled, the model writes it.
- ConfigRepair.RepairRestoresExactly: is about a setting for which no dictionary is stored yet, so it does not depend on the line above.
- MirrorTable.Backfill: a row whose message brings no timestamp gets its creation time from the clock, which the rows do not keep.
- ConfigStartup.ConfigStore.RenamePrefix: asks that the old prefix holds no `_` and differs from the new one at some letter, as the only call does; LIKE is taken as case-sensitive.
- `stop_item_tasks`, which iterates a list that clean-ups shrink, and the interleaving of single Redis commands within one call.
- Concurrent joins of one user, which the table does not forbid: membership calls are atomic steps.
- Grants' resource type and id, which the conversions copy unchanged.
- Routing, sockets, OAuth, provider calls, search and analytics queries, and the user interface.
