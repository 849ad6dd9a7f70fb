# GravityLAN, verified

A Dafny model of the parts of GravityLAN that are state machines or algorithms, with proofs of what they
promise. Check everything with `dafny verify dfyconfig.toml`.

| part | files |
|---|---|
| Tidy tree of the demo topology | SpanningTree, TreeLayout |
| Duplicates in the import and in the migration | Duplicates, Agreement, SettingsImport |
| Backup export and import | Rows, Cascade, DeviceIdentity, DeviceRows, BackupImport, ImportedRows, ImportSafety, RoundTrip, Instance |
| Scan answers and the device inventory | Networks, Placeholders, Sync, Matching, SyncSafety, Roaming, Inventory |
| Start-up repair of addresses | Repair |
| Racks, ports and cables | Racks, RackStore |
| Health score, uptime and latency | Health, Rounding, Uptime, UptimeFigures, Latency |
| Online/offline hysteresis | Presence |
| Login limiter | LoginLimiter |
| Recent SSH connections | SshHistory |
| ARP filter | ArpFilter |
| Text and option types | Texts, Wrappers |

Code that changes state step by step is modelled by classes and methods with loops. Each is proved to compute
a function of its inputs or of the old state; what the code promises is then proved about that function, for
all inputs and all runs, and its answers are stated a second time without it: in the fields of the rows, in plain
numbers, or by what comes before and after. Request handlers and scan answers are atomic steps.

## Where the code and its descriptions part

- Settings rows lose their ids before duplicates are dropped, so of several rows with one key the import restores
  the first of the backup and not "the newest (highest id)" (`SettingsImport.NewestIsRestored` has the exact
  condition, `SettingsImport.NewerValueIsLost` an instance). The settings table has a unique key, so it takes a
  backup from before that key or one put together by hand.
- The SQL form "keep the newest row per key" is applied to one key set after another, the import's rule to all at
  once. On every table a backup restores the two agree (`Duplicates.ImportAgreesWithMigration` for one key set,
  `Agreement.PortsAgree` for rack_ports). On agent_tokens, which only the migration treats, they would not
  (`Agreement.TokensChain`); `Agreement.AgreeUnlessChained` has the exact condition.
- A device displaced from an address it came from, or from a placeholder, may be given that very address
  again. The unique key then refuses the whole answer (`SyncSafety.MoveKeepsDistinct` has the exact condition,
  `SyncSafety.SentBackIsBlocked` how it comes about, `SyncSafety.SecondAnswerIsLost` an instance).
- The start-up repair is not idempotent: a placeholder without a container moves at every start
  (`Repair.RepairSettled`, `Repair.LoneDeviceAlternates`).
- "Score 0-100" holds for devices watched around the clock only (`Health.PartTimeRange` has the exact condition),
  and a silent agent can raise the score of a device that may sleep (`Health.SilentAgentHelps`).
- "Points lost for uptime below 99 %": the first point goes at 97.75 % (`Health.FaultFreeExactly`).
- "Replace the allowed tables with the backup rows": the statement names the columns of the first row, so a column
  that is not required and that only later rows have is not restored (`ImportedRows.LaterColumnsAreLost`).
- The latency curve covers "the window" only for fewer than 20 points or a multiple of 20
  (`Latency.SparklineReach`).
- "At most five within the sliding window" holds for half-open windows; a closed interval of 60 seconds can
  hold six attempts (`LoginLimiter.SixWithinSixtySeconds`).
- The list of recent connections is the unbounded list cut at 20 until an entry is deleted by hand
  (`SshHistory.DeletionShows`).
- The ARP filter looks for local sharers of a MAC among IPv4 addresses only. No subnet the program detects triggers
  this, since it detects IPv4 subnets only (`ArpFilter.NearWithIpv4Subnets`); `ArpFilter.NearUnlessMixed` has the
  exact condition for a caller that passes IPv6 subnets.
- A profile detached by an import keeps its target unless the old device's address has blanks around it
  (`DeviceIdentity.DetachedTarget`, with an instance in `DeviceIdentity.BlankIsTrimmed`).

## Model

| member | source | states |
|---|---|---|
| SpanningTree.AdjacencyIsEdges | scripts/demo_scenarios.py:415-422 | The adjacency lists hold exactly the edges: a primary link in both directions, a guest only from its host |
| SpanningTree.EdgeMeans | scripts/demo_scenarios.py:415-422 | An edge in the fields of the data: a link of two or three fields, followed both ways, or a device that names the node as its parent, which is not empty |
| SpanningTree.LinksInOrder | scripts/demo_scenarios.py:416-418 | In an adjacency list whoever an earlier link joins comes first |
| SpanningTree.GuestsInOrder | scripts/demo_scenarios.py:419-422 | and guests follow what links join, in the order of the devices |
| SpanningTree.BuildAdjacency | scripts/demo_scenarios.py:415-422 | The two loops build those lists |
| SpanningTree.WalksAreCovered | scripts/demo_scenarios.py:424-433 | No walk from the root reaches a node in fewer steps than the depth the search gives it |
| SpanningTree.SearchSpans | scripts/demo_scenarios.py:424-433 | When the queue is empty the children form a tree of exactly the reachable nodes, each at its shortest distance from the root, each with one parent |
| SpanningTree.ChildrenAreShortest | scripts/demo_scenarios.py:424-433 | What the spanning tree says about the map of children alone |
| SpanningTree.Search | scripts/demo_scenarios.py:424-433 | The queue loop, for every directed adjacency and root: the children it returns are exactly the reachable nodes but the root, each of one parent that is one step nearer to the root; nodes are discovered in the order of their parents, by the first node joined to them, and siblings in the order of the list |
| TreeLayout.Nested | scripts/demo_scenarios.py:438-447 | The leaves of a subtree are consecutive columns, and a subtree inside another takes columns inside its interval |
| TreeLayout.SiblingsInOrder | scripts/demo_scenarios.py:438-447 | Siblings take their leaves from left to right without a gap between their intervals |
| TreeLayout.Apart | scripts/demo_scenarios.py:438-447 | Subtrees neither of which contains the other have disjoint column intervals |
| TreeLayout.ColumnWithin | scripts/demo_scenarios.py:438-447 | The column of a node lies in the interval of its subtree; where exactly, GridIsCentred and GridHasLeafColumns say |
| TreeLayout.LeafInColumn | scripts/demo_scenarios.py:438-447 | Every column of an interval is the column of one of the leaves of that subtree, so there are no gaps |
| TreeLayout.PlacesDistinct | scripts/demo_scenarios.py:438-447 | Two nodes of the tree never share column and row |
| TreeLayout.Placer.PlaceNode | scripts/demo_scenarios.py:435-447 | The recursion with the shared counter terminates, advances the counter by the number of leaves and gives exactly the nodes of the subtree their columns and depths; what these columns are, the next rows say |
| TreeLayout.GridIsCentred | scripts/demo_scenarios.py:438-447 | Every node with children stands exactly in the middle of its first and its last child, the children taken from the map the search returns |
| TreeLayout.GridIsLeftToRight | scripts/demo_scenarios.py:435-447 | Children stand from left to right in the order of the adjacency list of their parent |
| TreeLayout.GridHasLeafColumns | scripts/demo_scenarios.py:437-441 | The reachable nodes without children hold the columns 0, 1, .. , each exactly one of them |
| TreeLayout.RowInOrder | scripts/demo_scenarios.py:424-447 | On every row the subtrees stand in the order in which the search discovered their roots |
| TreeLayout.GridHasBestParents | scripts/demo_scenarios.py:424-433 | Of all reachable nodes joined to a child its parent is the one on the highest row, and on that row the leftmost |
| TreeLayout.RestIsRest | scripts/demo_scenarios.py:450-453 | The devices that cannot be reached take the columns after the last leaf on the top row, in the order of the list, each once |
| TreeLayout.Leftover | scripts/demo_scenarios.py:450-453 | The devices the tree does not reach, each once |
| TreeLayout.NoOverlap | scripts/demo_scenarios.py:449-454 | In the finished layout, leftovers included, no two names share a place |
| TreeLayout.GridIsTidy | scripts/demo_scenarios.py:413-454 | That the laid-out tree with its leftovers has these properties |
| TreeLayout.TreeGrid | scripts/demo_scenarios.py:413-454 | The whole function, in terms of devices and links: who gets a place, that no two share one, that the row is the shortest distance from the root; that inner nodes are centred, children stand in list order, leaves fill the columns from 0 on, every parent is the best one, and whoever cannot be reached follows on the top row |
| Duplicates.KeepNewestUnique | backend/app/api/backup.py:305-326 | The kept rows are unique on every key set; an empty key column never counts as a duplicate |
| Duplicates.DroppedForNewer | backend/app/api/backup.py:305-326 | Every dropped row conflicts with a kept row of at least its id |
| Duplicates.NothingToDrop | backend/app/api/backup.py:305-326 | Rows without duplicates pass unchanged, order included |
| Duplicates.KeptForKey | backend/app/api/backup.py:317-324 | With one key set a row with a full key is kept or gives way to a kept row with the same key |
| Duplicates.WithoutIdsTheFirstStays | backend/app/api/backup.py:317-324 | Of rows without ids the first one of every key stays, and no other |
| SettingsImport.FirstIsRestored | backend/app/api/backup.py:198-202 | Of the open settings rows of a backup with one key the one that stands first is restored, and no other |
| SettingsImport.NewestIsRestored | backend/app/api/backup.py:305-326 | so the newest of a key is restored if and only if it stands first or equals the first apart from its id |
| SettingsImport.OldestFromExport | backend/app/api/backup.py:116-119 | In a backup in id order the row that stands first, and is restored, has the lowest id of its key |
| SettingsImport.NewerValueIsLost | backend/app/api/backup.py:305-326 | Of two rows with one key, ids 1 and 2 and different values, the value of id 1 comes back |
| Duplicates.ConflictMeans | backend/app/api/backup.py:319 | Two rows are duplicates when they agree on all columns of one key set, none of which is empty |
| Duplicates.DropDuplicates | backend/app/api/backup.py:305-326 | The loop over the rows computes that reduction and the number of dropped rows |
| Duplicates.Remember | backend/app/api/backup.py:321-323 | Taking a row adds its full keys, and only those, to the sets of taken keys |
| Duplicates.SqlKeepAllUnique | backend/app/database/migrations.py:326-345 | Deleting all but MAX(id) for one key set after another leaves every key set unique at the end |
| Duplicates.SqlKeepRest | backend/app/database/migrations.py:348-368 | Key sets that are already unique stay so while the missing ones are enforced |
| Duplicates.ImportAgreesWithMigration | backend/app/database/migrations.py:326-345 | For one key set and distinct ids the import keeps exactly the rows the SQL form keeps |
| Duplicates.AddMissingUniqueIndexes | backend/app/database/migrations.py:348-368 | The migration of one table: every missing key set whose turn goes through gets its index after the SQL form has deleted the older rows; one that fails is rolled back and the next has its turn |
| Agreement.KeptStays | backend/app/database/migrations.py:326-368 | Where no chain comes in, a row the import keeps is there at every turn of the migration |
| Agreement.WithoutChainsTheyAgree | backend/app/database/migrations.py:326-368 | Where no chain comes in, import and migration keep the same rows, for any number of key sets |
| Agreement.ImportSpares | backend/app/api/backup.py:317-324 | In a chain of three rows the import keeps the oldest, whose only rival has gone |
| Agreement.MigrationDrops | backend/app/database/migrations.py:326-368 | and the migration deletes it, for a row that then goes itself |
| Agreement.AgreeUnlessChained | backend/app/database/migrations.py:326-368 | Import and migration agree on all tables that some rows can make up if and only if no three of the rows form a chain |
| Agreement.KeptIffNoRival | backend/app/api/backup.py:305-326 | Where a rival of a rival is a rival, the import keeps exactly the rows without a newer conflicting row |
| Agreement.PortsDoNotChain | backend/app/models/rack_cabling.py:47-51 | Rows of rack_ports, which have exactly one owner, form no chains |
| Agreement.PortsAgree | backend/app/models/rack_cabling.py:47-51 | So import and migration keep the same ports; it is the only table a backup restores that has several key sets |
| Agreement.PortsKept | backend/app/models/rack_cabling.py:47-51 | namely those that no newer row gives the same owner and number |
| Agreement.TokensChain | backend/app/models/agent.py:36-39 | On agent_tokens, which only the migration treats, the two rules differ: three tokens of which it keeps one and the other rule two |
| Cascade.CleanupRows | backend/app/api/backup.py:277-302 | Which items, ports, cables and links one pass leaves, in terms of the references only |
| Cascade.EmptyReferences | backend/app/api/backup.py:286 | With empty values, as NOT IN reads them: no racks, no items; a rack without an id keeps all items; an item that names no rack stays while there are racks |
| Cascade.CleanupCloses | backend/app/api/backup.py:277-302 | After the pass no reference among racks, items, ports, cables, links and devices is broken |
| Cascade.CleanupIsLargest | backend/app/api/backup.py:277-302 | Any selection of rows with all references intact is kept: nothing is deleted without need |
| Cascade.ThreeRounds | backend/app/api/backup.py:277-302 | The pass equals three simultaneous rounds of ON DELETE CASCADE |
| Cascade.CascadeSettles | backend/app/api/backup.py:277-302 | Further rounds of the cascade change nothing |
| Cascade.CleanupIsCascade | backend/app/api/backup.py:277-302 | The hand-coded clean-up is the fixpoint of the real cascade |
| Texts.LowerJoinsCases | backend/app/api/backup.py:232 | Two texts read alike in lower case exactly when they differ at most in the case of letters |
| Texts.StripTrims | backend/app/api/backup.py:232 | Trimming takes off the blanks at both ends, all of them and nothing else |
| DeviceIdentity.TokenSurvives | backend/app/api/backup.py:242-265 | A token stays exactly when its device id did not exist before or still names the same device |
| DeviceRows.SameWhenMacsAgree | backend/app/api/backup.py:235-239 | Device rows with one id before and after: the same device if and only if the MACs, trimmed and in lower case, agree; where one of them is empty, if and only if the trimmed addresses agree |
| DeviceRows.RowsFollowMacs | backend/app/api/backup.py:242-265 | After any import an agent token, an interface or a history row that the backup did not bring is there exactly when it was and the full MACs agree, at any address; without one of the MACs, exactly when the addresses agree |
| DeviceRows.RowsOfNoDevice | backend/app/api/backup.py:242-265 | It goes if its device is gone, and stays if there was no such device before |
| DeviceRows.PortsFollowMacs | backend/app/api/backup.py:242-285 | The same for rack ports, which besides need the rack item they may name |
| DeviceRows.ConnectionsFollowMacs | backend/app/api/backup.py:266-273 | A saved connection stays as it was under the same conditions; else it loses the device, keeps its own host or gets the trimmed address of the old device, and all its other columns stay |
| DeviceRows.ConnectionsOfNoDevice | backend/app/api/backup.py:266-273 | It is unbound the same way if its device is gone, and untouched if there was none |
| DeviceRows.ReassignedIds | backend/app/api/backup.py:250-254 | Which ids an import reports as reassigned, in terms of the device rows |
| DeviceIdentity.AddressOfIdentity | backend/app/api/backup.py:229-232 | The address in an identity is that of the devices table without surrounding blanks |
| DeviceIdentity.DetachedTarget | backend/app/api/ssh.py:198-203 | An unlinked profile keeps its effective host exactly when it has a host of its own or the old address carries no blanks around it |
| DeviceIdentity.BlankIsTrimmed | backend/app/api/backup.py:266-273 | An address stored with a leading blank: the unlinked profile is opened at the trimmed one |
| ImportSafety.ProtectedUnchanged | backend/app/api/backup.py:138-142 | No backup changes a protected setting, so the check before the commit never fires |
| ImportSafety.SecretsStay | backend/app/api/backup.py:138-142 | The rows of the three protected keys are there after any import exactly as before |
| ImportSafety.ImportKeepsTokens | backend/app/api/backup.py:329-394 | After any import a token is there exactly when it was before and its device id, if it existed, still names the same device, which DeviceRows spells out; none is added |
| ImportSafety.ImportUnlinksConnections | backend/app/api/backup.py:266-273 | After any import saved connections and their history are all there; those of a reassigned device, which DeviceRows spells out, lose the binding and keep its address |
| ImportSafety.ImportKeepsTargets | backend/app/api/backup.py:266-273 | A profile detached by an import keeps its effective target, exactly under the condition above |
| ImportSafety.ImportCloses | backend/app/api/backup.py:384-386 | After any import every rack item, port, cable and link refers to rows that exist, also where the detaching removed ports just before |
| ImportSafety.ImportedLinksSafe | backend/app/api/backup.py:215-218 | After any import the services are those from before or all their links are safe |
| ImportSafety.OtherTablesUntouched | backend/app/api/backup.py:350-379 | A table that no section of the backup names is not touched by the sections |
| ImportedRows.SectionArrives | backend/app/api/backup.py:350-379 | After a section its table holds rows of the backup only, column by column as the backup, the defaults and the database say; it meets all constraints of the table, and what is missing was a duplicate and is counted |
| ImportedRows.LaterColumnsAreLost | backend/app/api/backup.py:371-378 | A value for a column that is not required comes back if and only if the row whose columns the statement names has the column, or the database fills in the same |
| ImportedRows.ImportArrives | backend/app/api/backup.py:350-386 | and so it is after the whole import, for every table that the clean-up does not treat |
| ImportedRows.InsertedMeets | backend/app/api/backup.py:371-378 | Rows that are inserted keep the required columns filled, the condition of the table true, and ids and keys unique |
| RoundTrip.ExportHolds | backend/app/api/backup.py:105-122 | An export holds every table it knows row for row; of tables an older database lacks the five oldest are written empty and the others left out |
| RoundTrip.ExportImports | backend/app/api/backup.py:99-123 | Importing the export of any sound instance into any instance of the version, also one with duplicates, broken references or unsafe links, succeeds; every table exported with rows arrives row for row, the settings around the protected ones of the target |
| RoundTrip.OwnExportChangesNothing | backend/app/api/backup.py:329-394 | Importing its own export changes nothing in an instance but its settings rows |
| RoundTrip.SameSettings | backend/app/api/backup.py:198-202 | and those are the same settings apart from their ids |
| RoundTrip.CleanupKeeps | backend/app/api/backup.py:277-302 | The clean-up deletes nothing from tables whose references hold |
| Instance.Instance.ReadDb | backend/app/api/backup.py:99-123 | The export loop yields the metadata and one section per table that exists |
| Instance.Instance.InsertAll | backend/app/api/backup.py:371-378 | The rows go in one after another; a refused one stops the statement |
| Instance.Instance.DetachReassignedDevices | backend/app/api/backup.py:242-274 | The deletes and updates, table by table, amount to the detaching that DeviceRows spells out |
| Instance.Instance.DropOrphans | backend/app/api/backup.py:277-302 | The deletes in their order, each on what the one before left, amount to the clean-up |
| Instance.Instance.ImportOne | backend/app/api/backup.py:350-379 | One section: skipped, or its table emptied and refilled, or an error |
| Instance.Instance.WriteDb | backend/app/api/backup.py:329-402 | The whole import: what DeviceRows, ImportedRows and ImportSafety say of its result; any error leaves the tables exactly as they were |
| Networks.LongerIsInner | backend/app/scanner/sync.py:36-41 | Of two networks around one address the one with the longer prefix lies inside the other |
| Networks.ByPrefixFalls | backend/app/scanner/sync.py:68-83 | The lookup order: longest prefix first |
| Networks.LongestPrefix | backend/app/scanner/sync.py:36-41 | A subnet is found exactly when one holds the address, and then every other one around the address contains it |
| Networks.ContainsMeans | backend/app/scanner/sync.py:36-41 | A network of a prefix is the block of 2 to the (32 - prefix) addresses around its base |
| Networks.CrossSegments | backend/app/scanner/sync.py:43-55 | When two addresses are in different segments: other CIDR texts, only one in a subnet, or none and they differ before the last number; never for what is no IPv4 address |
| Placeholders.FirstFree | backend/app/scanner/sync.py:416-429 | The first placeholder address nobody uses |
| Placeholders.FewProbes | backend/app/database/migrations.py:98-104 | It is among the first size of used + 1, by the pigeonhole principle |
| Placeholders.Search | backend/app/database/migrations.py:98-104 | The counting loop terminates and finds it |
| Placeholders.ReusableForms | backend/app/scanner/sync.py:408-413 | Which former addresses may be given back: every IPv4 address, and text of the dotted shape or a generic name that does not begin with "offline-" |
| Matching.ByIpUnlessRejected | backend/app/scanner/sync.py:237-260 | The device at the address is matched unless the scanned MAC is not its own but that of exactly one other device that is no Unraid host |
| Matching.ByMacIsOwner | backend/app/scanner/sync.py:296-309 | A MAC with one owner matches it, unless it is an Unraid host elsewhere |
| Matching.ByNameFits | backend/app/scanner/sync.py:263-270 | A match by name has the name, and is a placeholder if any device of that name is; no match means that no device has it |
| Matching.AddressOrOwner | backend/app/scanner/sync.py:273-293 | If a device is at the address the answer goes to it, or to the owner of the MAC that rejects it, never by name |
| Matching.OwnerThenName | backend/app/scanner/sync.py:273-309 | If none is, it goes to the one owner of the MAC that is no Unraid host, else by name, else to nobody |
| Matching.UnraidByAnyName | backend/app/scanner/sync.py:228-234 | A host is an Unraid host by any of its three names |
| SyncSafety.OwnHitMatches | backend/app/scanner/sync.py:273-293 | An answer at a device's address with its MAC is matched to that very device |
| SyncSafety.StepKeepsSettled | backend/app/scanner/sync.py:563-617 | One harmless answer, whatever it does to other devices, leaves an online device where it is and online |
| SyncSafety.RunKeepsSettled | backend/app/scanner/sync.py:506-520 | So does any run of harmless answers, under subnets that may change in between |
| SyncSafety.AnswerArrives | backend/app/scanner/sync.py:447-503 | An accepted answer of a device that need not keep its address, which Roaming spells out, puts it there, online, its former address remembered; only a device that was there is displaced, to another address and offline |
| SyncSafety.StepKeepsMacs | backend/app/scanner/sync.py:447-503 | No answer changes an id or replaces a valid MAC |
| SyncSafety.RunKeepsMacs | backend/app/scanner/sync.py:563-617 | nor does any run of answers |
| SyncSafety.MoveKeepsDistinct | backend/app/scanner/sync.py:432-444 | A move keeps all addresses distinct if and only if no device at the new address is blocked there by its own old_ip or by the placeholder search |
| SyncSafety.OrdinaryMoves | backend/app/scanner/sync.py:471-483 | So it does whenever the displaced device's old_ip is another address and the address is no placeholder |
| SyncSafety.RefusedMoveIsLost | backend/app/scanner/sync.py:140-151 | A move that the unique key refuses leaves no trace |
| SyncSafety.SentBackIsBlocked | backend/app/scanner/sync.py:408-429 | A device sent back to its old_ip is blocked there from then on |
| SyncSafety.FirstAnswer | backend/app/scanner/sync.py:432-483 | Two devices at .1 and .2, the second from .3: when the first answers at .2, the second goes back to .3 and is blocked there |
| SyncSafety.SecondAnswerIsLost | backend/app/scanner/sync.py:432-483 | and when the first then answers at .3, this answer is lost and it stays listed at .2 |
| Roaming.RoamsExactly | backend/app/scanner/sync.py:506-520 | A device found by MAC or name that answers at a free address in another segment ends up there if and only if it has no interface, neither address is the gateway of its subnet, and it is offline or a placeholder; otherwise no device changes, and the address becomes its interface exactly for a match by MAC at a gateway |
| Roaming.ArrivesUnlessBlocked | backend/app/scanner/sync.py:447-503 | In its own segment, or free to roam, it arrives unless another device there is blocked; then nothing changes |
| Roaming.SafeAddressMeans | backend/app/scanner/sync.py:416-429 | The safe address: the former one if it may be reused and no other device has it, else the first placeholder no other device has |
| Roaming.MakesRoom | backend/app/scanner/sync.py:432-444 | A device that is at the address goes there, offline and a placeholder; every other device stays as it is |
| Roaming.RefreshedNames | backend/app/scanner/sync.py:454-469 | What an answer does to names: a host name fills only one that says nothing, the shown name follows only if it says nothing either, and a lent name replaces no given one |
| Roaming.ValidMacs | backend/app/scanner/sync.py:89-94 | Blank, zero, broadcast and multicast MACs are none; all others are valid |
| Roaming.InterfaceAnswers | backend/app/scanner/sync.py:523-531 | An answer at the address of an interface refreshes that interface and nothing else |
| Inventory.Inventory.FindSafePlaceholderIp | backend/app/scanner/sync.py:416-429 | The old address if it may be reused and is free, else the first free placeholder |
| Inventory.Inventory.ResolveIpConflict | backend/app/scanner/sync.py:432-444 | The device at the address, if there is one, goes offline to its safe address; no other changes |
| Inventory.Inventory.UpdateDashboardDevice | backend/app/scanner/sync.py:447-503 | The device is refreshed, moved and remembers its former address, after the conflict is resolved |
| Inventory.Inventory.SyncHost | backend/app/scanner/sync.py:563-617 | One answer, committed or rolled back, is the step that Matching, SyncSafety and Roaming are about; addresses stay distinct |
| Inventory.Inventory.SyncAll | backend/app/scanner/sync.py:117-128 | A run of batches of one host is a run of such steps |
| Repair.FirstLender | backend/app/database/migrations.py:107-112 | The first container in order that matches by name and whose address is free lends it |
| Repair.OnlyContainersRevive | backend/app/database/migrations.py:127-170 | A repaired record is online, and no placeholder, exactly when some container lends it an address |
| Repair.RepairOneChanges | backend/app/database/migrations.py:127-144 | A repaired record always changes: no fallback chooses the address it has |
| Repair.RepairKeepsDistinct | backend/app/database/migrations.py:147-177 | The set of used addresses is the set of addresses all along, and no two records share one |
| Repair.RepairTouches | backend/app/database/migrations.py:154-177 | Exactly the corrupted records change, in address and flags only, and no "offline-" address is left |
| Repair.RepairSettled | backend/app/database/migrations.py:154-177 | A start-up changes nothing if and only if no record is corrupted |
| Repair.LoneDeviceAlternates | backend/app/database/migrations.py:154-177 | Repairing is not idempotent: a lone placeholder alternates between 0.0.0.0 and 0.0.0.1 |
| Repair.RepairTurn | backend/app/database/migrations.py:127-177 | Every corrupted record, against the table as it is at its turn: the first container by name whose address is free or its own; without one the old_ip, if it may be reused and nobody has it; else the first placeholder nobody has. All others stay |
| Repair.FormerAddressReturns | backend/app/database/migrations.py:115-124 | In particular, without containers a device at an "offline-" address gets its free former IPv4 address back |
| Repair.OfflineInAnyCase | backend/app/database/migrations.py:157 | The LIKE pattern takes "offline-" in any case |
| Repair.RepairCorrupted | backend/app/database/migrations.py:154-177 | The loop over the corrupted records, in place, does what RepairTurn says of each |
| Racks.HeightsAreUnits | backend/app/api/rack_cabling.py:23-25 | Placed items together take as many units as their heights add up to: none is counted twice |
| Racks.RackNotOverfull | backend/app/api/rack_cabling.py:28-46 | The heights of what is placed in a rack never exceed its units |
| Racks.EndsCount | backend/app/api/rack_cabling.py:163-181 | The cables of a matching have twice as many ends |
| Racks.CablesBounded | backend/app/api/rack_cabling.py:163-181 | at least twice as many ports as cables |
| Racks.MatchingShrinks | backend/app/api/rack_cabling.py:133-144 | Deleting ports with their cables leaves a matching |
| RackStore.MatchingSurvives | backend/app/api/rack_cabling.py:63-79 | Setting ports keeps the cables a matching because no cabled port is dropped |
| RackStore.AddedSet | backend/app/api/rack_cabling.py:63-79 | After the loop the owner has exactly the ports 1 .. count of one kind and side; kept ones keep their ids |
| RackStore.PortsSetMeans | backend/app/api/rack_cabling.py:63-79 | What setting ports does to each port: kind and side of all of the owner, the numbers above the count gone, other owners untouched |
| RackStore.GoesWithOwners | backend/app/api/rack_cabling.py:132-144 | A port goes exactly with its owner, and a cable exactly with one of the owners at its ends |
| RackStore.AllFitMeans | backend/app/api/topology.py:66-73 | A rack of some height holds what is placed in it when no unit is below 1 or above that height |
| Racks.PlacementMeans | backend/app/api/rack_cabling.py:28-46 | In plain numbers: 404 exactly without the rack, 422 exactly when lowest or highest unit are outside it, and for what fits 409 exactly when a device of the rack (of height 1 if it has none or 0) or another item is in one of the units |
| RackStore.Store.CheckPlacement | backend/app/api/rack_cabling.py:28-46 | The two loops over devices and items give this answer |
| RackStore.Store.AnyCabled | backend/app/api/rack_cabling.py:49-60 | Whether one of the ports has a cable at one of its ends |
| RackStore.Store.SetPorts | backend/app/api/rack_cabling.py:63-79 | Refused, with nothing changed, exactly when a cabled port would go; else the ports are set and no other owner's change |
| RackStore.Store.CreateItem | backend/app/api/rack_cabling.py:91-107 | Refused exactly when the placement is; else one item with its ports, and no device of the rack is in its units |
| RackStore.Store.UpdateItem | backend/app/api/rack_cabling.py:110-129 | Refused exactly when the merged item has no valid placement; else that item only changes, field by field as the request says, and no device of the rack is in its units |
| RackStore.Store.DeleteItem | backend/app/api/rack_cabling.py:132-144 | The item goes with its ports and their cables, nothing else |
| RackStore.Store.SetPortsRequest | backend/app/api/rack_cabling.py:147-159 | The request to set ports: refused for an owner that does not exist, and exactly when a cable ends at one of its ports above the count |
| RackStore.Store.CreateCable | backend/app/api/rack_cabling.py:162-181 | Which of the four refusals applies, and that a new cable joins free ports of different owners |
| RackStore.Store.UpdateCable | backend/app/api/rack_cabling.py:184-196 | The ends of a cable cannot be changed |
| RackStore.Store.DeleteCable | backend/app/api/rack_cabling.py:199-206 | One cable goes, ports stay |
| RackStore.Store.UpdateRack | backend/app/api/topology.py:57-79 | A rack is resized exactly when everything placed in it fits |
| RackStore.Store.DeleteRack | backend/app/api/topology.py:82-86 | Items, their ports and cables cascade; devices only lose the rack |
| RackStore.Store.Handle | backend/app/api/rack_cabling.py:91-206 | Any request keeps the invariant of the store |
| RackStore.Store.Run | backend/app/api/rack_cabling.py:91-206 | After any sequence of requests, devices moving freely meanwhile, no rack is overfull, spans are disjoint and cables are a matching with at least twice as many ports as cables |
| Health.ServicePenaltyMonotone | backend/app/api/health.py:338-340 | A service that goes down costs at least what its certificate cost (20 >= 15) |
| Health.AgentPenaltyMonotone | backend/app/api/health.py:352-363 | A silent agent costs at least what its readings can cost together (35 >= 10 + 5 + 10 + 10) |
| Health.ReachabilityMonotone | backend/app/api/health.py:323-335 | More missed scans, less uptime or higher latency never cost less |
| Health.GoneStaysGone | backend/app/api/health.py:343-349 | A host that counts as gone stays gone when things get worse |
| Health.ScoreMonotone | backend/app/api/health.py:378-399 | For 24/7 devices the score is within 0 .. 100 and monotone over the product order of all inputs |
| Health.StatusMonotone | backend/app/api/health.py:366-375 | Without missed scans the severity healthy < degraded < critical < offline is monotone as well |
| Health.FlappingHides | backend/app/api/health.py:366-375 | "flapping" exactly when online, not gone and a scan was missed; "offline" exactly when offline or gone |
| Health.TroubleShows | backend/app/api/health.py:366-375 | Without missed scans a service down or a silent agent is always critical or offline |
| Health.FaultFreeExactly | backend/app/api/health.py:366-399 | A 24/7 device has (100, healthy) if and only if nothing is wrong: no missed scan, latency up to 60 ms, services up with more than 14 days, an agent without findings, and uptime above 97.75 % |
| Health.ScoreInNumbers | backend/app/api/health.py:323-399 | The score in numbers: a missed scan costs 15, more 30; latency 8 above 60 ms, 15 above 150 ms; a service down 20, a certificate 5 or 15; patches 10, reboot 5, CPU 10, temperature 10, a silent agent 35; never below 0 |
| Health.UptimeSteps | backend/app/api/health.py:328-329 | Below 99 % every full 1.25 points of uptime cost one point |
| Health.StatusByScore | backend/app/api/health.py:366-375 | Without trouble that shows by itself: critical below 60, healthy from 85 on unless slow, degraded between |
| Health.CertificatesCounted | backend/app/api/health.py:287-296 | Certificate penalties in terms of how many run out within 3 and within 14 days |
| Health.PartTimeRange | backend/app/api/health.py:304-320 | The score of a device that may sleep is within 0 .. 100 if and only if it sleeps or few enough certificates run out |
| Health.PartTimeInNumbers | backend/app/api/health.py:304-320 | When a device that may sleep counts as asleep, and its score and status in numbers while awake |
| Health.PartTimeBelowZero | backend/app/api/health.py:318-320 | Seven certificates about to run out give -5 |
| Health.PartTimeMonotone | backend/app/api/health.py:304-320 | While awake its score and severity are monotone, as long as its agent does not fall silent |
| Health.SilentAgentHelps | backend/app/api/health.py:318-320 | When its agent falls silent the score rises if and only if patches and reboot cost more than certificates have come to cost; with equal services, if there were any |
| Rounding.HalfEvenMonotone | backend/app/api/health.py:210-211 | Rounding to even keeps the order |
| Rounding.Round1Monotone | backend/app/api/health.py:210-211 | Rounding to one decimal keeps the order |
| Rounding.NearestTenth | backend/app/api/health.py:210-211 | The result is the nearest number with one decimal, of two equally near ones the one with the even digit |
| Uptime.BarsCoverWindow | backend/app/api/health.py:248-251 | A time falls into one of the bars exactly when it is in [window_start, now) |
| Uptime.BarsConserve | backend/app/api/health.py:238-251 | The bars together count exactly the probes of the window, each once |
| Uptime.SomeBelowSomeAbove | backend/app/api/health.py:253-255 | Among the bars with probes one is at most and one at least the common ratio |
| Uptime.OverallBetweenBars | backend/app/api/health.py:263-268 | With all points in the window the overall percentage lies between the lowest and the highest bar, after rounding too |
| Uptime.AllPercentages | backend/app/api/health.py:253-284 | Every bar and every average is within 0 .. 100 |
| Uptime.ShorterPeriods | backend/app/api/health.py:227-247 | The figures of the last day and week equal the overall one when they hold all points or none |
| UptimeFigures.OverallInSums | backend/app/api/health.py:263-271 | The overall figure is the share of answered probes; without probes 100 or 0 as the device is now |
| UptimeFigures.PeriodsInSums | backend/app/api/health.py:273-274 | The figures of the last day and week are the shares among the points of the last 86400 and 604800 seconds, whatever came before; without probes there the overall figure |
| UptimeFigures.BarIsPart | backend/app/api/health.py:248-249 | Bar i stands for the i-th of equal parts of the window, its begin included and its end not |
| UptimeFigures.BarInSums | backend/app/api/health.py:253-261 | A bar shows the share of its own points; without probes the present status if the device was seen by its end, else nothing |
| Uptime.Count | backend/app/api/health.py:231-251 | The counting loop over points of any weight |
| Uptime.BarsOf | backend/app/api/health.py:253-261 | The loop that turns counts into bars, with the fallback for bars without probes |
| Uptime.Compute | backend/app/api/health.py:214-284 | The whole computation |
| Latency.MeanWithin | backend/app/api/health.py:171-174 | The weighted mean lies between the least and the greatest latency |
| Latency.MeasurementsJoined | backend/app/api/health.py:169 | The points with measurements, point by point and in order |
| Latency.MeanOfEqual | backend/app/api/health.py:173-174 | Points of one average have that mean, however many probes are behind each |
| Latency.MeanOfJoined | backend/app/api/health.py:173-174 | The mean of points joined is the mean of the means weighted by probes |
| Latency.JitterWithin | backend/app/api/health.py:176-183 | The jitter, over rollups and raw probes together, is at most the range of the latencies |
| Latency.JitterJoined | backend/app/api/health.py:176-183 | Rollup sums and raw probes of joined points go on where they were, whatever stands between them |
| Latency.JitterOfFew | backend/app/api/health.py:176-183 | One raw probe has no jitter, two have their difference, and rollups of one jitter have that jitter together |
| Latency.StepsJoined | backend/app/api/health.py:180-182 | Between two runs of raw probes the last and the first value are neighbours as well |
| Latency.StepsOfRising | backend/app/api/health.py:180-182 | Probes that rise all the time step from the first to the last in all |
| Latency.FiguresInOrder | backend/app/api/health.py:163-207 | After rounding min <= avg <= max |
| Latency.SparklineLength | backend/app/api/health.py:190-197 | The curve has 20 values, or one per point if there are fewer |
| Latency.SparklineReach | backend/app/api/health.py:190-197 | It starts at the first point only for fewer than 20 points or a multiple of 20; how many points are cut off otherwise |
| Latency.SparklineSpaced | backend/app/api/health.py:190-197 | Value j from the end of the curve stands for the j-th step before the end, on a multiple of the step |
| Latency.JitterOf | backend/app/api/health.py:176-183 | The loop over neighbouring raw latencies |
| Latency.Downsample | backend/app/api/health.py:190-197 | The loop in steps, cut to the newest 20 |
| Latency.LatencyStats | backend/app/api/health.py:163-207 | All latency figures |
| Presence.SinceSeen | backend/app/scanner/presence.py:39-42 | The misses since the device was last seen |
| Presence.StepTells | backend/app/scanner/presence.py:45-64 | One event keeps the relation between status, counter and the misses so far |
| Presence.OneEvent | backend/app/scanner/presence.py:39-64 | What one event does to status, counter and history: an answer resets, a miss counts while online, a confirmed one always takes the device offline |
| Presence.OfflineIffGivenUp | backend/app/scanner/presence.py:39-64 | Over any run, with thresholds that may change, a device is offline exactly when a miss since it was last seen was confirmed or reached the threshold |
| Presence.OfflineAtThreshold | backend/app/scanner/health_probe.py:182-198 | At one threshold N: exactly when there was a confirmed miss or at least N misses |
| Presence.HistoryAlternates | backend/app/scanner/presence.py:122-134 | With alerts on, offline and online entries strictly alternate |
| Presence.SilentHistory | backend/app/scanner/presence.py:122-126 | With alerts off only recoveries are logged |
| Presence.AlertsDoNotMatter | backend/app/scanner/presence.py:122-126 | Alerts change the history only |
| Presence.Device.SetOnline | backend/app/models/device.py:306-317 | Only the change from offline to online is logged |
| Presence.Device.RegisterSeen | backend/app/scanner/presence.py:39-42 | Online, counter zero, recovery logged |
| Presence.Device.RegisterMiss | backend/app/scanner/presence.py:45-64 | Counts a miss of an online device; tells whether this one took it offline |
| Presence.Device.ConfirmMiss | backend/app/scanner/health_probe.py:189-192 | A confirmed miss takes any online device offline |
| Presence.Device.Observe | backend/app/scanner/health_probe.py:182-198 | A run of events is a run of the model |
| Presence.UpdateInterfaces | backend/app/scanner/presence.py:85-109 | The loop over the interfaces of the scanned subnets |
| Presence.InterfaceFollowsDevice | backend/app/scanner/presence.py:85-109 | An interface goes through the states of a device under the scans that cover it |
| Presence.InterfaceOffline | backend/app/scanner/presence.py:85-109 | so it is offline exactly when a miss was decisive since it last answered |
| Presence.InterfaceMissesInARow | backend/app/scanner/presence.py:85-109 | Under scans that cover it, with one threshold, it is offline exactly when it answered none of the last so many scans |
| Presence.CoveredMeans | backend/app/scanner/presence.py:67-82 | A scan covers the addresses in one of the networks it can read |
| LoginLimiter.RecentIsSuffix | backend/app/api/auth.py:560 | The attempts inside the window are the last ones |
| LoginLimiter.AdmittedIsSpaced | backend/app/api/auth.py:547-566 | The fifth next attempt let through is always at least 60 seconds later |
| LoginLimiter.AtMostFive | backend/app/api/auth.py:531-534 | Fewer than 60 seconds hold at most five attempts of an address since its last clear |
| LoginLimiter.SixWithinSixtySeconds | backend/app/api/auth.py:554-562 | A closed interval of 60 seconds can hold six |
| LoginLimiter.OthersDoNotMatter | backend/app/api/auth.py:547-566 | Other addresses have no influence |
| LoginLimiter.RefusedUntilWaitEnds | backend/app/api/auth.py:561-563 | A refused caller is refused at every moment before the unrounded wait ends and let through at every moment after, if nothing else comes from that address |
| LoginLimiter.RetryAfterSuffices | backend/app/api/auth.py:563 | Retry-After is between 1 and 60 and suffices |
| LoginLimiter.RetryAfterIsLeast | backend/app/api/auth.py:563 | and is the least such number: up to one second less the caller is still refused |
| LoginLimiter.RefusedExactly | backend/app/api/auth.py:560-563 | An attempt is refused if and only if the fifth last one let through is less than 60 seconds old; the answer is the rest of the 60 seconds rounded up |
| LoginLimiter.AdmittedGrows | backend/app/api/auth.py:560-566 | What is let through counts, what is refused does not, a success forgets all, and other addresses change nothing |
| LoginLimiter.WindowsAgree | backend/app/api/auth.py:560 | The store and the whole log show the same window, of at most five |
| LoginLimiter.Limiter.DropStale | backend/app/api/auth.py:555-558 | The purge drops exactly the clients whose attempts are all 60 seconds old or more, and no later answer depends on them; `v[-1]` never meets an empty list |
| LoginLimiter.Limiter.Reserve | backend/app/api/auth.py:547-566 | The answer is that of the whole log, never purged or trimmed |
| LoginLimiter.Limiter.Clear | backend/app/api/auth.py:629 | A success clears the count of its address only |
| SshHistory.CutThenConnect | backend/app/api/ssh.py:476-480 | Cutting the list at 20 before the next connection makes no difference |
| SshHistory.DeletionShows | backend/app/api/ssh.py:491-498 | Deleting an entry shows the cut: exactly when the list was longer than 20 and the entry among the first 20 |
| SshHistory.NewestOneEach | backend/app/api/ssh.py:460-475 | Every target is listed once |
| SshHistory.NewestMembers | backend/app/api/ssh.py:460-475 | Listed are exactly the connections after which their target was not connected to again |
| SshHistory.NewestInOrder | backend/app/api/ssh.py:484-486 | and they come in the order of their time, the latest first |
| SshHistory.OneOrder | backend/app/api/ssh.py:484-486 | The order of the list is determined by its rows |
| SshHistory.RecordedListing | backend/app/api/ssh.py:460-475 | A recorded connection is listed first and the others as before |
| SshHistory.CutListing | backend/app/api/ssh.py:476-480 | Deleting the tail leaves the first 20 of the list |
| SshHistory.History.Touch | backend/app/api/ssh.py:460-475 | The entry of the target, found or new, moves to the top |
| SshHistory.History.DropBeyondLimit | backend/app/api/ssh.py:476-480 | What stays is the first 20 as listed |
| SshHistory.History.Record | backend/app/api/ssh.py:460-480 | One connection |
| SshHistory.History.RecordAll | backend/app/api/ssh.py:443-488 | After any run of connections under a strictly increasing clock the list is the first 20 distinct targets of the log read newest first |
| SshHistory.History.Delete | backend/app/api/ssh.py:491-498 | Deletes the entry with the id, if there is one, and no other |
| ArpFilter.SharedMeansNear | backend/app/scanner/arp.py:216-299 | Two entries left with one MAC are both local or in one /24, and then both remote if they are IPv4; for IPv6 see the next row |
| ArpFilter.StaysExactly | backend/app/scanner/arp.py:251-297 | An entry stays if and only if its address is unreadable or local, or every readable address with its MAC is in its /24 and no local IPv4 address has it |
| ArpFilter.BlocksAgree | backend/app/scanner/arp.py:280-289 | Addresses are in one /24 when they are of one kind and agree in all but the last 8 bits, or 104 for IPv6 |
| ArpFilter.HoldingMeans | backend/app/scanner/arp.py:266 | A local network holds the addresses of its kind that agree with its base in all bits of the prefix |
| ArpFilter.RemoteKeeper | backend/app/scanner/arp.py:266-289 | A remote address keeps a shared MAC only if no local IPv4 address has it and one /24 holds all that do |
| ArpFilter.NearUnlessMixed | backend/app/scanner/arp.py:216-299 | All entries left with one MAC are both local, or both remote in one /24, if and only if no local and remote IPv6 address share a MAC whose readable addresses all lie in one /24 |
| ArpFilter.NearWithIpv4Subnets | backend/app/scanner/utils.py:122-143 | With IPv4 subnets, the only ones the program detects, they always are |
| ArpFilter.MixedStays | backend/app/scanner/arp.py:267-271 | Such an IPv6 pair is kept |
| ArpFilter.MixedIpv6 | backend/app/scanner/arp.py:267-271 | A table of one such pair passes unchanged |
| ArpFilter.TrustedStay | backend/app/scanner/arp.py:248-262 | Local entries, entries with a MAC of their own and unreadable addresses are kept unchanged |
| ArpFilter.SanitizedTwice | backend/app/scanner/arp.py:216-299 | Filtering again changes nothing |
| ArpFilter.GroupByMac | backend/app/scanner/arp.py:230-233 | The first loop groups the addresses by MAC in lower case |
| ArpFilter.Filter | backend/app/scanner/arp.py:216-299 | The loops compute the filter |

## Left out

- Uniqueness of discovered hosts, and the tables that lend a scanned host its custom name: the name is part of a scan answer.
- Batches of several hosts: queries in a larger batch do not see earlier unflushed moves, so runs are sequences of batches of one host. Commit retries and webhooks are not modelled.
- Containers as a source of addresses during scans (`sync_docker_containers`): only the start-up repair sees them, as a list of names and addresses.
- IPv6 subnets in scans and presence: Networks holds IPv4 only; ArpFilter has both.
- How the effective gateway of a subnet is chosen: it is part of the scan context.
- The repair of discovered hosts, which repeats that of devices with another lookup of the container.
- References between tables while the migration deletes duplicates: `Duplicates.AddMissingUniqueIndexes` looks at one table.
- Names, notes, kinds and colours of racks, items and cables, and the check that rack names are unique.
- A device's rack fields: any request may set them without a placement check, so devices move freely in `RackStore.Store.Run`; items and devices are compared only when an item is placed.
- New row ids: any id that is not in use, where SQLite takes the next one.
- SQLite's column affinity, JSON and the shape check of an uploaded backup; ids in backups are integers and texts are ASCII where case and blanks matter.
- The default values for columns an older backup lacks: a function of the schema.
- Rounding of floating-point numbers: times, percentages and latencies are reals, `round(x, 1)` is rounding to even of the exact value.
- Points without figures although they count measurements: `Latency.LatencyStats` takes min <= avg <= max for every measured point, which the telemetry stores; the code would raise an error otherwise.
- JitterWithin: takes the jitter sum of a rollup to be at most its count of differences times its range, as the telemetry's own sums are.
- Timestamps of status changes, last-seen times and webhook payloads in Presence.
- Two connections recorded at the same microsecond: `SshHistory.History.RecordAll` takes a strictly increasing clock.
- Passwords, sessions, tickets and the audit log around the login limiter; the clock never goes back.
- Concurrent requests: every handler is one step.
- Sockets, ping, ARP commands, SSH, both frontends and the demo data itself.
