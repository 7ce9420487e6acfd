# Verified models of BrickSuite's importers, schema upgrade and packaging

These Dafny modules model the parts of BrickSuite that move or reconcile data, and prove what they promise.
SQL tables are finite maps with the UNIQUE and CHECK rules of `src/database/DatabaseSchema.cpp`; a database
connection is a class with a committed and a working value, one level of transaction and autocommit outside
it (`Sql.Connection`). Everything outside the program that can stop an import is a `Faults` value: a failing
BEGIN, COMMIT or statement, or a cancellation at any look at the token. Methods follow the loops of the
source and are proved against specified states; lemmas say what those states mean over the fields of the files
and tables themselves.

| modules | about |
|---|---|
| `CompositionModel`, `InventoriesImport`, `ChildrenImport`, `PreferredElection`, `CompositionImporter` | the inventory composition importer with its two owner maps |
| `CompositionRuns`, `InventoriesMeaning`, `ChildrenMeaning` | what it keeps over every run, and what the tables hold afterwards, by the fields of the lines |
| `ThemeGraph`, `ThemeModel`, `ThemeImporter`, `ThemeTheorems` | the theme importer: cycle check, id assignment, merge, and the forest it keeps |
| `MinifigThemes` | the relational join of the minifig theme importer |
| `SchemaLadder`, `AllocationRepair` | the version ladder with its commit points, and the repair of version 23 |
| `ZipFormat`, `ZipReader`, `ZipRoundTrip`, `Checksum`, `ZipExtract`, `ZipSelection` | the ZIP reader against an encoder, up to the contents of the chosen file |
| `Installer` | the staged rename with roll-back |
| `InventoryStock`, `InventoryPreview`, `InventoryApply`, `InventoryMeaning` | preview and application of an inventory CSV |
| `PartRelationships` | the relationship synchronisation |
| `Csv` | the line scanner all importers share |
| `Reachability`, `LibraryBundle`, `NoticeGraph` | the two dependency closures of the Linux packaging |
| `Authentication` | the message under the pairing HMAC |
| `Wrappers`, `Sql`, `Counting` | shared helpers |

`dafny verify dfyconfig.toml` checks the whole project.

## Findings

Where the code does not do what one would expect, the model keeps the code and a lemma states exactly when
it does.

- A database at version 6 to 9 whose build table does not list `Cancelled` can never be upgraded: the step
  from 10 to 11 opens a transaction inside the one already open (`SchemaLadder.Initialize`).
- A database at version 10 whose build table does list it sets its version outside a transaction, and loses
  the version row if the second of the two statements fails. No other whole database can lose it, and none
  gets into that state by being started (`SchemaLadder.LostVersionRow`, `SchemaLadder.SafeUnlessExposed`,
  `SchemaLadder.StartsOnlyClimb`).
- An `inventories.csv` that exchanges the versions of two stored revisions of a set is refused, because the
  rows are updated one at a time under a UNIQUE rule (`CompositionRuns.ExchangedVersionsRefused`).
- The repair of version 23 succeeds exactly when no two ownerless rows contend for one requirement and stock
  record. The rule of version 21 guarantees that through all writes of version 22 that neither add an ownerless
  row nor change what one is about; the UNIQUE rule of version 22 on its own does not (`AllocationRepair.Migrate`,
  `AllocationRepair.UpgradeFrom21NeverCollides`, `AllocationRepair.RepairableExactly`,
  `AllocationRepair.RepairCanBeImpossible`).
- A library name that is copied as the file of another library and also listed on its own is not looked at again,
  so a bundle can be completed without a library it needs. Completed bundles hold every reachable library exactly
  when each required name that is the file of another required name resolves to itself
  (`LibraryBundle.ProvidesIffSettled`, `LibraryBundle.ShadowedNameIsSkipped`).
- A ZIP comment that contains an end record takes over the archive, because the scan accepts the last place
  that looks like one; so does an end record whose own offset field spells the signature
  (`ZipRoundTrip.ReadEncoded`, `ZipRoundTrip.TailDecides`, `ZipRoundTrip.MisleadingComment`,
  `ZipRoundTrip.MisleadingOffset`).
- Replace leaves a key with the stock its preview did not show plus what its lines leave of the stock it did
  show. That is what the file says, for a key listed once at most, exactly when one record held all its stock;
  with one record per key, exactly when the key is listed once at most or the slot held none of it
  (`InventoryMeaning.ReplaceTotals`, `InventoryMeaning.ReplaceMatchesFile`, `InventoryMeaning.ReplaceExactly`).
- Subtract holds every line against the stock shown, so a key listed twice loses only its last quantity
  (`InventoryMeaning.SubtractTotals`, `InventoryMeaning.SubtractExactly`).
- A relationship file that lists a new relation twice is refused by the UNIQUE rule, while repeating a stored
  relation is accepted (`PartRelationships.Importer.ImportFile`).
- An interrupt between a rename and the line that records it is outside the roll-back
  (`Installer.ReplaceTransaction`, `Installer.Verdict`).

## Model

| member | source | states |
|---|---|---|
| `CompositionImporter.Importer.ImportInventories` | src/import/RebrickableInventoryCompositionImporter.cpp:127-192 | a successful import leaves exactly the revisions of the file active, with the old ones retired, and stores both owner maps; a failed, refused or cancelled one changes no table and leaves the owner maps empty; without interference it succeeds if and only if the file is acceptable line by line and never blocked by a UNIQUE rule |
| `CompositionImporter.Importer.ImportChildren` | src/import/RebrickableInventoryCompositionImporter.cpp:196-303 | a successful child import reconciles the tables with the file and reports exact counters; any other end changes nothing; without interference it succeeds if and only if every line resolves and none repeats a logical row |
| `CompositionImporter.Importer.SelectPreferredRevisions` | src/import/RebrickableInventoryCompositionImporter.cpp:310-325 | a successful election leaves the elected table and reports how many flags changed; a failed one changes nothing |
| `InventoriesImport.ReadInventories` | src/import/RebrickableInventoryCompositionImporter.cpp:156-186 | the read and deactivation loops: what is left in the revision table, the owner maps and the counters, as functions of the file and the old table |
| `InventoriesImport.ApplySlot` | src/import/RebrickableInventoryCompositionImporter.cpp:171-177 | one set inventory line: inserted, updated or found unchanged, or refused exactly when a stored row of another inventory still holds its set and version |
| `InventoriesImport.Retire` | src/import/RebrickableInventoryCompositionImporter.cpp:185-186 | exactly the active revisions the file does not name become inactive and lose the preferred flag, nothing else changes, and each is counted |
| `InventoriesImport.PassMeaning` | src/import/RebrickableInventoryCompositionImporter.cpp:169-171 | after any number of lines the two owner maps and the set of seen set inventories are those of the lines read |
| `InventoriesImport.PassSeen` | src/import/RebrickableInventoryCompositionImporter.cpp:166-169 | the ids the duplicate test looks at are those of the lines read |
| `InventoriesImport.PassVersions` | src/import/RebrickableInventoryCompositionImporter.cpp:165-171 | the set and version pairs the duplicate test looks at are those of the set lines read |
| `InventoriesImport.RefusedIffBlocked` | src/import/RebrickableInventoryCompositionImporter.cpp:172-177 | a write breaks the UNIQUE rule of the table in the middle of the loop if and only if a row the loop has not reached yet, or has already moved, holds the same set and version |
| `InventoriesMeaning.InventoriesAccepted` | src/import/RebrickableInventoryCompositionImporter.cpp:160-171 | which inventories files pass, by the fields of their lines: readable, with a version, of a set or a minifig but not both, no id twice, no version of a set twice |
| `InventoriesMeaning.InventoriesHoldTheFile` | src/import/RebrickableInventoryCompositionImporter.cpp:169-186 | after a successful import every line stands: a set line as an active revision with its set and version that keeps a stored id and preference, each id with its owner; stored revisions the file does not name are there, inactive and not preferred, and nothing else is |
| `InventoriesMeaning.CountersMeanTheTable` | src/import/RebrickableInventoryCompositionImporter.cpp:172-188 | the counters by the table before and after: rows that came, active rows that stayed as they were or changed, and rows that ceased to be active |
| `ChildrenImport.ReadChildren` | src/import/RebrickableInventoryCompositionImporter.cpp:245-301 | reading, upserting and cleaning up give the reconciled tables and the exact counters |
| `ChildrenImport.ReadLine` | src/import/RebrickableInventoryCompositionImporter.cpp:246-286 | one line: which table it goes to, when it is refused, and how it is counted |
| `ChildrenImport.CleanUp` | src/import/RebrickableInventoryCompositionImporter.cpp:291-296 | the rows of the revisions the file names that the file does not list are deleted and counted, and no others |
| `ChildrenImport.CleanUpMinifigs` | src/import/RebrickableInventoryCompositionImporter.cpp:297-301 | for Parts, Rebrickable rows of owned minifigs that the file does not list are deleted and counted; rows of other providers stay |
| `ChildrenMeaning.NamedRevisionsHoldTheFile` | src/import/RebrickableInventoryCompositionImporter.cpp:273-296 | for any of the three files: a revision with lines in the file ends with exactly the rows those lines resolve to, a revision without keeps its rows |
| `ChildrenMeaning.PartsHoldTheFile` | src/import/RebrickableInventoryCompositionImporter.cpp:273-296 | the same for parts by the fields of the lines: a row of owner, part, colour and spare flag stands if and only if a line of an active revision with that id names that part, that colour and that flag, and then with its quantity |
| `ChildrenMeaning.MinifigsHoldTheFile` | src/import/RebrickableInventoryCompositionImporter.cpp:273-296 | the same for the minifigs of a revision, by the fields of the lines |
| `ChildrenMeaning.SetsHoldTheFile` | src/import/RebrickableInventoryCompositionImporter.cpp:273-296 | the same for the sets a revision contains, by the fields of the lines |
| `ChildrenMeaning.OwnedMinifigsHoldTheFile` | src/import/RebrickableInventoryCompositionImporter.cpp:254-266 | after a successful Parts import every owned minifig has exactly the Rebrickable rows of the file; a row of another provider is taken over when the file lists its key and stays otherwise, as do the rows of other minifigs |
| `ChildrenMeaning.MinifigPartsHoldTheFile` | src/import/RebrickableInventoryCompositionImporter.cpp:254-301 | the parts of owned minifigs by the fields of the lines: what the file lists stands under the provider, its other rows of owned minifigs are gone, all else stays |
| `ChildrenMeaning.PartsAccepted` | src/import/RebrickableInventoryCompositionImporter.cpp:246-286 | which parts files pass, by the fields of their lines: readable, a positive quantity, part, colour and owner known, and no row twice |
| `ChildrenMeaning.MinifigsAccepted` | src/import/RebrickableInventoryCompositionImporter.cpp:246-286 | the same for minifig files |
| `ChildrenMeaning.SetsAccepted` | src/import/RebrickableInventoryCompositionImporter.cpp:246-286 | the same for contained sets |
| `ChildrenMeaning.OtherTablesUntouched` | src/import/RebrickableInventoryCompositionImporter.cpp:217-236 | a child import touches its own table only; revisions are untouched, and minifig parts are touched by Parts alone |
| `ChildrenMeaning.CountersAddUp` | src/import/RebrickableInventoryCompositionImporter.cpp:264-285 | rows read = inserted + updated + unchanged = set rows + minifig rows, and the tables grow together by inserted minus replaced |
| `ChildrenMeaning.CountersMeanTheTables` | src/import/RebrickableInventoryCompositionImporter.cpp:264-301 | the counters by the tables before and after: rows that came, rows that went, listed rows that did not change |
| `ChildrenMeaning.SameFileChangesNothing` | src/import/RebrickableInventoryCompositionImporter.cpp:196-303 | importing the same file again leaves both tables as they are |
| `CompositionRuns.NextKeepsInvariant` | src/import/RebrickableInventoryCompositionImporter.cpp:127-325 | every step, whether it succeeds, fails or is cancelled, keeps the invariant of the session |
| `CompositionRuns.InvariantOverRuns` | src/import/RebrickableInventoryCompositionImporter.cpp:127-325 | over every sequence of imports and elections at most one revision of a set is preferred, preferred revisions are active, and the owner maps are empty or describe the stored revisions |
| `CompositionRuns.FreshRuns` | src/import/RebrickableInventoryCompositionImporter.cpp:127-325 | the same for every run of a fresh importer over a lawful catalog, in terms of the tables: no set with two preferred revisions, none of them inactive, and owner maps in use only from a committed inventories import |
| `CompositionRuns.Perform` | src/import/RebrickableInventoryCompositionImporter.cpp:127-325 | each call of the importer, with its files and mishaps, is one of the events the runs are made of |
| `CompositionRuns.Drive` | src/import/RebrickableInventoryCompositionImporter.cpp:127-325 | any sequence of calls of a new importer on one database is such a run, and the session invariant holds after every call |
| `CompositionRuns.OwnersComeFromACommit` | src/import/RebrickableInventoryCompositionImporter.cpp:132-133 | whenever the owner maps are not empty, they were stored by an inventory import that committed, with no other inventory import in between |
| `CompositionRuns.PartsRunOnCommittedOwners` | src/import/RebrickableInventoryCompositionImporter.cpp:206-209 | in every run a successful Parts import used owner maps from a committed inventory import |
| `CompositionRuns.OwnersResolve` | src/import/RebrickableInventoryCompositionImporter.cpp:253-270 | in every reachable session an owned inventory resolves to a revision or a minifig, so the unresolved-owner errors cannot come from the maps themselves |
| `CompositionRuns.OwnersOfFile` | src/import/RebrickableInventoryCompositionImporter.cpp:169-171 | the owner map and the minifig owner map of a file split its inventories, and name each once |
| `CompositionRuns.ActiveAreTheFile` | src/import/RebrickableInventoryCompositionImporter.cpp:171-186 | after a successful inventory import the active revisions are exactly the set inventories of the file |
| `CompositionRuns.SameFileAccepted` | src/import/RebrickableInventoryCompositionImporter.cpp:156-186 | a file that was imported is accepted again: no line of it can be blocked by what it stored |
| `CompositionRuns.SameFileChangesNothing` | src/import/RebrickableInventoryCompositionImporter.cpp:172-186 | the second import of a file changes no revision and counts every set line as unchanged |
| `CompositionRuns.ExchangedVersionsRefused` | src/import/RebrickableInventoryCompositionImporter.cpp:172-177 | a file that exchanges the versions of two stored revisions of one set is refused although each line is valid: the first UPDATE meets the row the second would have moved |
| `CompositionRuns.ElectionIsExact` | src/import/RebrickableInventoryCompositionImporter.cpp:314-323 | after an election a set with an active revision has exactly one preferred one, its highest active version, and a set without any has none |
| `CompositionRuns.SecondElectionChangesNothing` | src/import/RebrickableInventoryCompositionImporter.cpp:318-318 | an election right after an election changes nothing and reports nothing |
| `PreferredElection.MarkWinners` | src/import/RebrickableInventoryCompositionImporter.cpp:319-322 | clearing and setting the flags one by one never meets the one-preferred index and ends in the elected table |
| `PreferredElection.WinnerNotRefused` | src/import/RebrickableInventoryCompositionImporter.cpp:321-322 | in the middle of the election the next winner never collides with one already set |
| `Csv.Parse` | src/import/RebrickableInventoryCompositionImporter.cpp:39-51 | a line is reported as well formed if and only if its number of quotes is even; it has one field more than commas after an even number of quotes; the fields are those of a quote-aware reading |
| `Csv.RoundTrip` | src/import/RebrickableInventoryCompositionImporter.cpp:39-51 | fields written by section 2 of RFC 4180, quoted or plain in any mixture, are read back exactly |
| `Csv.CutFieldIsReported` | src/import/RebrickableInventoryCompositionImporter.cpp:245-252 | the first piece of a quoted field that is cut at a line break is always reported as malformed |
| `Csv.ScanWritten` | src/import/RebrickableInventoryCompositionImporter.cpp:43-49 | one written field is read back whole, up to the comma or the end |
| `ThemeImporter.Importer.ImportFile` | src/import/RebrickableThemeCatalogImporter.cpp:57-135 | a successful import leaves exactly the merged state and counters; any other end leaves both tables as they were when the importer owns the transaction; without interference it succeeds if and only if the file is valid |
| `ThemeImporter.ReadFile` | src/import/RebrickableThemeCatalogImporter.cpp:74-94 | the file is accepted if and only if every line is valid, no id repeats, every parent is present and there is no cycle |
| `ThemeImporter.FileOkByFields` | src/import/RebrickableThemeCatalogImporter.cpp:74-94 | which files pass, by the fields of their lines: readable, no id twice, every parent the id of some line, and a numbering of the ids that falls from each theme to its parent |
| `ThemeImporter.Apply` | src/import/RebrickableThemeCatalogImporter.cpp:104-132 | identities, names, parents, activity and counters after all loops, as one specified state |
| `ThemeImporter.WriteThemes` | src/import/RebrickableThemeCatalogImporter.cpp:110-123 | every theme of the file gets one catalog id: its old one if it is known, otherwise a new one that nothing else uses |
| `ThemeImporter.WriteParents` | src/import/RebrickableThemeCatalogImporter.cpp:124-125 | the parents of the file are rewritten to catalog ids, and exactly the themes whose parent moved are counted |
| `ThemeImporter.Retire` | src/import/RebrickableThemeCatalogImporter.cpp:130-131 | exactly the active Rebrickable identities missing from the file become inactive, nothing else changes, and each is counted |
| `ThemeGraph.Walk` | src/import/RebrickableThemeCatalogImporter.cpp:92-93 | an ancestor walk ends; it reports a return if and only if following the parents of its start never leads out of the file, and then there is a cycle |
| `ThemeGraph.HasCycle` | src/import/RebrickableThemeCatalogImporter.cpp:91-94 | with all parents present, the walks accept the file if and only if its parent relation has no cycle |
| `ThemeGraph.RankExists` | src/import/RebrickableThemeCatalogImporter.cpp:91-94 | an accepted file has a rank that falls along every parent link |
| `ThemeGraph.NoRankOnCycle` | src/import/RebrickableThemeCatalogImporter.cpp:91-94 | a parent relation with a cycle has no such rank |
| `ThemeTheorems.ImportKeepsValid` | src/import/RebrickableThemeCatalogImporter.cpp:110-132 | the schema rules, and with them the injectivity of the id map, survive every import |
| `ThemeTheorems.ImportKeepsForest` | src/import/RebrickableThemeCatalogImporter.cpp:104-132 | if the stored themes form a forest they still do after an import, with themes of earlier files and of other providers included |
| `ThemeTheorems.ForestOverImports` | src/import/RebrickableThemeCatalogImporter.cpp:104-132 | the same over any sequence of imports |
| `ThemeImporter.ImportAgainAndAgain` | src/import/RebrickableThemeCatalogImporter.cpp:57-135 | the same for the importer itself: import after import, each with its own file and mishaps, keeps the schema rules and the forest |
| `ThemeTheorems.FileIsMirrored` | src/import/RebrickableThemeCatalogImporter.cpp:110-132 | the active Rebrickable identities are exactly the ids of the file, names and parents of their themes mirror it, and a theme is active if and only if some active identity names it |
| `ThemeTheorems.DroppedThemeEnds` | src/import/RebrickableThemeCatalogImporter.cpp:130-132 | a theme whose identities are all Rebrickable's and not in the file ends inactive |
| `ThemeTheorems.ForeignThemeStays` | src/import/RebrickableThemeCatalogImporter.cpp:130-132 | a theme with an active identity of another provider stays active |
| `ThemeTheorems.KeptMeansUnchanged` | src/import/RebrickableThemeCatalogImporter.cpp:126-129 | the unchanged counter counts exactly the themes that were neither inserted, changed nor reactivated |
| `ThemeTheorems.CountersMeanTheTables` | src/import/RebrickableThemeCatalogImporter.cpp:111-132 | the counters by the tables before and after: identities that are new, whose theme has another name or parent, that became active, and that ceased to be |
| `ThemeTheorems.SameFileChangesNothing` | src/import/RebrickableThemeCatalogImporter.cpp:104-132 | importing the same file again leaves every identity and theme as it is and reports every row as unchanged |
| `MinifigThemes.Importer.ImportDirectory` | src/import/RebrickableMinifigThemeImporter.cpp:92-170 | a successful import leaves exactly the composed links and the imported themes; any other end leaves everything as it was; success means that none of its statements failed, and without interference it succeeds if and only if the four files pass and the catalog is not empty |
| `MinifigThemes.ReadFiles` | src/import/RebrickableMinifigThemeImporter.cpp:104-135 | the four files are accepted if and only if all their row rules and references hold, and then the joined rows are minifig and theme of every relation |
| `MinifigThemes.FilesAccepted` | src/import/RebrickableMinifigThemeImporter.cpp:104-135 | which four files pass, line by line: readable, no id and no pair twice, every theme of a set listed, and every relation of an inventory that is a set's |
| `MinifigThemes.Compose` | src/import/RebrickableMinifigThemeImporter.cpp:163-165 | links, unresolved minifigs and resolvable rows of the joined rows |
| `MinifigThemes.LinksAreTheComposition` | src/import/RebrickableMinifigThemeImporter.cpp:160-168 | a link of the provider is stored if and only if some relation row leads from its minifig over inventory and set to its theme; links of other providers are untouched |
| `MinifigThemes.LinksByLines` | src/import/RebrickableMinifigThemeImporter.cpp:124-168 | a link of the provider is stored if and only if some line of inventory_minifigs.csv, a line of inventories.csv and a line of sets.csv lead from the minifig to the theme |
| `MinifigThemes.CountersMeanTheLinks` | src/import/RebrickableMinifigThemeImporter.cpp:163-164 | the counters: links of the provider, figures the catalog does not know, and lines with a known figure that added no link |
| `MinifigThemes.ThemesResolve` | src/import/RebrickableMinifigThemeImporter.cpp:155-162 | every theme of the file has an active catalog id after the theme import, so no link points to theme 0 |
| `MinifigThemes.OrderDoesNotMatter` | src/import/RebrickableMinifigThemeImporter.cpp:163-168 | the links depend only on which relations are listed, not on their order or repetition |
| `SchemaLadder.Initialize` | src/database/DatabaseSchema.cpp:29-627 | from a database committed at any version: success means the current version, the migrations applied before as they were, every remaining one once and in order, and Cancelled known unless the start was past version 26; what is committed is whole also after a failure; it succeeds if and only if the version is supported, is not one of 6 to 9 with a build table that lacks Cancelled, and nothing fails on the way: no statement of a remaining step, no check after a rebuild, no BEGIN or COMMIT, no reading before and no seeding after; a BEGIN inside a transaction is tried only in that case |
| `SchemaLadder.CommittedIsWhole` | src/database/DatabaseSchema.cpp:323-360 | whatever any start commits is a whole version, no older than before, and one of the commit points or the start |
| `SchemaLadder.StartsOnlyClimb` | src/database/DatabaseSchema.cpp:29-627 | over any number of starts, whatever each meets, a database that does not begin at version 10 with Cancelled known stays at whole versions, never gets there, and never loses an applied migration |
| `SchemaLadder.SafeUnlessExposed` | src/database/DatabaseSchema.cpp:29-627 | every start leaves a whole database whole if and only if it is not at version 10 with Cancelled known |
| `SchemaLadder.StartAgainAndAgain` | src/database/DatabaseSchema.cpp:29-627 | the same for a loop of calls of Initialize with arbitrary faults |
| `SchemaLadder.LostVersionRow` | src/database/DatabaseSchema.cpp:1589-1591 | at version 10 with Cancelled known a start may end without the version row, which is no version at all and reads as a new database; Initialize says exactly when |
| `SchemaLadder.SetSchemaVersion` | src/database/DatabaseSchema.cpp:667-691 | the DELETE and the INSERT of the version row, inside and outside a transaction |
| `SchemaLadder.Rebuild` | src/database/DatabaseSchema.cpp:1593-1810 | a table rebuild with its own transaction commits step and version together or nothing |
| `SchemaLadder.MarkVersion11` | src/database/DatabaseSchema.cpp:1589-1591 | the branch that only sets the version |
| `SchemaLadder.CommitAndRebuild` | src/database/DatabaseSchema.cpp:323-352 | the commit in the middle of the ladder, the rebuild, and the reopened transaction |
| `AllocationRepair.Version22CarriesUniqueness` | src/database/DatabaseSchema.cpp:3100-3129 | copying the old allocations keeps them unique per build and inventory record, all without owner |
| `AllocationRepair.DeleteSuperseded` | src/database/DatabaseSchema.cpp:3287-3328 | exactly the ownerless rows whose only matching requirement already has a linked row for the same stock record are deleted, and counted |
| `AllocationRepair.LinkRepairable` | src/database/DatabaseSchema.cpp:3347-3387 | the UPDATE links every uniquely matching ownerless row, and is refused if and only if two of them would collide |
| `AllocationRepair.Migrate` | src/database/DatabaseSchema.cpp:3176-3412 | the repair succeeds if and only if no statement fails and no two rows that would be linked contend for one requirement and stock record; it reports how many ownerless rows several requirements could own, how many none, how many were deleted and how many linked, and these add up |
| `AllocationRepair.LegacyUniqueIsEnough` | src/database/DatabaseSchema.cpp:1356-1360 | ownerless rows that are unique per build and inventory record never contend |
| `AllocationRepair.UpgradeFrom21NeverCollides` | src/database/DatabaseSchema.cpp:3025-3412 | after the copy from version 21 and any number of version 22 writes and removals that the UNIQUE rule lets through, and that neither add an ownerless row nor give one another build, stock record, part or colour, the repair meets no contention whatever the requirements are, and keeps the UNIQUE rule |
| `AllocationRepair.WriteKeepsRules` | src/repositories/BuildAllocationRepository.cpp:41-239 | an insert, update or removal that the UNIQUE rule lets through keeps that rule; one that adds no ownerless row keeps ownerless rows different |
| `AllocationRepair.RepairableExactly` | src/database/DatabaseSchema.cpp:3347-3375 | a table can be repaired whatever requirements the UNIQUE rule of build_requirement allows, if and only if no two ownerless rows agree in build, stock record, part and colour |
| `AllocationRepair.RowByRow` | src/database/DatabaseSchema.cpp:3288-3375 | what happens to each row, by the fields of the tables: an ownerless row is linked to the one non-spare requirement of its build that asks for its part and colour, the substitute counting where there is one, unless a row of that requirement has its stock record, and then it is deleted; every other row stays as it was |
| `AllocationRepair.ContentionByFields` | src/database/DatabaseSchema.cpp:3338-3375 | when the UPDATE is refused: two rows left over with the same only owner and the same stock record |
| `AllocationRepair.SubstituteOwns` | src/database/DatabaseSchema.cpp:3210-3210 | a row of the substitute part is linked, and a row of the part it replaces is not |
| `AllocationRepair.LegacyRowsSplit` | src/database/DatabaseSchema.cpp:3235-3281 | superseded, repairable, ambiguous and unmatched rows split the ownerless ones |
| `AllocationRepair.SecondRunIsIdentity` | src/database/DatabaseSchema.cpp:3176-3412 | the repair applied twice is the repair applied once |
| `AllocationRepair.RepairCanBeImpossible` | src/database/DatabaseSchema.cpp:3338-3340 | without the inherited rule the repair can fail: two ownerless rows of one build with the same stock record and one requirement |
| `ZipReader.ScanBackwards` | src/import/RebrickableCsvInputResolver.cpp:102-111 | the scan stops at the last offset that carries the signature and whose comment reaches the end, and finds one if and only if there is one |
| `ZipReader.FindEnd` | src/import/RebrickableCsvInputResolver.cpp:80-155 | for arbitrary bytes: the last end record of the whole file although only the tail is read, judged by the limits in the order of the code |
| `ZipRoundTrip.EndVerdict` | src/import/RebrickableCsvInputResolver.cpp:113-150 | what the reader makes of any end record: each refusal in exactly its own case, with its limit, and the stored numbers otherwise |
| `ZipRoundTrip.EveryRecordIsEncoded` | src/import/RebrickableCsvInputResolver.cpp:102-111 | any 22 bytes that start with the signature are such a record, so the verdict covers every file |
| `ZipReader.TailSeesAll` | src/import/RebrickableCsvInputResolver.cpp:86-88 | the 65557 bytes at the end see every record the whole file has |
| `ZipReader.WalkDirectory` | src/import/RebrickableCsvInputResolver.cpp:183-230 | the header walk gives the entries of the directory without directories, or the first reason to refuse, with every read in bounds |
| `ZipRoundTrip.HeaderVerdict` | src/import/RebrickableCsvInputResolver.cpp:188-217 | a header encoded by section 4.3.12 of the APPNOTE is refused if and only if a size or the offset announces a ZIP64 field |
| `ZipRoundTrip.HeaderRefused` | src/import/RebrickableCsvInputResolver.cpp:188-205 | for arbitrary bytes: when a header is invalid and when it is truncated |
| `ZipRoundTrip.DirectoryNames` | src/import/RebrickableCsvInputResolver.cpp:223-224 | an entry is left out as a directory if and only if its name ends in a separator of either kind |
| `ZipReader.ReadEntries` | src/import/RebrickableCsvInputResolver.cpp:157-231 | search and walk together, for arbitrary bytes |
| `ZipRoundTrip.HeaderReadBack` | src/import/RebrickableCsvInputResolver.cpp:188-222 | a header encoded by section 4.3.12 of the APPNOTE is read back as its entry |
| `ZipRoundTrip.DirectoryReadBack` | src/import/RebrickableCsvInputResolver.cpp:183-228 | an encoded directory is read back as its files, in order and without directories |
| `ZipRoundTrip.TrueRecordReadBack` | src/import/RebrickableCsvInputResolver.cpp:113-150 | judged at its own end record (section 4.3.16), a complete archive within the limits gives back exactly its files |
| `ZipRoundTrip.ReadEncoded` | src/import/RebrickableCsvInputResolver.cpp:157-231 | reading an encoded archive stops at the true end record if and only if no later place passes for one, and then gives back exactly its files |
| `ZipRoundTrip.SmallestArchive` | src/import/RebrickableCsvInputResolver.cpp:102-150 | an archive with nothing in it is proper and unambiguous |
| `ZipRoundTrip.NoSignatureNoAmbiguity` | src/import/RebrickableCsvInputResolver.cpp:102-111 | an archive is never ambiguous if the signature occurs nowhere after the first byte of its end record and comment taken together |
| `ZipRoundTrip.TailDecides` | src/import/RebrickableCsvInputResolver.cpp:102-111 | whether an archive is ambiguous depends on its end record and comment alone: exactly when some later place in them passes for a record |
| `ZipRoundTrip.MisleadingComment` | src/import/RebrickableCsvInputResolver.cpp:102-111 | any archive whose comment is the 22 bytes of an empty archive is read as having no entries |
| `ZipRoundTrip.MisleadingOffset` | src/import/RebrickableCsvInputResolver.cpp:102-119 | a comment without the signature can mislead too: a directory that starts at 0x06054b50 writes the signature into the end record, and sixteen zeros as comment complete it |
| `Checksum.CrcOfParts` | src/import/RebrickableCsvInputResolver.cpp:289-291 | the CRC-32 computed chunk by chunk is that of the whole, for every cut |
| `Checksum.BitDivides` | src/import/RebrickableCsvInputResolver.cpp:289-291 | one register step is one step of the polynomial division of the CRC-32 of section 4.4.7 of the APPNOTE, in reflected form |
| `Checksum.KnownValue` | src/import/RebrickableCsvInputResolver.cpp:289-291 | the CRC-32 of the three letters abc is 352441C2 |
| `ZipExtract.WriteStored` | src/import/RebrickableCsvInputResolver.cpp:254-297 | a stored entry is copied if and only if its sizes agree and stay within 1 GiB; the output is the archive slice and the checksum its CRC |
| `ZipExtract.WriteDeflated` | src/import/RebrickableCsvInputResolver.cpp:299-385 | for every inflater within its contract the loop ends, writes at most the declared size and 1 GiB, and succeeds only after reading exactly the compressed bytes; with a faithful inflater the output is what the bytes stand for, and data the inflater completes is always extracted |
| `ZipExtract.ContractCanBeMet` | src/import/RebrickableCsvInputResolver.cpp:306-342 | the contract assumed of the inflater, together with both promises, is one an inflater can keep |
| `ZipExtract.Round` | src/import/RebrickableCsvInputResolver.cpp:334-373 | one round keeps all of this and consumes input or produces output |
| `ZipExtract.ExtractEntry` | src/import/RebrickableCsvInputResolver.cpp:387-476 | success means the header checks passed, size and CRC are the declared ones and the output is the contents; contents that pass them are always extracted |
| `ZipExtract.ExtractStored` | src/import/RebrickableCsvInputResolver.cpp:387-476 | a located stored entry is extracted if and only if size and CRC are right and the size is within 1 GiB |
| `ZipRoundTrip.LocateVerdict` | src/import/RebrickableCsvInputResolver.cpp:387-436 | for arbitrary bytes: when the data of an entry is found, and in which case each refusal is given |
| `ZipRoundTrip.EncryptionBits` | src/import/RebrickableCsvInputResolver.cpp:393-396 | an entry counts as encrypted if and only if bit 0 or bit 6 of its flags is set |
| `ZipRoundTrip.FileLocated` | src/import/RebrickableCsvInputResolver.cpp:406-436 | the data of a file encoded by section 4.3.7 is found wherever it stands |
| `ZipRoundTrip.ExtractEncoded` | src/import/RebrickableCsvInputResolver.cpp:387-476 | extracting an encoded file, stored or deflated, gives back its contents |
| `ZipSelection.Select` | src/import/RebrickableCsvInputResolver.cpp:514-571 | by the bytes of the paths: an entry is chosen if and only if it is the only CSV path that is the expected name or ends in a separator and that name, or the only CSV path when none does, with a safe path and size; each of the five refusals is given in exactly its own case |
| `ZipSelection.NamesTakenApart` | src/import/RebrickableCsvInputResolver.cpp:521-529 | the file name is what follows the last separator of either kind, the suffix what follows the last dot, for every path put together from them |
| `ZipSelection.NamedEntryIsChosen` | src/import/RebrickableCsvInputResolver.cpp:514-571 | the one entry whose path is the expected CSV name, in whatever directory, is the one that is chosen |
| `ZipSelection.Resolve` | src/import/RebrickableCsvInputResolver.cpp:480-586 | nothing but the contents of the designated entry is handed on, and contents that can be extracted are |
| `ZipSelection.ResolveInput` | src/import/RebrickableCsvInputResolver.cpp:489-501 | a path that ends in .csv is handed on as it is, one that ends in .zip is resolved, and any other is refused |
| `ZipRoundTrip.ResolveEncoded` | src/import/RebrickableCsvInputResolver.cpp:480-586 | end to end: an unambiguous encoded archive resolves to the bytes that were put into it |
| `Installer.MakeOne` | deployment/linux/installer.py:212-216 | one change, stopped anywhere: where it raises and what it leaves |
| `Installer.Forward` | deployment/linux/installer.py:212-217 | the disk and both lists at the end of the loop or at the first exception |
| `Installer.RemoveCompleted` | deployment/linux/installer.py:219-219 | completed targets are removed in reverse order, nothing else changes |
| `Installer.ReturnBackups` | deployment/linux/installer.py:220-220 | backups return in reverse order; this fails if and only if a directory is in the way of the last one, and then nothing has returned |
| `Installer.ReplaceTransaction` | deployment/linux/installer.py:207-223 | it commits if and only if nothing stops it; after any other end every target is as before and no backup is left if and only if the stop is recoverable; nothing else on the disk changes |
| `Installer.Verdict` | deployment/linux/installer.py:218-221 | which stops are recoverable: all failing renames and checks, but not an interrupt between a rename and its record unless nothing was renamed or both nodes are plain files |
| `Installer.CommittedIsInstalled` | deployment/linux/installer.py:222-223 | after a commit each target holds its payload or is absent, and payload and backup names are gone |
| `InventoryStock.IncreaseChanges` | src/repositories/InventoryRecordRepository.cpp:772-984 | adding stock changes one key of one slot by the quantity, in the totals and in the movement log alike |
| `InventoryStock.SetChanges` | src/repositories/InventoryRecordRepository.cpp:288-414 | setting a quantity changes one key by the difference, in the totals and in the movement log alike |
| `InventoryStock.OperationsKeepLawful` | src/repositories/InventoryRecordRepository.cpp:796-929 | neither operation can break the UNIQUE or the CHECK rule of the table |
| `InventoryPreview.PreviewOwnedParts` | src/import/RebrickableInventoryImporter.cpp:316-668 | one row per line, by its fields: a line that can be used gets the part and colour it names, its quantity, the stock of a record of theirs and what the operation says about both; any other is an error; then the stock the file does not mention, where the operation replaces or compares; the counters count exactly the lines that cannot be applied |
| `InventoryPreview.AddMissing` | src/import/RebrickableInventoryImporter.cpp:567-668 | the extra rows are about stock of the slot no row is about, one per key, and none is missing |
| `InventoryApply.ApplyRows` | src/import/RebrickableInventoryImporter.cpp:716-833 | failing rows are counted and passed over; totals and log stay in step for any rows; without failures every row was accepted in its turn, and that is so whenever nothing outside interferes with rows that show the stock |
| `InventoryApply.MovedByTheDifferences` | src/import/RebrickableInventoryImporter.cpp:733-832 | where a key has one row, and for Append always, its stock moves by exactly the differences shown |
| `InventoryApply.EffectOfRows` | src/import/RebrickableInventoryImporter.cpp:733-832 | the stock of a key after any rows that show the stock: rows that add, add up; of rows that set, the last one to write decides |
| `InventoryApply.Importer.ImportPreview` | src/import/RebrickableInventoryImporter.cpp:681-850 | comparing writes nothing and reports the lines, a preview with failures is refused whole, a failed run changes nothing, and success applies every row |
| `InventoryMeaning.PreviewIsApplicable` | src/import/RebrickableInventoryImporter.cpp:316-668 | a preview without failures can be applied, whatever the file repeats |
| `InventoryMeaning.PreviewAndImport` | src/import/RebrickableInventoryImporter.cpp:267-850 | preview and import in one go, by the fields of the lines: the stock of every part and colour of the slot after each operation, for any file; other slots are untouched; the report counts the rows that show a difference and adds the differences up; it succeeds exactly when every line can be used and none asks for more than is shown to subtract |
| `InventoryMeaning.AppendAdds` | src/import/RebrickableInventoryImporter.cpp:487-495 | Append adds what the file lists, however often it lists a key and however many makers a key has |
| `InventoryMeaning.SubtractTotals` | src/import/RebrickableInventoryImporter.cpp:513-532 | after Subtract a key has lost the quantity of its last line |
| `InventoryMeaning.SubtractExactly` | src/import/RebrickableInventoryImporter.cpp:513-532 | an accepted Subtract removes what the file lists for a key if and only if the file lists it at most once, and never more |
| `InventoryMeaning.ReplaceMatchesFile` | src/import/RebrickableInventoryImporter.cpp:497-511 | a key the file lists at most once holds what the file says after Replace if and only if the record shown held all its stock before |
| `InventoryMeaning.ReplaceTotals` | src/import/RebrickableInventoryImporter.cpp:497-668 | the exact stock of a key after Replace, for any file and any makers: what was not shown, plus what the lines leave of what was |
| `InventoryMeaning.ReplaceExactly` | src/import/RebrickableInventoryImporter.cpp:497-668 | with one record per key, Replace leaves a key equal to the file if and only if the file lists it at most once or the slot held none of it |
| `InventoryMeaning.ReplaceOfAllShown` | src/import/RebrickableInventoryImporter.cpp:497-511 | the same for any key whose record shown holds all its stock |
| `InventoryMeaning.OneRecordShowsAll` | src/import/RebrickableInventoryImporter.cpp:439-484 | with one record per key the record shown does hold all of it |
| `PartRelationships.Importer.ImportFile` | src/import/RebrickablePartRelationshipImporter.cpp:131-635 | a successful import leaves the synchronised table and exact counters; any other end changes nothing; without interference it succeeds if and only if no new relation is listed twice and, for a complete snapshot, every line resolves |
| `PartRelationships.ReadLines` | src/import/RebrickablePartRelationshipImporter.cpp:355-555 | every line is classified against the table as it was, and stops the import if and only if it is unacceptable or repeats a new relation |
| `PartRelationships.Deactivate` | src/import/RebrickablePartRelationshipImporter.cpp:557-604 | exactly the active Rebrickable rows the file does not describe become inactive, and are counted |
| `PartRelationships.ActiveAreTheFile` | src/import/RebrickablePartRelationshipImporter.cpp:355-604 | the active Rebrickable relations are exactly the resolvable non-self relations of the file; other sources are untouched |
| `PartRelationships.RowByRow` | src/import/RebrickablePartRelationshipImporter.cpp:355-604 | a relation the fields of some line describe, with kind, parent and child as the code letter says, stands active under its kind; another Rebrickable relation is inactive, and one of another source is as it was |
| `PartRelationships.AcceptedByFields` | src/import/RebrickablePartRelationshipImporter.cpp:355-555 | by the fields of the lines: no relation that is not stored is described twice, and in a complete snapshot every line is readable with both parts known |
| `PartRelationships.CountersByFields` | src/import/RebrickablePartRelationshipImporter.cpp:357-555 | which lines each of the skip, self, unchanged and update counters counts, by their fields |
| `PartRelationships.DeactivatedByFields` | src/import/RebrickablePartRelationshipImporter.cpp:557-604 | the deactivated rows are those that were active and are not any more |
| `PartRelationships.CountersAddUp` | src/import/RebrickablePartRelationshipImporter.cpp:357-555 | rows read split exactly into inserted, updated, unchanged, the three skip counters and self references |
| `PartRelationships.SameFileChangesNothing` | src/import/RebrickablePartRelationshipImporter.cpp:355-604 | the same file again inserts, updates and deactivates nothing, and is accepted even if it repeats relations |
| `PartRelationships.OnlyTheRelationsMatter` | src/import/RebrickablePartRelationshipImporter.cpp:355-604 | the order of lines and the repetition of relations do not matter for the table |
| `LibraryBundle.CopyLibrary` | deployment/linux/package_linux.py:65-71 | copying keeps the bundle sound, provides the name, and fails only for a name without candidate |
| `LibraryBundle.CollectLibraries` | deployment/linux/package_linux.py:72-81 | the worklist ends; in a bundle it produces every binary finds each needed name in the bundle or among the declared system names; everything in it is required, and when the names are settled everything required is in it; an error names an obstacle that really exists |
| `LibraryBundle.RequiredArePresent` | deployment/linux/package_linux.py:58-81 | when every required name that is the file of another required name resolves to itself, every library reachable from the roots is in a completed bundle, under its name and with its file |
| `LibraryBundle.ProvidesIffSettled` | deployment/linux/package_linux.py:58-81 | that condition on the names is exact: all completed bundles hold every reachable library if and only if it holds |
| `LibraryBundle.UnsettledCanFail` | deployment/linux/package_linux.py:65-71 | where the condition fails and a run can complete at all, some completed bundle lacks a reachable library or its file |
| `LibraryBundle.ShadowedNameIsSkipped` | deployment/linux/package_linux.py:65-71 | an input of that kind, and a completed bundle for it without a library that is needed: a name already present as the file of another one is not looked at again |
| `NoticeGraph.Collect` | deployment/linux/notices.py:32-38 | the fixpoint is exactly the set of elements reached from the containers of shipped files by DEPENDS_ON and CONTAINS |
| `NoticeGraph.Packages` | deployment/linux/notices.py:39-39 | the packages returned are those of the bill of materials whose ids belong, each at its place and in order |
| `Authentication.Base64Injective` | src/network/BrickSuiteAuthentication.cpp:57-58 | different byte strings have different Base64 texts |
| `Authentication.Base64RoundTrip` | src/network/BrickSuiteAuthentication.cpp:57-58 | the Base64 text decodes to the bytes, with the alphabet and padding of section 4 of RFC 4648 |
| `Authentication.NoNulInBase64` | src/network/BrickSuiteAuthentication.cpp:57-58 | a Base64 text contains no NUL |
| `Authentication.NumberInjective` | src/network/BrickSuiteAuthentication.cpp:59-59 | different protocol numbers have different decimal texts |
| `Authentication.NumberReadBack` | src/network/BrickSuiteAuthentication.cpp:59-59 | the decimal text of a protocol number reads back as the number and contains no full stop |
| `Authentication.MessageReadBack` | src/network/BrickSuiteAuthentication.cpp:52-60 | cut at its NUL bytes the message has five parts: the title, and session, challenge, nonce and both protocol numbers, each reading back as what went into it |
| `Authentication.Unambiguous` | src/network/BrickSuiteAuthentication.cpp:52-60 | two messages are equal only if session, challenge, nonce and both protocol numbers are equal |

## Left out

- Qt and SQLite mechanics: file opening, header lines, statement preparation, temporary tables as such (their effect is a set), logging, timestamps, progress callbacks and message texts.
- Trimming, case changes and number parsing of fields happen before the modelled rows; a field that does not parse is a missing value of the row.
- NOCASE columns and `toCaseFolded`: identifiers are opaque values with one equality, and the case folding of minifig ids is an arbitrary function parameter.
- Keys joined with U+001F or a colon in the source are pairs or records here.
- `image_url` of composition rows is an optional text; whether an empty string binds as NULL is a question for the SQL driver.
- Starts on a database without its version row, after it was lost: what the first migrations do to tables that already exist is not part of this model.
- Revision rows of providers other than Rebrickable in `set_inventory_revision`; no statement of the importer reaches them.
- 32-bit overflow of quantities and counters; sizes and offsets of the ZIP reader are bounded by the widths of their fields.
- The order in which a hash map or set is visited: the loops over maps take their elements in an arbitrary order.
- The contents of the 35 schema migrations other than 21 to 22 and 22 to 23: each is a step that is recorded or not.
- zlib and OpenSSL: `inflate` is any function within its contract, HMAC, random numbers and certificates are not part of this model.
- The state of the inflater is only seen through what it has read and written since the start; an inflater without such a history can be given one by pairing its state with it.
- Failing writes to the extracted file and failing reads of the archive stop the extraction in the source; here reads and writes succeed, and the output counts only when the outcome is Done.
- UTF-8 decoding of ZIP names, and Unicode case folding when names are compared: names are bytes, letters are compared as ASCII.
- Backup names made from a random identifier are given as fresh, pairwise different paths.
- Failures of the roll-back itself other than a directory in the way, failures while backups are discarded after a commit, and paths inside one another; a directory stands for a tree with something in it.
- Row ids of `inventory_record` are positions in the table, so ids left by deleted rows do not appear; the row `LIMIT 1` picks is some matching row, the same one each time the unchanged table is asked.
- The order of the extra preview rows and the names shown in a preview.
- `importOwnedParts`, which appends line by line without a preview.
- Two candidate libraries that resolve to different files of the same name; stripping, rpath rewriting, copying of licence files and the audit that follows.
- Library names matched by prefix in `copy_library` are a given set of private names.
- `RebrickableElementImporter` and `RebrickableMinifigCatalogImporter`: they repeat the synchronisation proved here for themes and part relationships.
- `BrickOwlInventoryImporter`, the part, set and MOC importers, `DatabaseManager` backup and restore, the network layer and the user interface.
- ZipReader.FindEnd: the error for a file that cannot be sought or read is not modelled, because the archive is its bytes.
