# PLM platform: verified models

Models in Dafny of the algorithms and protocols at the core of the platform,
with proofs over all inputs, all runs and all reachable states. Check the
project with `dafny verify dfyconfig.toml`.

**STEP splitter (`cad-parser`).** `StepLexer` is a byte-by-byte reference lexer
of the splitter's own lexical rule: a semicolon ends a record, comments are
skipped, quoted strings are not recognised. `StepScan` holds the streaming
scanner with its moving window and proves it equal to the lexer for every way
the file arrives. `StepReader` proves that the reported ranges read back, and
`ScannedRecords` says which records with which ids and types are reported, by
the characters. `PartWriter`, `PartPieces` and `PartRoundTrip` copy records into
part files and scan these again. `Reachability`, `StepClosure` and `SrrExpansion` are the
worklists that decide which records belong to a product, and `PartClosure` says
what the references of the part file lead to. `TypeIndex` and `NauoMatrix` look
up the matrix of an occurrence; `RecordArguments` and `OccurrenceMatrix` say which
matrix that is, in terms of records and tables, and `LazyGeometry` compares
geometry loaded on demand with geometry loaded as a whole. `PartBuckets` is the
scheduling of parts over workers. `Renumbering` holds the reference graphs and
the renumbered file, `RewrittenRecords` says what rewriting leaves alone;
`ByteText` and `Sorting` are the primitives underneath. `ConvertPool` and `Glb`
are the conversion workers and the binary glTF writer (glTF 2.0, section 4.4).

**Service registry.** `ServiceRegistry` has the client's mirror and the
server's state as functions, `EnvironmentRegistry` the server's object with its
in-process mirror, `RegistryProtocol` the system of one server and many clients
over a network that loses, repeats and reorders snapshots and across restarts.
`RegistryRuns` says what the store holds after a run, read off the operations.
`InstanceSelection` is the gateway's tag-aware choice on top.

**Scopes, grants, spaces, catalogue.** `ScopeBatches` registers batches in
dependency order, `ScopeRows` says what is stored then, `ScopeChains` walks the
parent chain; `Grants` identifies grants by a fingerprint of their key values, `GrantTables` writes them statement
by statement; `ProjectSpaces` searches and inherits along parent pointers that
may form cycles; `Catalog` is the idempotent registration of algorithms,
`CatalogLines` its test for what is stored already, `CatalogErrors` says when it
fails, `CatalogRepeats` what a second call does and `CatalogRows` which rows a run
leaves. Tables are maps, statements
are their effect on these maps. `Basics` holds what every module uses.

Objects that the source updates in place are classes, loops are loops; each is
proved against a function or predicate on values, and the properties are proved
about these, among them what the function means in terms of the characters, records
or operations that went in. Some promises turned out to need a condition. Each has
its exact condition and an input that fails:

- cuts inside a comment opener (`StepLexer.AlwaysSafeCut`, `CutSplitsOpener`)
- trailing records (`StepReader.TrailingReadsBack`, `LazyGeometry.OffsetsExact`, `BrokenTail`)
- references that leave a renumbered set (`Renumbering.RenumberingIsIsomorphism`, `SelfReferenceArises`)
- replies without a task (`ConvertPool.StepExact`, `StrayReplyLosesTask`)
- snapshots that outlive a restart (`RegistryProtocol.CurrentSnapshot`, `LateSnapshotBlocks`)
- batches that move scopes (`ScopeBatches.BatchExact`, `BatchCanCloseCycle`)
- commas inside key names (`ScopeRows.IdentifiedExact`, `CommaHidesChange`)
- separators inside grant values (`Grants.TellsApartExact`, `Collision`)
- grants whose keys do not fit their columns (`GrantTables.PolicyStore.AllOrNothing`, `LongValueLeavesBareRow`)
- bars inside catalogue fields (`CatalogLines.LineTestExact`, `BarsCanHide`)
- second identical registrations (`CatalogRepeats.SecondCallExact`, `HandlerBecomesGuard`)

Relationships between products are a different case: `SrrExpansion.ExpandSRRClosure`
says from which records of a closure a reference may lead out, and
`SrrExpansion.ReferencesCanDangle` shows that it does.

Where comments and code of the source differ, the code is followed. The catalogue
promises that a second identical call is a no-op and that repeated registrations
never raise duplicate-key errors (`platform-api-rs/src/catalog_db.rs:12-16`). The
first holds, for payloads without bars, exactly under the condition of
`CatalogRepeats.SecondCallExact`. The second holds exactly while no new code gets a derived id that is taken, and no
instance of another service is in the way (`CatalogErrors.NoErrorExact`): a stored
`CHECK_OUT` and an incoming `check-out` break it (`CatalogErrors.DashedCodeFails`),
and in a corner even the same payload does (`CatalogRepeats.RepeatCanFail`).

## Model

| member | source | states |
|---|---|---|
| StepLexer.ChunkIndependence | cad-parser/step-scan.js:82-146 | For every file and every cut into chunks that does not fall between the two bytes of a comment opener, the chunked scan ends in the state, segments included, of the scan in one chunk. |
| StepLexer.AlwaysSafeCut | cad-parser/step-scan.js:109-112 | A cut is safe for every continuation of the file exactly if it does not stand behind a slash that was read as text; a cut inside a comment closer is therefore harmless. |
| StepLexer.CutSplitsOpener | cad-parser/step-scan.js:109-112 | A cut that is not safe: between the bytes of an opener it turns a comment into a segment. |
| StepLexer.RunIndexed | cad-parser/step-scan.js:48-55 | The ranges of the closed segments tile the file from its start without gap or overlap, and scanning the bytes of one range alone yields exactly that segment. |
| StepLexer.SegmentAnywhere | cad-parser/step-scan.js:48-55 | The bytes of a closed segment, put behind any segment boundary, are scanned as a segment with the same text and length. |
| StepScan.ScanIsChunkIndependent | cad-parser/step-scan.js:116-146 | The sequence of callbacks (id, type, text, offset, length, trailing flush included) is that of the one-chunk scan, under the condition on openers. |
| StepScan.ScanStep | cad-parser/step-scan.js:28-149 | The streaming scanner, fed any chunks, calls back exactly what the byte-by-byte reference lexer finds in them; what that is, in terms of the bytes, is stated by ScannedRecords.CallbacksExact. |
| StepScan.Scanner.Scan | cad-parser/step-scan.js:82-114 | From the moving window the loop reaches the state that the reference lexer reaches on the same bytes, and leaves nothing unread except inside an open comment. |
| StepScan.Scanner.OnData | cad-parser/step-scan.js:116-137 | Whatever the window held, rebuilding it for the next chunk keeps the correspondence with the reference lexer. |
| StepScan.Scanner.OnEnd | cad-parser/step-scan.js:138-146 | After the end of the file the callbacks are those of all chunks, the unterminated last record included. |
| StepScan.Scanner.EmitSegment | cad-parser/step-scan.js:48-55 | A segment is reported with the range from its first byte through the semicolon and with its comment-free, normalised text. |
| StepScan.Scanner.HandleSegment | cad-parser/step-scan.js:57-80 | Section keywords switch the state, header lines are collected, and only records of the data section are reported. |
| StepScan.Scanner.EnterComment | cad-parser/step-scan.js:95-100 | Jumping to the next opener keeps what the rest of the window still yields. |
| StepScan.Scanner.LeaveComment | cad-parser/step-scan.js:84-91 | Jumping behind the next closer keeps what the rest of the window still yields. |
| StepScan.Scanner.TakeSegment | cad-parser/step-scan.js:101-108 | Jumping behind the next semicolon keeps what the rest of the window still yields, the reported segment included. |
| StepScan.OpenerAhead | cad-parser/step-scan.js:92-95 | The cached position of the next opener stays right while the cursor passes semicolons before it. |
| StepReader.SegmentReadsBack | cad-parser/app.js:277-282 | For every closed segment the on-demand reader turns the bytes of its range into exactly the text that the scan reported. |
| StepReader.ReportedReadsBack | cad-parser/app.js:277-282 | Every reported range except that of a trailing record without a semicolon is a segment of the file and reads back as the reported text. |
| StepReader.TrailingReadsBack | cad-parser/app.js:277-282 | In an unterminated file the range of the last record reads back right exactly if the record ends in white space outside a comment; otherwise the reader cuts off its last byte. |
| StepReader.ReportedHasText | cad-parser/step-scan.js:57-80 | Nothing is reported of an empty text, so a terminated file has no trailing record. |
| ScannedRecords.IdExact | cad-parser/step-scan.js:72-73 | The reported id is d exactly if the text is a hash, the digits d, white space and an equals sign, with these characters written out. |
| ScannedRecords.TypeExact | cad-parser/step-scan.js:74-78 | For every text: no type exactly without a number; else the name (a capital or underscore, then capitals, underscores or digits) between white space and an opening bracket, or the mark of a compound record exactly if no name stands there. |
| ScannedRecords.NormaliseExact | cad-parser/step-scan.js:48-55 | The reported text is t exactly if t, between white space, is the lines of the bytes joined by blanks, each but the last without its carriage return, and t has no outer white space. |
| ScannedRecords.CallbacksExact | cad-parser/step-scan.js:57-80 | Of the pieces of a file between the semicolons outside comments, exactly each DATA and each record whose last keyword before is DATA leads to a callback, in order: with the text, range, id and type of that record, or with the header block of all records whose last keyword before is HEADER. |
| Sorting.SortBySorts | cad-parser/worker-split.js:20-21 | The sort by key yields the same elements with ascending keys. |
| Sorting.SortByStable | cad-parser/worker-split.js:20-21 | Elements with the same key keep their order. |
| PartWriter.Coalesce | cad-parser/worker-split.js:23-30 | Merging contiguous ranges keeps the copied bytes and leaves no two runs that touch. |
| PartWriter.PartStream.Push | cad-parser/worker-split.js:40 | A pushed chunk is appended to what has been written or waits. |
| PartWriter.PartStream.Flush | cad-parser/worker-split.js:34-39 | Flushing writes everything that waits, in order, and nothing else. |
| PartWriter.WritePart | cad-parser/worker-split.js:18-50 | However ranges are merged and writes are batched, the part file is the header, the bytes of the ranges in ascending file order, and the trailer. |
| PartRoundTrip.PrintThenParse | cad-parser/worker-split.js:18-50 | Scanning a part file written from reported records that end in a semicolon gives the header and exactly the chosen records in ascending source order, with unchanged id, type and text, and each new range holds the original bytes. |
| PartPieces.HeaderOrigin | cad-parser/step-scan.js:57-80 | A reported header is the header frame around the normalised texts of segments of the file, in file order. |
| Reachability.ReachExact | cad-parser/step-lib.js:87-97 | A set that holds the seeds, is closed, and holds only reachable elements is the least closed set. |
| Reachability.WorklistEnd | cad-parser/step-lib.js:87-97 | A worklist that has used up its queue has visited exactly what is reachable from the seeds. |
| StepClosure.CollectForwardClosure | cad-parser/step-lib.js:87-97 | The forward closure terminates, is closed, and is exactly the set of records reachable from the seeds. |
| StepClosure.IndexDefinitions | cad-parser/app.js:535-540 | The per-product index gives for each product exactly its definitions. |
| StepClosure.FindDefinitionalChain | cad-parser/step-lib.js:65-85 | The chain is exactly what leads to the product backwards through admissible records: of the records that refer to one of the chain exactly those join that are no product and whose definitions are all of this product or all of others. The precomputed index and the scan give the same answer. |
| StepClosure.QueueReferrers | cad-parser/step-lib.js:71-82 | One turn of the worklist adds to the chain exactly the admissible referrers of the record, and queues those that were not in it yet. |
| StepClosure.ChainKeepsToProduct | cad-parser/step-lib.js:73-81 | The chain holds no other product, and no record that names both our and another definition. |
| SrrExpansion.ExpandSRRClosure | cad-parser/step-lib.js:101-138 | The expansion ends and queues no record twice; what was not expanded are entry representations of other products; every relationship record of an expanded record is in; a reference leads out of the closure only from such an entry or from a direct reference of a record that refers to a relationship with one; without cross references and from a closed start the result is the least set closed under references and relationships. |
| SrrExpansion.TakeRelationship | cad-parser/step-lib.js:110-135 | Taking in one relationship record keeps the bookkeeping of the expansion in both branches, with and without cross references. |
| SrrExpansion.TakeReferrers | cad-parser/step-lib.js:125-131 | Every record that refers to the relationship is in afterwards with its direct references; these, as far as they are new, may miss what they refer to. |
| SrrExpansion.NothingMissing | cad-parser/step-lib.js:101-138 | Without cross references the closure holds everything its records refer to. |
| SrrExpansion.ReferencesCanDangle | cad-parser/step-lib.js:117-131 | With cross references both exceptions occur: in a concrete model every expansion misses a reference of the foreign entry and one of a direct reference of the referrer. |
| PartClosure.IndexEvents | cad-parser/app.js:463-481 | The callback keeps one record of each number, and both graphs hold the references of all records. |
| PartClosure.EntitiesLast | cad-parser/app.js:463-481 | The record kept for a number is the last one with it. |
| PartClosure.ClosureOf | cad-parser/app.js:574-577 | The chain, exactly what it refers to, and then the expansion, which holds every relationship of its records but foreign entries; references that leave the closure are accounted for, and without cross references none does. |
| PartClosure.PartReferences | cad-parser/app.js:575-614 | In the part file, scanned again, a reference to a record of the source file finds that record, or is one of those that lead out of the closure. |
| PartClosure.PartIsComplete | cad-parser/app.js:575-614 | Without cross references every reference of the part file resolves inside it, if the source file has the record at all. |
| PartBuckets.GreedyBound | cad-parser/app.js:617-625 | For jobs in any order: m times a load is at most the total plus m-1 times the largest job. |
| PartBuckets.GreedyTwoApproximation | cad-parser/app.js:617-625 | For jobs in any order no load exceeds 2 - 1/m times the largest load of whatever assignment. |
| PartBuckets.LargestFirstApproximation | cad-parser/app.js:617-625 | For jobs in descending order no load exceeds 4/3 - 1/(3m) times the largest load of whatever assignment. |
| PartBuckets.LargeJobFits | cad-parser/app.js:617-625 | If the smallest job is larger than a third of what an assignment allows, the least loaded bin can still take it. |
| PartBuckets.UnionOfBins | cad-parser/app.js:617-625 | Under any assignment the bins together hold every job exactly once. |
| PartBuckets.SumOfBins | cad-parser/app.js:617-625 | Under any assignment the loads add up to the total. |
| PartBuckets.GreedyBuckets | cad-parser/app.js:617-625 | Buckets filled by the greedy rule from the sorted jobs hold every part once and are near-optimal. |
| PartBuckets.SpreadParts | cad-parser/app.js:617-625 | The distribution loop puts every part into exactly one bucket, keeps each load the sum of its counts, and stays within 4/3 - 1/(3m) of any assignment. |
| TypeIndex.SplitArgsLoop | cad-parser/step-lib.js:5-15 | The character loop equals the recursive split, which RecordArguments.SplitExact describes. |
| RecordArguments.SplitExact | cad-parser/step-lib.js:5-15 | If the text consists of parts joined by commas, no part holding a comma at bracket depth zero and all but the last with balanced brackets, round and square alike, the split gives exactly the trimmed parts, without a blank last one; every text has such parts (HasParts). |
| RecordArguments.ArgExact | cad-parser/step-lib.js:5-17 | Argument k is part k without outer white space, or empty if there is none. |
| RecordArguments.RefArgExact | cad-parser/step-lib.js:17 | An argument is the reference x exactly if it is a hash and the digits x between white space. |
| RecordArguments.RefListInOrder | cad-parser/step-lib.js:230-234 | The references of a text are all its numbers behind a hash, each in full and in order. |
| RecordArguments.MatchExact | cad-parser/step-lib.js:34-42 | A record is indexed as m exactly if m is what stands at the first place from where on the text has the form: number, equals sign, name, bracketed arguments up to the last bracket, white space. |
| TypeIndex.RefListExact | cad-parser/app.js:260-269 | The scan for references lists exactly the ids that stand behind a hash sign in the text. |
| TypeIndex.ArgRefers | cad-parser/step-lib.js:5-17 | Whatever a single argument refers to, the whole argument list refers to: splitting never creates a reference. |
| TypeIndex.MatchRefers | cad-parser/step-lib.js:34-42 | Whatever the indexed arguments of a record refer to, its text refers to. |
| TypeIndex.MatchOfRecord | cad-parser/step-lib.js:34-42 | A simple record is indexed under its own id and type or not at all. |
| NauoMatrix.PrecomputeItems | cad-parser/step-lib.js:218-235 | The loops over the index entries, in the key order of JavaScript objects, fill the item tables that the matrix lookup uses. |
| NauoMatrix.MatrixDepends | cad-parser/step-lib.js:313-378 | The matrix of an occurrence depends on no placement but those whose ids occur in the item tables; which one it is, OccurrenceMatrix.MatrixExact says. |
| NauoMatrix.AskedIsReferred | cad-parser/step-lib.js:218-235 | Every placement that the lookup can ask for is referred to by a structural record. |
| OccurrenceMatrix.ArgsOfExact | cad-parser/step-lib.js:34-42 | The index has for an id and type the arguments of the last record with them. |
| OccurrenceMatrix.PlaceExact | cad-parser/step-lib.js:173-191 | The matrix of an axis placement is m exactly if origin, Z and X direction of m are the coordinates in the second argument of the point that its second argument names and of the directions that its third and fourth name, each absent if no such record is named; there is one exactly if the id has an axis placement. |
| OccurrenceMatrix.PlainPlacement | cad-parser/step-lib.js:186-191 | In particular behind a name come the numbers of the origin, of the Z direction and of the X direction. |
| OccurrenceMatrix.KeyOrderExact | cad-parser/step-lib.js:223-229 | The loops see array indices in ascending order and behind them the other keys as inserted. |
| OccurrenceMatrix.ArrayIndexExact | cad-parser/step-lib.js:223-229 | Array indices are the ids that are the decimal numeral of a number below 2^32 - 1. |
| OccurrenceMatrix.EntriesExact | cad-parser/step-lib.js:223-229 | The entries of spread types are exactly one for each id, from the last type that has it, array indices first and ascending. |
| OccurrenceMatrix.ItemTablesExact | cad-parser/step-lib.js:212-290 | From which records the tables come: items from the references in the second argument, owners from the last entry that lists the item, transformations from the third argument, mapped items from the second and third, in the order of the entries. |
| OccurrenceMatrix.MatrixIsFirst | cad-parser/step-lib.js:313-378 | On any tables the lookup gives the first placement among: the items of the first and the second representation of the relationship, the target of its transformation, the items of the representation of the product, and the target of the mapped item of the same number as the occurrence, or of the last, among those that fit the child. |
| OccurrenceMatrix.MatrixExact | cad-parser/step-lib.js:313-378 | Together: the matrix of an occurrence is that of the first of these ids with an axis placement record, as its record says, and there is none exactly if none of them has one. |
| LazyGeometry.OffsetsReadBack | cad-parser/app.js:228-240 | The offset index and the full index know the same geometry ids, and each stored range reads back as the record that the full index holds, if a trailing geometry record ends in white space. |
| LazyGeometry.GeometryIndexed | cad-parser/app.js:228-240 | Indexed is of every number the last point, direction or axis placement record, by its range on demand and by its text eagerly. |
| LazyGeometry.OffsetsExact | cad-parser/app.js:228-282 | On the whole scan every indexed range reads back exactly if the file has no indexed trailing record, or that record ends in white space outside a comment. |
| LazyGeometry.BrokenTail | cad-parser/app.js:228-282 | A file whose last record is geometry without a semicolon or white space behind it: its range reads back without the last byte. |
| LazyGeometry.CollectRefs | cad-parser/app.js:260-269 | One wave collects each indexed, not yet needed id that the texts refer to exactly once. |
| LazyGeometry.ResolveAssemblyGeometry | cad-parser/app.js:257-291 | The waves end and fetch exactly the geometry reachable from the structural records, each record once. |
| LazyGeometry.LazyRefinesEager | cad-parser/step-lib.js:313-378 | For every file without an indexed trailing record that reads back wrong, every choice of structural records and every occurrence, the matrix computed from the geometry fetched on demand is the matrix computed from all geometry of the file (which one that is: OccurrenceMatrix.MatrixExact). |
| Renumbering.BuildRefGraphs | cad-parser/step-lib.js:45-57 | The forward graph lists exactly the references in the body of each record, and the reverse graph is its transpose. |
| Renumbering.RewriteRefs | cad-parser/step-lib.js:147-149 | Replacing every reference of a text maps the list of its references and creates or loses none. |
| RewrittenRecords.MentionsExact | cad-parser/step-lib.js:49-56 | A record refers to x exactly if the number x stands in full behind a hash in its body, behind the equals sign if it is numbered. |
| RewrittenRecords.RewriteExact | cad-parser/step-lib.js:148-150 | Rewriting replaces the numbers behind a hash, each by itself, and leaves every text between them as it is. |
| Renumbering.RewriteRecord | cad-parser/step-lib.js:147-149 | The rewritten record stands under the new number and refers to the new numbers. |
| Renumbering.NumberedExact | cad-parser/step-lib.js:141-145 | The list to be renumbered holds each id of the set that has a record once, in ascending order of the numbers. |
| Renumbering.ReconstructStepFile | cad-parser/step-lib.js:140-152 | The file consists of the records of the set in ascending order, each rewritten under the new numbers. |
| Renumbering.RenumberingExact | cad-parser/step-lib.js:145-146 | New numbers lie in 1..n, are different for different records, and keep the order of the old ones. |
| Renumbering.NewEdge | cad-parser/step-lib.js:140-152 | A new record names a new number exactly if the old record named that record, or named a missing one that is spelled like the new number. |
| Renumbering.RenumberingIsIsomorphism | cad-parser/step-lib.js:140-152 | The output graph is isomorphic to the graph of the set exactly if no record of the set names a number outside the set that equals the position of a record it does not name. |
| Renumbering.SelfReferenceArises | cad-parser/step-lib.js:140-152 | It can fail: a single record that names the missing record 1 becomes record 1 and names itself. |
| Renumbering.ClosedSetsKeepTheirGraph | cad-parser/step-lib.js:140-152 | For a set that holds everything its records refer to, the graphs are isomorphic. |
| Renumbering.ForwardClosuresKeepTheirGraph | cad-parser/step-lib.js:87-152 | So for every forward closure whose members all have a record. |
| ServiceRegistry.LocalServiceRegistry.UpdateFromSnapshot | platform-lib-rs/src/registry.rs:46-62 | A snapshot is ignored if the mirror is populated and the version is not newer, and replaces services and version otherwise. |
| ServiceRegistry.LocalServiceRegistry.ResetVersion | platform-lib-rs/src/registry.rs:70-77 | The version becomes the least one and the services stay in use; the next snapshot is accepted unless it has that least version itself. |
| ServiceRegistry.LocalServiceRegistry.PickFiltered | platform-lib-rs/src/registry.rs:109-125 | A pick is the next one in turn among the matching healthy instances, or among all matching ones if none is healthy; it fails exactly if nothing matches and then does not advance the counter. |
| ServiceRegistry.LocalServiceRegistry.NextRr | platform-lib-rs/src/registry.rs:127-133 | The counter of one service is returned and advanced by one modulo the machine word; other services keep theirs. |
| ServiceRegistry.NextInv | platform-api-rs/src/registry_server.rs:92-146 | Every server operation keeps the store invariant: no empty pool, healthy exactly if no probe has failed since the last success, failures below the threshold. |
| ServiceRegistry.RunInvariant | platform-api-rs/src/registry_server.rs:92-279 | Over every run of operations the invariant holds and the stored counter is the length of the current run of failed probes. |
| ServiceRegistry.EvictionExact | platform-api-rs/src/registry_server.rs:245-279 | A failed probe evicts an instance exactly when it completes a run of threshold failures, and a probe removes no other instance. |
| ServiceRegistry.RevisionTracksProjection | platform-api-rs/src/registry_server.rs:92-218 | A registration raises the revision by one; any other operation does exactly if it changes what clients see. |
| ServiceRegistry.PoolExact | platform-lib-rs/src/registry.rs:115-124 | A pick takes in turn, in the order of the snapshot, exactly the matching instances that are healthy, or all matching ones if none of these is. |
| RegistryRuns.NextRow | platform-api-rs/src/registry_server.rs:92-279 | One operation does to the row of each instance what it says and nothing to the rows of the others. |
| RegistryRuns.ServiceGone | platform-api-rs/src/registry_server.rs:140-146 | After deregistering a service its pool is gone and exactly the other pools are left, unchanged. |
| RegistryRuns.RunExact | platform-api-rs/src/registry_server.rs:92-279 | Over every run, read off the operations alone: the store holds an instance exactly if nothing after its last registration removes it (its deregistration, that of its service, or the failed probe that completes the threshold run), and the row is that registration up to health, failures and last answer, which are those of the probes since. |
| RegistryRuns.SnapshotExact | platform-api-rs/src/registry_server.rs:148-169 | What clients are told after every run: the services that hold an instance, each of these once, with base URL, version and tag as registered, healthy exactly if its last probe did not fail. |
| EnvironmentRegistry.Registry.Register | platform-api-rs/src/registry_server.rs:92-123 | Registering puts or replaces the instance as healthy, raises the revision and leaves the mirror equal to the projection of the store; no other row changes. |
| EnvironmentRegistry.Registry.DeregisterInstance | platform-api-rs/src/registry_server.rs:126-137 | Returns whether the instance existed; afterwards it is not there, all other rows are as before, and an emptied pool is gone. |
| EnvironmentRegistry.Registry.DeregisterService | platform-api-rs/src/registry_server.rs:140-146 | Afterwards the service has no pool and all rows of other services are as before; the revision goes up exactly if the service existed. |
| EnvironmentRegistry.Registry.BuildSnapshot | platform-api-rs/src/registry_server.rs:148-169 | The snapshot carries the current revision and the projection of every pool. |
| EnvironmentRegistry.Registry.Mutated | platform-api-rs/src/registry_server.rs:215-218 | The revision grows by one and the in-process mirror becomes the current projection. |
| EnvironmentRegistry.Registry.RecordProbe | platform-api-rs/src/registry_server.rs:245-279 | A probe outcome updates health and failure count, evicts on the threshold, and reports a change exactly if the revision was raised. |
| EnvironmentRegistry.Registry.Answer | platform-api-rs/src/registry_server.rs:253-259 | A success clears the failures; the revision grows exactly if the instance was unhealthy or had failed. |
| EnvironmentRegistry.Registry.Fail | platform-api-rs/src/registry_server.rs:260-274 | A failure counts up, makes the instance unhealthy, and evicts it exactly on reaching the threshold. |
| RegistryProtocol.StepSafe | platform-lib-rs/src/registry.rs:46-77 | Every event (operation, restart, offer, delivery, loss, duplication, reset) keeps the agreement invariant. |
| RegistryProtocol.RunSafe | platform-lib-rs/src/registry.rs:46-77 | Over every run with lost, repeated and reordered snapshots, the services of each client are those of the server at the version of the client. |
| RegistryProtocol.LogGrows | platform-api-rs/src/registry_server.rs:148-218 | What the server offered at a revision of a lifetime never changes afterwards. |
| RegistryProtocol.VersionsGrow | platform-lib-rs/src/registry.rs:46-62 | The version of a client goes back only by a reset. |
| RegistryProtocol.CurrentSnapshot | platform-lib-rs/src/registry.rs:46-62 | After the current snapshot is delivered a client is up to date exactly if it follows the current lifetime, its version is below the revision, or it was up to date before; the others ignore the snapshot. |
| RegistryProtocol.RestartRecovers | platform-lib-rs/src/registry.rs:70-77 | After a restart and a reset, if no older snapshot arrives later, the next current snapshot restores agreement whatever else happened. |
| RegistryProtocol.LateSnapshotBlocks | platform-lib-rs/src/registry.rs:70-77 | Without that condition it fails: a possible run with a restart, a reset and a late snapshot of the old lifetime, at whose end the current snapshot has been delivered and the client still lists an instance that the server does not know. |
| InstanceSelection.IsolationHolds | spe-api-rs/src/state.rs:90-125 | An isolated space is offered exactly the preferred instances that carry one of its tags. |
| InstanceSelection.SharedCandidates | spe-api-rs/src/state.rs:90-125 | Without isolation an instance is offered exactly if it is preferred by health and carries one of the tags, or nobody preferred does and it is untagged, or no tag is asked for and nobody preferred is untagged either. |
| InstanceSelection.OfferedExact | spe-api-rs/src/state.rs:90-132 | Isolated or not, the candidates are exactly the instances of the snapshot of which this is so, in its order and multiplicity. |
| InstanceSelection.HealthFirst | spe-api-rs/src/state.rs:90-125 | Candidates are healthy whenever any instance is. |
| InstanceSelection.Gateway.NextRr | spe-api-rs/src/state.rs:61-66 | The counter of the service is returned and advanced modulo the machine word. |
| InstanceSelection.Gateway.PickInstanceByTags | spe-api-rs/src/state.rs:71-84 | The pick is the candidate that is next in turn among exactly the offered instances of the snapshot; there is none exactly if nobody is offered, and then the counter stays. |
| InstanceSelection.UsesInRounds | spe-api-rs/src/state.rs:61-84 | A run of k picks over n candidates consists of full rounds and one partial round. |
| InstanceSelection.RoundRobinFair | spe-api-rs/src/state.rs:61-84 | In a run of picks over fixed candidates, without a wrap of the counter, any two positions are taken equally often up to one, and so are any two candidates if none is listed twice. |
| InstanceSelection.RunPicks | spe-api-rs/src/state.rs:61-84 | A run of picks with a fixed snapshot and filter returns the candidates in turn, from the position of the counter on. |
| ScopeBatches.TopologicalSort | pno-api-rs/src/scopes.rs:400-446 | Succeeds exactly if some order of the batch puts every parent into the store or before its children, and then returns such a permutation; the error lists the codes of the scopes that lack their parent when the others are in order. |
| ScopeBatches.OrderedExact | pno-api-rs/src/scopes.rs:400-446 | A dependency order is one in which every scope is a root, or its parent is known or has an earlier place. |
| ScopeBatches.Stuck | pno-api-rs/src/scopes.rs:417-436 | If a full pass resolves nothing, no admissible order contains any of the remaining scopes. |
| ScopeBatches.Pass | pno-api-rs/src/scopes.rs:417-436 | One pass keeps the resolved scopes in dependency order, loses and duplicates none, and leaves only unresolvable ones if it makes no progress. |
| ScopeBatches.Store.RegisterAll | pno-api-rs/src/scopes.rs:320-394 | An error or a conflict changes nothing; otherwise the store is the batch applied in a dependency order, with the parent relation closed. Unresolved parents are reported exactly if no order exists; a batch of different codes succeeds exactly if an order exists and every scope can be applied, and keeps the relation acyclic exactly if no moved scope comes below itself. |
| ScopeBatches.OrderedKeepsClosed | pno-api-rs/src/scopes.rs:320-394 | Every batch in dependency order keeps all parents stored. |
| ScopeBatches.MoveExact | pno-api-rs/src/scopes.rs:486-503 | Moving a stored scope below a stored parent keeps the relation acyclic exactly if the scope is not the new parent or one of its ancestors. |
| ScopeBatches.ApplyExact | pno-api-rs/src/scopes.rs:334-379 | Whatever case of inserting, overwriting, moving below another parent or moving to the root applies, an accepted scope keeps the relation acyclic exactly if it is not moved below itself or a descendant. |
| ScopeBatches.AppliedExact | pno-api-rs/src/scopes.rs:320-394 | A batch of different codes is applied exactly if every scope is stored alike, or is new or owned by the service and repeats no key name; the rows of the batch then lie over the stored ones. |
| ScopeBatches.OverlayPermuted | pno-api-rs/src/scopes.rs:320-394 | For different codes that overlay does not depend on the order. |
| ScopeBatches.BatchExact | pno-api-rs/src/scopes.rs:320-394 | A batch of different codes keeps the relation acyclic exactly if no moved scope is met on the way up from its own new parent in the store overlaid with the batch. |
| ScopeBatches.BatchCanCloseCycle | pno-api-rs/src/scopes.rs:320-394 | A concrete accepted batch of one scope that closes a cycle, on which the walk of the parent chain would not end. |
| ScopeRows.RegisteredExact | pno-api-rs/src/scopes.rs:320-394 | What a successful call has done with a batch of different codes: every row whose hash differed has the submitted parent and keys under its owner or the service, no other row changes; of every scope and key with a source the last one stands under the service and instance, other sources stay; news is reported exactly if a row was written or a source submitted. |
| ScopeRows.VerdictExact | pno-api-rs/src/scopes.rs:320-394 | A batch of different codes succeeds exactly if it can be sorted and no scope is owned by another service with another hash or, unless its hash is stored, repeats a key; a conflict counts the scopes owned otherwise. |
| ScopeRows.SourcesExact | pno-api-rs/src/scopes.rs:372-379 | For any batch: the sources of the scopes and keys that it mentions are the last ones submitted, under the calling service; all others are as before. |
| ScopeRows.HashExact | pno-api-rs/src/scopes.rs:295-309 | On definitions whose parent has no line break and whose keys are not empty and have no comma, two hashes are equal exactly if the definitions are. |
| ScopeRows.RegisteredIsStored | pno-api-rs/src/scopes.rs:334-370 | So after a batch of such definitions every scope is stored as submitted, whether the hash has called it new, changed or known. |
| ScopeRows.IdentifiedExact | pno-api-rs/src/scopes.rs:295-309 | Among all definitions the hash identifies exactly those with one key, not empty and without a comma, and one place only where a line break and the mark of the keys stand. |
| ScopeRows.CommaHidesChange | pno-api-rs/src/scopes.rs:334-370 | The input: an owner who replaces two keys by one that joins them with a comma is told that nothing changed, and the old keys stay. |
| ScopeChains.CollectKeys | pno-api-rs/src/scopes.rs:208-221 | The recursion appends the keys of the whole parent chain, root first, and nothing for an unknown scope. |
| ScopeChains.EffectiveKeys | pno-api-rs/src/scopes.rs:202-206 | On a closed acyclic store the walk ends and lists the keys along the only chain from a root to the scope. |
| ScopeChains.ChainUnique | pno-api-rs/src/scopes.rs:208-221 | There is at most one chain from a root to a scope. |
| ScopeChains.RootChainExact | pno-api-rs/src/scopes.rs:208-221 | Such a chain begins with a scope without a parent, and every other one names the one before as its parent. |
| ScopeChains.KeysInOrder | pno-api-rs/src/scopes.rs:208-221 | In the list the keys of each scope of the chain stand behind those of the scopes above it and before those below. |
| ScopeChains.WellFoundedExact | pno-api-rs/src/scopes.rs:208-221 | Closed and acyclic is exactly what makes the walk end at a root from every scope. |
| Grants.ComputeFingerprint | pno-api-rs/src/authorization.rs:158-174 | The loop builds the entries in effective-key order with bars between them; without keys the fixed sentinel is returned. |
| Grants.PreimageExact | pno-api-rs/src/authorization.rs:163-173 | The hashed text of one key is name, equals sign and value; that of two lists of keys one behind the other is both texts with a bar between them. |
| Grants.SeparableInjective | pno-api-rs/src/authorization.rs:158-174 | If no value but the last holds the separator that follows it, two grants of a scope share a fingerprint exactly if they give every key the same value. |
| Grants.BarFreeSeparable | pno-api-rs/src/authorization.rs:158-174 | Values without a bar meet that condition whatever the key names are. |
| Grants.TellsApartExact | pno-api-rs/src/authorization.rs:158-215 | Without a restriction on the values, the fingerprint tells the grants that pass validation apart exactly if the scope has at most one effective key. |
| Grants.Collision | pno-api-rs/src/authorization.rs:158-174 | With two distinct keys two different valid grants have the same fingerprint. |
| Grants.SpareCollision | pno-api-rs/src/authorization.rs:192-215 | With a repeated effective key validation even asks for a value that the fingerprint ignores. |
| Grants.ValidKeys | pno-api-rs/src/authorization.rs:192-215 | For distinct effective keys a valid grant gives values for exactly these keys. |
| Grants.WhiteExact | pno-api-rs/src/authorization.rs:192-215 | What validation trims are the 25 characters with the Unicode property White_Space. |
| Grants.SlotHoldsGrant | pno-api-rs/src/authorization.rs:561-684 | On plain values the row of a grant is stored exactly if the table grants it. |
| GrantTables.PolicyStore.AddGrant | pno-api-rs/src/authorization.rs:561-614 | The statements of one grant, up to the first that is refused: the policy row, then a row for each key. |
| GrantTables.InsertKeysExact | pno-api-rs/src/authorization.rs:602-612 | The key rows of a new policy are all written exactly if every name and value fits its column after trailing blanks are cut off, and no two names become equal by that. |
| GrantTables.ColumnExact | pno-api-rs/src/authorization.rs:602-612 | A column keeps a text as it is or, if only blanks stand beyond the width, up to the width; null characters are refused. |
| GrantTables.PolicyStore.AddExact | pno-api-rs/src/authorization.rs:561-614 | The tables change exactly if the policy row is written; the call then succeeds exactly if every key can be stored, and otherwise leaves the policy with other keys than the grant. |
| GrantTables.PolicyStore.AllOrNothing | pno-api-rs/src/authorization.rs:561-614 | An error leaves the tables alone exactly if it is not the case that the policy row is written for keys that cannot be stored. |
| GrantTables.PolicyStore.RetryReportsSuccess | pno-api-rs/src/authorization.rs:573-589 | After such an error the same call reports an existing grant, and the grant is still not in the tables. |
| GrantTables.PolicyStore.LongValueLeavesBareRow | pno-api-rs/src/authorization.rs:561-614 | A value of 256 letters passes validation, is refused by the database, and leaves a policy without its key. |
| GrantTables.PolicyStore.AddGrants | pno-api-rs/src/authorization.rs:561-614 | For keys that fit their columns, and on plain values, the tables afterwards grant what they did and this grant, and an insertion is reported exactly if that is news. |
| GrantTables.PolicyStore.RemoveGrant | pno-api-rs/src/authorization.rs:618-642 | The policy of the grant is deleted with its keys and counted; on plain values the tables afterwards grant what they did without this grant. |
| GrantTables.PolicyStore.AddGrantAllSpaces | pno-api-rs/src/authorization.rs:655-669 | The same statements in every project space, up to the first error. |
| GrantTables.PolicyStore.AddAllExact | pno-api-rs/src/authorization.rs:655-669 | The call succeeds exactly if every space has the grant or can take it with all keys; an error changes the tables exactly if the grant is well-formed and its permission and role exist, and then leaves one policy without its keys in the first space that had none. |
| GrantTables.PolicyStore.AllSpacesOrNone | pno-api-rs/src/authorization.rs:655-669 | All or nothing exactly if it is not the case that a well-formed grant with existing permission and role is missing in some space and has keys that cannot be stored. |
| GrantTables.PolicyStore.AddAllGrants | pno-api-rs/src/authorization.rs:655-669 | For keys that fit, and on plain values, the tables afterwards grant what they did and this grant in every space, and the result tells whether any space did not have it. |
| GrantTables.PolicyStore.RemoveGrantAllSpaces | pno-api-rs/src/authorization.rs:672-684 | The grant is taken out of every project space, and the result is the number of spaces that had it. |
| ConvertPool.ConvertPool.HandleMessage | cad-parser/convert-pool.js:21-30 | A reply frees the worker, settles its task with that reply and hands out waiting tasks. |
| ConvertPool.ConvertPool.HandleError | cad-parser/convert-pool.js:31-37 | A crash rejects the task of the worker, removes it from the idle list, replaces it and hands out waiting tasks. |
| ConvertPool.ConvertPool.Submission | cad-parser/convert-pool.js:42-47 | A submission joins the end of the queue and is handed out at once if a worker is idle. |
| ConvertPool.ConvertPool.PumpQueue | cad-parser/convert-pool.js:49-57 | Tasks are handed out from the front of the queue until the queue or the idle list is empty. |
| ConvertPool.PumpExact | cad-parser/convert-pool.js:49-57 | All at once: as many tasks are handed out as there are idle workers and waiting tasks, in the order of the queue, each to the worker that became idle last. |
| ConvertPool.StepGood | cad-parser/convert-pool.js:18-58 | Every event of well-behaved workers keeps the pool invariants and settles one task exactly if a busy worker replied or crashed. |
| ConvertPool.StepExact | cad-parser/convert-pool.js:18-58 | Of the events that concern the pool exactly those of well-behaved workers keep the invariants. |
| ConvertPool.RunGood | cad-parser/convert-pool.js:18-58 | Over every run live workers number the pool size, idle ones hold no task, no handler ends with an idle worker and a waiting task, and the settled tasks number the completions. |
| ConvertPool.RunLogs | cad-parser/convert-pool.js:18-58 | Over every such run the k-th task carries the step of the k-th submission, and the k-th settlement belongs to the k-th completion: it settles the task that was posted to that worker, with the reply or the crash of that event. |
| ConvertPool.OnePlaceEach | cad-parser/convert-pool.js:18-58 | Each submitted task waits, is held by exactly one worker, or was settled by exactly one call. |
| ConvertPool.FirstComeFirstServed | cad-parser/convert-pool.js:49-57 | The k-th task handed to a worker is the k-th submitted one. |
| ConvertPool.NoDeadlock | cad-parser/convert-pool.js:18-58 | While a task is unsettled, a non-empty pool has a busy worker, so that a completion can still come. |
| ConvertPool.AllSettled | cad-parser/convert-pool.js:18-58 | After as many completions as submissions every task is settled, nothing waits and every worker is idle. |
| ConvertPool.StrayReplyLosesTask | cad-parser/convert-pool.js:21-30 | What that costs: after one reply too many a worker is listed twice, and in a run of four events a task is lost for good. |
| Glb.Align4Exact | cad-parser/worker-convert.js:52 | The bitwise rounding gives the next multiple of four exactly while the sum stays below 2^31. |
| Glb.LeastExact | cad-parser/worker-convert.js:78-84 | The computed minimum is a lower bound that some vertex attains; without vertices it stays at infinity. |
| Glb.GreatestExact | cad-parser/worker-convert.js:78-84 | The computed maximum is an upper bound that some vertex attains; without vertices it stays at minus infinity. |
| Glb.Bounds | cad-parser/worker-convert.js:78-84 | The loop over the vertices computes these bounds for the three axes. |
| Glb.DocumentSays | cad-parser/worker-convert.js:73-120 | Of every mesh, on its arrays alone: on each axis the minimum is a coordinate that some vertex attains and none lies below, the maximum one that some attains and none lies above, the infinities without vertices; element types, shapes, counts and targets of the accessors are those of the format, and the material has the colour of the mesh or the default. |
| Glb.NoPadding | cad-parser/worker-convert.js:67-73 | Every array is a whole number of words, so the padding before the indices never adds a byte. |
| Glb.MeshesLaidOut | cad-parser/worker-convert.js:75-113 | All buffer views are 4-aligned, inside the bytes written, ordered and disjoint, and accessor k reads view k. |
| Glb.GlbWriter.PushMesh | cad-parser/worker-convert.js:75-113 | Adding a mesh appends its arrays, views, accessors, material and primitive, with the optional parts only if present. |
| Glb.GlbWriter.BinaryBuffer | cad-parser/worker-convert.js:115-118 | The binary chunk holds the parts one behind the other, zero-filled to the aligned size. |
| Glb.BuildGlb | cad-parser/worker-convert.js:51-150 | The file is written exactly if both chunks round up below 2^31 and the total fits its field; it then is header, padded text and padded buffer. |
| Glb.FileReadsBack | cad-parser/worker-convert.js:134-150 | A reader that checks magic, version, total length, chunk lengths and chunk types recovers both chunks. |
| Glb.FileBegins | cad-parser/worker-convert.js:134-147 | Byte by byte: the file begins with glTF and version 2, little-endian, and its chunks are named JSON and BIN. |
| Glb.WordsReadBack | cad-parser/worker-convert.js:60-65 | Words written as bytes read back unchanged wherever they stand. |
| Glb.ArraysReadBack | cad-parser/worker-convert.js:75-113 | A reader of the document recovers the positions and indices of every mesh, and its normals exactly if there are as many as positions. |
| Glb.WrittenFileReadsBack | cad-parser/worker-convert.js:51-150 | Every written file reads back to the text of the document and the buffer; chunk lengths are multiples of four, and the views are ordered, disjoint, aligned and inside the buffer. |
| Glb.WrittenMeshesReadBack | cad-parser/worker-convert.js:51-150 | In that buffer every mesh finds its arrays. |
| ProjectSpaces.Descendants | pno-api-rs/src/project_spaces.rs:224-253 | On any parent pointers, cycles included, the search ends; the ids are distinct and reachable, in non-decreasing depth, all of them when fewer than 500, and otherwise nothing shallower than a listed one is omitted. |
| ProjectSpaces.Frontier | pno-api-rs/src/project_spaces.rs:228-252 | Whatever lies below the start is listed at its depth, or something no deeper still waits. |
| ProjectSpaces.HeadMinimal | pno-api-rs/src/project_spaces.rs:232-239 | The head of the queue, met for the first time, is met at its least depth. |
| ProjectSpaces.TakeHead | pno-api-rs/src/project_spaces.rs:237-251 | Expanding the head keeps the queue sorted by depth and the children of everything listed accounted for. |
| ProjectSpaces.SkipHead | pno-api-rs/src/project_spaces.rs:236-238 | Skipping a space that is listed already loses no reachable one. |
| ProjectSpaces.WalkIs | pno-api-rs/src/project_spaces.rs:347-382 | The walk takes active parents one after the other, each once, and stops exactly before the first inactive, missing or repeated space. |
| ProjectSpaces.WalkUnique | pno-api-rs/src/project_spaces.rs:347-382 | That description fixes the walk. |
| ProjectSpaces.EffectiveServiceTags | pno-api-rs/src/project_spaces.rs:343-388 | The walk ends; each service has the tags of the nearest space of the walk that defines it and no other service has any; the isolation flag is that of the asked space. |
| Catalog.IncomingFingerprint | platform-api-rs/src/catalog_db.rs:91-146 | The loops collect the lines of exactly the statements that the payload asks for. |
| Catalog.Catalog.PersistToDb | platform-api-rs/src/catalog_db.rs:290-400 | Nothing is written exactly if every line is stored already; otherwise the statements take effect in order up to the first error. |
| Catalog.CoveredExact | platform-api-rs/src/catalog_db.rs:91-191 | For a payload without bars in its fields the line test passes exactly if every type, algorithm and instance row of the payload is stored. |
| Catalog.AlgorithmLineExact | platform-api-rs/src/catalog_db.rs:111-117 | Two algorithm lines, the first with bar-free fields, are equal exactly if all four fields are. |
| CatalogLines.BarsCanHide | platform-api-rs/src/catalog_db.rs:91-191 | With bars the test can pass on a store that a first registration has made out of nothing, although an algorithm of the second payload is not stored. |
| CatalogLines.RunsKeepKeyed | platform-api-rs/src/catalog_db.rs:211-400 | Every run of statements keeps the keys and references of the tables. |
| CatalogLines.LineTestExact | platform-api-rs/src/catalog_db.rs:91-191 | The line test says in every such store whether the rows are stored exactly if a table that keeps its keys can read the lines in one way only. |
| CatalogLines.StatementTestExact | platform-api-rs/src/catalog_db.rs:91-191 | For one statement that is so exactly if none of its fields holds a bar. |
| CatalogLines.HarmlessBar | platform-api-rs/src/catalog_db.rs:91-191 | For the payload as a whole a bar can be harmless: its lines have other readings, but none that keeps the keys. |
| Catalog.OpsTypesFirst | platform-api-rs/src/catalog_db.rs:310-390 | Every algorithm is written after its type. |
| CatalogRows.StatementsExact | platform-api-rs/src/catalog_db.rs:290-400 | The statements of a payload, written out and in order: fixed type names, ids from the service, the mark of the kind and the code in lower case with dashes, the label or else the code as title, the types of contributions overwriting. |
| CatalogRows.AlgorithmsExact | platform-api-rs/src/catalog_db.rs:211-243 | After a run without error the row of every code put has name and module of the last statement, and id and type as they were or else of the first; other rows are as before. |
| CatalogRows.TypesExact | platform-api-rs/src/catalog_db.rs:310-370 | Types keep their service; the name is that of the last overwriting statement, or as it was, or of the first statement. |
| CatalogRows.InstanceExact | platform-api-rs/src/catalog_db.rs:246-277 | One statement leaves the instances alone exactly if another one of the service has the title; else the instance stands under its id with the title, for the algorithm that is stored under the code. |
| Catalog.AlgorithmWritten | platform-api-rs/src/catalog_db.rs:211-277 | With a new code and new derived ids the upsert succeeds, writes the asked rows and disturbs no earlier one. |
| Catalog.AllWritten | platform-api-rs/src/catalog_db.rs:290-400 | From an empty service a consistent payload is written completely, without an error and without other rows. |
| Catalog.SecondCallFindsAll | platform-api-rs/src/catalog_db.rs:290-400 | From an empty service a consistent non-empty payload is new, is written without an error, and afterwards every line of it is found, so that the same call writes nothing. |
| Catalog.RegisterTwice | platform-api-rs/src/catalog_db.rs:290-400 | Two calls in a row: the first reports a change, the second reports none and leaves the tables alone. |
| CatalogRepeats.SecondCallExact | platform-api-rs/src/catalog_db.rs:12-13 | On any tables, after a registration without an error: the second identical call is a no-op if every type is free or the service's own with one name that gets stored, every code has one type, title and module and is stored under that type, and every title names an instance of the service; without bars only then. |
| CatalogRepeats.NeverUnchanged | platform-api-rs/src/catalog_db.rs:221-243 | A code that is stored under another type than the payload gives it keeps every later call from being a no-op. |
| CatalogRepeats.HandlerBecomesGuard | platform-api-rs/src/catalog_db.rs:290-400 | The input: a service that registers a code as a handler and later as a guard reports a change on every call from then on. |
| CatalogRepeats.RepeatCanFail | platform-api-rs/src/catalog_db.rs:246-277 | On tables that keep all keys, a call that succeeds can fail the second time, when two services derive one instance id and the payload moves a name. |
| CatalogErrors.NoErrorExact | platform-api-rs/src/catalog_db.rs:211-400 | On any store a registration raises no error exactly if no new code gets an algorithm id that is stored or given to an earlier new code, and no statement meets an instance of another service that is to get a name which that service, and not the calling one, has elsewhere. |
| CatalogErrors.ClashFails | platform-api-rs/src/catalog_db.rs:211-243 | A clash of that kind is an error whatever else the tables hold. |
| CatalogErrors.RepeatExact | platform-api-rs/src/catalog_db.rs:290-400 | A payload that was registered is registered again without an error exactly if no name is taken in that way then; in particular while no other service has its instance ids. |
| CatalogErrors.ForeignRowsKept | platform-api-rs/src/catalog_db.rs:91-400 | Successful or not, a registration leaves alone the algorithms of other services, the owner of every type and instance, every type it does not overwrite and every instance whose id it does not derive. |
| CatalogErrors.EmptyServiceExact | platform-api-rs/src/catalog_db.rs:211-400 | From an empty service whose derived ids are unused, a payload of different codes is registered without an error exactly if its codes still differ in lower case, with dashes for underscores, behind the mark of their kind, and no name is taken. |
| CatalogErrors.SharedKeysFail | platform-api-rs/src/catalog_db.rs:211-243 | If they do not differ any more the registration fails, whatever else the tables hold. |
| CatalogErrors.CaseSharesId | platform-api-rs/src/catalog_db.rs:211-243 | Two handler codes that differ in case and dash only get one id. |
| CatalogErrors.GuardSharesId | platform-api-rs/src/catalog_db.rs:211-243 | A handler code that looks like the id of a guard gets the id of that guard. |
| CatalogErrors.DashedCodeFails | platform-api-rs/src/catalog_db.rs:211-243 | A second payload fails on the tables that a first one has made, if its code differs from the stored one in case and dash only. |

## Left out

- UTF-8 decoding: texts are byte strings, so white space and case mapping beyond ASCII are not part of this model (except that trimming of grant values knows all Unicode white space).
- PrintThenParse: a header text in which stripping freshly forms a comment opener, and picked records without a semicolon, are excluded by preconditions.
- ChunkIndependence: states safety for cuts that split no opener; several unsafe cuts of one file can cancel out, so the converse holds only in the form of `StepLexer.AlwaysSafeCut`.
- File system, worker threads and promises: reads are slices of the file, workers are events that may come in any order.
- LazyRefinesEager: the structural tables that hold no geometry ids (among them the one filled by the regular expression for compound records, `cad-parser/step-lib.js:193-296`) are arbitrary parameters, the matrix is the symbolic triple of origin and directions, and parsing of coordinates is a function.
- MatrixExact: the same tables are parameters.
- The iteration order of JavaScript sets and objects is left open where the result does not depend on it; for the item tables, where it does, it is the order of object keys.
- `RegistryProtocol`: each server operation is one atomic step; a snapshot that is built while another operation runs is not modelled. Revisions do not wrap.
- Widths of columns are modelled for the keys of grants (`pno-api-rs/migrations/0001_schema.sql:142-147`) and nowhere else.
- HTTP, NATS, tokens, telemetry, SQL syntax and generated ids: only the effect of a statement on its table is kept; fresh ids are parameters.
- SHA-256 is taken to be injective and never to give the sentinel, so hashes are compared by their preimages.
- RegisterAll: for a batch that repeats a code, acyclicity and which of the errors occurs are not stated, only that the batch is applied in a dependency order.
- AllWritten: assumes that ids, codes and names fit the columns of the catalogue (`platform-api-rs/migrations/0001_schema.sql:18-59`); a derived id longer than 100 characters makes the source fail.
- SecondCallFindsAll: the same assumption.
- RegisterTwice: the same assumption.
- NoErrorExact: the same assumption.
- EmptyServiceExact: the same assumption.
- RepeatExact: the same assumption.
- SecondCallExact: the same assumption.
- Columns that no decision reads (descriptions, timestamps, domain names, Java interfaces, handler references) are dropped.
- The in-memory copies of the scope catalogue are taken to equal the tables after a reload (`pno-api-rs/src/scopes.rs:121-186`).
- Glb: the text of the document is an arbitrary function of the document; positions are finite numbers and their count is divisible by 3; tessellation is a foreign call.
- Catalog.SafeCode: lower-cases ASCII letters only.
- Not modelled because they add only easy members: the user interfaces, configuration, basket, roles, settings, outbox, statistics, the CATIA reader, the second registry port in Go, and the assembly tree of `parseBOM`.
