# AsyncAPI discovery, modelled in Dafny

A model of the pure core of the `asyncapi_discovery` tool. The tool finds
event producers in source repositories and writes AsyncAPI documents and a
catalog of them. It has two pipelines, and this model covers the logic of both.
File, network and clock access are not modelled.

- **Root pipeline (AsyncAPI 2.6.0).**
  - `EventDetector` (`event_detector.dfy`, module `EventDetector`) turns
    code-search hits into event records. It names each event after the first
    qualifying quoted literal and de-duplicates records by name and broker,
    keeping the first of each.
  - `CatalogManager` (`root_catalog.dfy`, module `RootCatalog`) groups events
    by broker. It builds one specification per repository (servers, channels,
    component messages, placeholder schemas), derives the saved file name and
    builds the index.
- **Package pipeline.**
  - `RepositoryScanner` (`scanner.dfy`, module `Scanner`) holds the skip rule
    for paths, the extraction of producer calls (`publish("…")`, `send`, `emit`,
    `produce`) from file content, and the scan counters.
  - The 2.6.0 template generator (`generator.dfy`, module `SimpleGenerator`)
    builds a fixed base document plus one channel per distinct event name.
  - The 3.0.0 generator (`asyncapi_generator.dfy`, module `AsyncApiGenerator`)
    covers:
    - servers per broker and the broker-to-protocol table;
    - channel-id sanitisation;
    - channels, operations and component messages and schemas;
    - the `$ref` strings that tie them together.
  - The package catalog manager (`package_catalog.dfy`, module
    `PackageCatalog`) covers the file-name sanitiser, the catalog index
    entries, the discovery report counts and the lines of the text summary.
  - Schema enrichment (`schema_enrichment.dfy`, module `SchemaEnrichment`)
    covers the Java-type to JSON-Schema mapping, the nullability test of an
    extracted field and the assembly of a class schema. `ParseJavaClass`
    follows the code, whose `@Nullable` window is misplaced (see Findings);
    `ParseJavaClassIntended` is the corrected assembly.

Support modules:
- `Wrappers` (`Option`, `Result`);
- `Text` (ASCII character classes, `Split`, `Replace`, decimal rendering);
- `Seqs` (de-duplication, `Distinct`, filtering);
- `Dicts`: Python dicts as insertion-ordered association lists. Assigning an
  existing key keeps its position and replaces its value. `GroupBy` and
  `CountBy` are the `setdefault(...).append` and `get(k, 0) + 1` loops;
- `StrOrder` (Python's string order, and `sorted` over a set);
- `Json` (schema fragments).

A Python `dict.get(k, default)` on an event appears as an `Option` field read
with `GetOr(default)`. An exception the code raises appears as a `Result`
failure.

## Model

| member | source | states |
|---|---|---|
| EventDetector.LiteralsAreQuoted | event_detector.py:176-177 | every literal the scanner returns sits between a quote character and the end of a maximal `[A-Za-z0-9._-]` run, as `re.findall` of the literal pattern finds it |
| EventDetector.FirstLiteralAfterUnquotedPrefix | event_detector.py:176-177 | after a prefix without quotes, the first literal found is the name-character run between the first two quotes |
| EventDetector.FirstQualifying | event_detector.py:181-183 | the chosen literal is the first one longer than two characters that does not start with `_`; there is none exactly when no literal qualifies |
| EventDetector.NameFromLinesIsFirstOfAll | event_detector.py:172-183 | scanning line by line and stopping at the first qualifying literal equals taking the first qualifying literal of all lines' literals concatenated |
| EventDetector.ExtractEventNameSpec | event_detector.py:160-186 | the name is the first qualifying literal in line order then literal order; when none qualifies it is `<broker>_event` |
| EventDetector.ExtractedNameShape | event_detector.py:176-183 | an extracted name consists only of `[A-Za-z0-9._-]`, is at least three characters long and does not start with `_` |
| EventDetector.KafkaSendNamesTopic | event_detector.py:176-183 | `producer.send("user.created", userEvent);` yields `user.created` |
| EventDetector.SingleLineName | event_detector.py:172-183 | a hit with one matched line takes that line's first literal as the name when the literal qualifies |
| EventDetector.QuotedNameOfLine | event_detector.py:172-183 | a single matched line whose first quote opens a double-quoted qualifying name is named by it, whatever follows |
| EventDetector.BasicPublishNamesExchange | event_detector.py:176-183 | `channel.basic_publish(exchange="orders", routing_key="order.placed", …)` yields `orders`, the first literal |
| EventDetector.NoLiteralGivesDefault | event_detector.py:172-186 | any single matched line with no quote character yields `<broker>_event`, whatever the line number and broker |
| EventDetector.AwsClientQueries | event_detector.py:44-49 | the two `boto3.client` queries are the raw patterns' text, with the backslash kept before each `'`, 28 characters each |
| EventDetector.ParseEvent | event_detector.py:125-158 | no record exactly when the hit has no matched lines; otherwise line numbers and source lines align one for one with the matched lines, defaulting to 0 and "" |
| EventDetector.DeduplicateEvents | event_detector.py:188-207 | the result keeps one record per (name, broker) key, loses no key, and is an order-preserving subsequence of the input |
| EventDetector.DedupKeepsFirsts | event_detector.py:201-205 | the first record of every key survives, and every survivor is the first of its key |
| EventDetector.DedupIdempotent | event_detector.py:188-207 | de-duplicating twice equals de-duplicating once |
| EventDetector.DedupPairs | event_detector.py:201-205 | two records with the same name and broker collapse to the first; the same name under two brokers gives two records |
| EventDetector.ParsedEvents | event_detector.py:114-117 | every record collected comes from a hit of the search, under the searched broker, and every hit with matched lines contributes its record |
| EventDetector.DetectEvents | event_detector.py:92-123 | the result is the de-duplication of all records of all pattern searches: unique keys, the same key set, brokers from the pattern table |
| EventDetector.DetectWith | event_detector.py:103-123 | over any pattern table: the result is the de-duplication of every record its searches collect, keys unique, no key lost, every broker taken from the table |
| EventDetector.LibraryBrokers | event_detector.py:30-69 | the pattern table covers exactly kafka, rabbitmq, aws, pubsub, azure and generic |
| EventDetector.NothingFoundNoEvents | event_detector.py:108-117 | a search that finds nothing yields no records |
| RootCatalog.RepoNameIsLastSegment | catalog_manager.py:68 | the short repository name is the text after the last `/`, a suffix of the repository name without `/` |
| RootCatalog.GroupByBrokerPartition | catalog_manager.py:151-169 | one group per distinct broker in first-seen order, each holding exactly that broker's events in input order |
| RootCatalog.SuffixKeysInjective | catalog_manager.py:94-130 | the `_server`, `_message` and `_payload` key suffixes never map two names to one key |
| RootCatalog.SpecInfo | catalog_manager.py:67-80 | the document is AsyncAPI 2.6.0, version 1.0.0, titled after the last `/` segment of the repository plus ` Event API` |
| RootCatalog.SpecServers | catalog_manager.py:89-99 | the server keys are `<broker>_server` for the distinct brokers in first-seen order, each with url `<broker>://localhost` and protocol the broker |
| RootCatalog.SpecChannelKeys | catalog_manager.py:101-147 | channel keys are the distinct event names; message and schema keys are those names with `_message` and `_payload` appended |
| RootCatalog.LastNamedFacts | catalog_manager.py:102-127 | the event that defines a message is the last one with its name |
| RootCatalog.SpecChannelOf | catalog_manager.py:102-147 | a name's channel, message and schema exist exactly when some event has the name; the message comes from the last such event |
| RootCatalog.SpecReferencesResolve | catalog_manager.py:107-130 | each channel's message reference names an existing message, whose payload reference names an existing schema |
| RootCatalog.EmptySpec | catalog_manager.py:81-87 | no events give no servers, channels, messages or schemas |
| RootCatalog.AddSpecification | catalog_manager.py:43-54 | after adding, the repository maps to its new specification; a new repository is appended and an existing one keeps its place |
| RootCatalog.AddSpecificationOthers | catalog_manager.py:53-54 | adding one repository leaves every other repository's specification unchanged |
| RootCatalog.SpecFileName | catalog_manager.py:191 | the file name is the repository with every `/` and `\` replaced by `_`, then `.json` |
| RootCatalog.SpecFileNameFlat | catalog_manager.py:191 | the file name contains no path separator |
| RootCatalog.SpecFileNameClash | catalog_manager.py:191 | `org/svc` and `org_svc` are saved under the same file name |
| RootCatalog.MakeIndex | catalog_manager.py:224-239 | the index counts the stored specifications and lists one entry per repository, in catalog order |
| RootCatalog.IndexOfAdded | catalog_manager.py:224-239 | an added repository's entry has its short title, version 1.0.0, one channel per distinct event name and its saved file name |
| Scanner.ContainsAnyIff | src/asyncapi_discovery/scanner.py:72-73 | `any(p in path for p in patterns)` holds exactly when some pattern occurs in the path |
| Scanner.SkippedUnderDirectory | src/asyncapi_discovery/scanner.py:57-73 | a path that passes through any of the eight listed directories is skipped |
| Scanner.SkipNeedsSeparator | src/asyncapi_discovery/scanner.py:67-73 | a path without `/` is never skipped, since every pattern contains one |
| Scanner.CallMatchAt | src/asyncapi_discovery/scanner.py:91-101 | a match found at a position has the call shape: verb, optional spaces, `(`, optional spaces, a quote, a non-empty quote-free name, a quote |
| Scanner.CallMatchComplete | src/asyncapi_discovery/scanner.py:91-101 | every occurrence of the call shape at a position is found there, with its name |
| Scanner.CallsFromSound | src/asyncapi_discovery/scanner.py:98-101 | every reported name comes from an occurrence of the call shape |
| Scanner.CallsFrom | src/asyncapi_discovery/scanner.py:91-101 | every reported name is non-empty and contains no quote |
| Scanner.ScanFileShape | src/asyncapi_discovery/scanner.py:75-112 | every event of a file has type `producer`, the file's path and a non-empty quote-free name |
| Scanner.ScanFile | src/asyncapi_discovery/scanner.py:87-112 | an unreadable file yields no events |
| Scanner.PublishCallReported | src/asyncapi_discovery/scanner.py:91-106 | a file holding `publish("user.created")` reports event `user.created` first |
| Scanner.CollectSnoc | src/asyncapi_discovery/scanner.py:45-53 | scanning one more file appends its events, and appends its path exactly when it has events |
| Scanner.ScanBatch | src/asyncapi_discovery/scanner.py:45-53 | the file loop accumulates all events and the contributing files, and the producer counter equals the number of events |
| Scanner.Scan | src/asyncapi_discovery/scanner.py:25-55 | the result lists all events of all listed files, the files with events, every listed file counted (skipped ones too) and the number of events |
| Scanner.ProducerFilesNotSkipped | src/asyncapi_discovery/scanner.py:45-52 | a contributing file is never a skipped one, and there are no more of them than files |
| Scanner.EmptyRepository | src/asyncapi_discovery/scanner.py:41-55 | an empty repository gives no events and no files scanned |
| SimpleGenerator.Generate | src/asyncapi_discovery/generator.py:18-39 | the document is AsyncAPI 2.6.0 with the base info and servers |
| SimpleGenerator.ChannelsAreFirstWins | src/asyncapi_discovery/generator.py:31-35 | the channel loop equals de-duplicating the events by channel name, first wins, and building a channel from each survivor |
| SimpleGenerator.ChannelKeys | src/asyncapi_discovery/generator.py:31-37 | channel keys are the distinct event names (missing gives `unknown`) in first-seen order, never more than the events |
| SimpleGenerator.DedupBySubSeqOrder | src/asyncapi_discovery/generator.py:31-35 | the names surviving de-duplication are the distinct names, in order |
| SimpleGenerator.ChannelFromFirstEvent | src/asyncapi_discovery/generator.py:31-35 | the channel of a name is built from the first event carrying it |
| SimpleGenerator.GenerateEmpty | src/asyncapi_discovery/generator.py:28-37 | no events give the base document with an empty channel map |
| SimpleGenerator.GenerateTwoNames | src/asyncapi_discovery/generator.py:31-35 | two events with different names give two channels in input order |
| SimpleGenerator.UnnamedEventChannel | src/asyncapi_discovery/generator.py:64-102 | an event without a name gets channel `unknown` whose message is titled `Unknown Event` |
| AsyncApiGenerator.GenerateInfo | src/asyncapi_discovery/asynapi_generator.py:49-71 | the title is `<service> Event API`, the event count is the number of events, and the repositories are exactly those of the events |
| AsyncApiGenerator.ProtocolTable | src/asyncapi_discovery/asynapi_generator.py:133-143 | kafka, rabbitmq, aws-sns, aws-sqs, aws-eventbridge and ibm-mq map to kafka, amqp, sns, sqs, eventbridge and ibmmq |
| AsyncApiGenerator.UnknownProtocol | src/asyncapi_discovery/asynapi_generator.py:133-143 | the protocol is `unknown` exactly for brokers outside the table |
| AsyncApiGenerator.ServerConfig | src/asyncapi_discovery/asynapi_generator.py:92-131 | a server has the broker's protocol and upper-cased description; it has bindings exactly for kafka, rabbitmq and `aws-` brokers |
| AsyncApiGenerator.ServersOf | src/asyncapi_discovery/asynapi_generator.py:73-90 | one server per distinct broker (missing gives `unknown`) in first-seen order, each the broker's configuration |
| AsyncApiGenerator.Sanitize | src/asyncapi_discovery/asynapi_generator.py:165-169 | the id has the name's length, with `/`, `.` and `:` replaced by `_` and every other character kept |
| AsyncApiGenerator.SanitizeIdempotent | src/asyncapi_discovery/asynapi_generator.py:165-169 | an id contains none of the three characters, so sanitising it again changes nothing |
| AsyncApiGenerator.SanitizeCollides | src/asyncapi_discovery/asynapi_generator.py:165-169 | `a.b` and `a/b` share the id `a_b` |
| AsyncApiGenerator.AmqpBinding | src/asyncapi_discovery/asynapi_generator.py:203-216 | with a `/` in the name the exchange and queue are its first two parts; otherwise the exchange is `default` and the queue the whole name |
| AsyncApiGenerator.AmqpBindingParts | src/asyncapi_discovery/asynapi_generator.py:205-209 | parts after the second are ignored |
| AsyncApiGenerator.ChannelMessages | src/asyncapi_discovery/asynapi_generator.py:181-192 | a channel for n events has the messages `<id>_message_0` to `<id>_message_{n-1}`, each referring to the component of the same id, all distinct |
| AsyncApiGenerator.ChannelIds | src/asyncapi_discovery/asynapi_generator.py:145-163 | the channel ids are the distinct sanitised ids of the distinct names; without collisions, one per distinct name |
| AsyncApiGenerator.ChannelOf | src/asyncapi_discovery/asynapi_generator.py:145-163 | without collisions, a name's channel is built from all events of that name, in order |
| AsyncApiGenerator.CollidingNamesOverwriteChannel | src/asyncapi_discovery/asynapi_generator.py:158-161 | for `a.b` then `a/b`, the single channel `a_b` is the one built from the `a/b` event |
| AsyncApiGenerator.OperationKeyUniform | src/asyncapi_discovery/asynapi_generator.py:224-237 | when all events share an action, each operation key is that action, `_` and the group's id |
| AsyncApiGenerator.OperationCount | src/asyncapi_discovery/asynapi_generator.py:220-254 | when all events share an action, there is one operation per distinct sanitised id |
| AsyncApiGenerator.OperationOf | src/asyncapi_discovery/asynapi_generator.py:220-254 | when all events share an action, the operation of an id refers to its channel and lists one message reference per event of the id |
| AsyncApiGenerator.CollidingNamesMergeOperation | src/asyncapi_discovery/asynapi_generator.py:226-237 | for `a.b` then `a/b`, the single operation of `a_b` merges both events |
| AsyncApiGenerator.SchemaShape | src/asyncapi_discovery/asynapi_generator.py:297-329 | the payload schema is an object titled by the message type that requires exactly eventId, timestamp and eventType, with eventType pinned to the message type |
| AsyncApiGenerator.EventIndexFails | src/asyncapi_discovery/asynapi_generator.py:268 | `list.index` fails for a listed event exactly when the event has no channel name |
| AsyncApiGenerator.ComponentsFail | src/asyncapi_discovery/asynapi_generator.py:256-295 | the components loop succeeds exactly when every event has a channel name |
| AsyncApiGenerator.MessageOfEvent | src/asyncapi_discovery/asynapi_generator.py:264-285 | every event has its component message, under the id given by its position among events of its channel name |
| AsyncApiGenerator.PayloadResolves | src/asyncapi_discovery/asynapi_generator.py:278-290 | every component message refers to `<id>_payload`, and that schema exists |
| AsyncApiGenerator.GenerateSpec | src/asyncapi_discovery/asynapi_generator.py:19-47 | generation succeeds exactly when every event has a channel name, and then gives AsyncAPI 3.0.0 with the event count |
| AsyncApiGenerator.ChannelRefResolves | src/asyncapi_discovery/asynapi_generator.py:188-290 | for named, pairwise different events, every message reference of every channel, colliding names included, names a component message that exists |
| AsyncApiGenerator.ChannelSource | src/asyncapi_discovery/asynapi_generator.py:150-161 | every channel entry is the channel of some event name with that id, built from all events of that name, collisions or not |
| AsyncApiGenerator.OperationRefResolves | src/asyncapi_discovery/asynapi_generator.py:224-252 | without collisions, every operation message reference points at a message of the referenced channel |
| AsyncApiGenerator.DuplicateEventsShareId | src/asyncapi_discovery/asynapi_generator.py:268 | two equal events get the same index, so they share one component message |
| AsyncApiGenerator.DuplicateEventsTwoRefs | src/asyncapi_discovery/asynapi_generator.py:188-268 | the channel still lists two messages, one of which refers to a component that does not exist |
| PackageCatalog.SanitizeFilenamePerChar | src/asyncapi_discovery/catalog_manager.py:212-217 | the three passes equal a character-by-character rule: separators give `_`, kept characters are lower-cased, the rest are dropped |
| PackageCatalog.PerCharAppend | src/asyncapi_discovery/catalog_manager.py:215-217 | the character rule distributes over concatenation |
| PackageCatalog.SanitizeFilenameChars | src/asyncapi_discovery/catalog_manager.py:215-217 | the result contains only lower-case letters, digits, `_` and `-` |
| PackageCatalog.PerCharFixed | src/asyncapi_discovery/catalog_manager.py:215-217 | a name made only of those characters is left unchanged |
| PackageCatalog.SanitizeFilenameIdempotent | src/asyncapi_discovery/catalog_manager.py:212-217 | sanitising twice equals sanitising once |
| PackageCatalog.SanitizeRepositoryPath | src/asyncapi_discovery/catalog_manager.py:215-217 | `a.b/c/d` with plain parts becomes `ab_c_d`: the dot is dropped and the slashes become `_` |
| PackageCatalog.SanitizeFilenameClash | src/asyncapi_discovery/catalog_manager.py:212-217 | `Payment Service` and `payment_service` get the same file name |
| PackageCatalog.CaseAndSeparatorClash | src/asyncapi_discovery/catalog_manager.py:212-217 | two-word names that differ only in the case of each first letter and in a space against an underscore share a file name |
| PackageCatalog.MakeIndex | src/asyncapi_discovery/catalog_manager.py:73-102 | the index counts the services and holds one entry per service, in input order |
| PackageCatalog.IndexFilesAreSaved | src/asyncapi_discovery/catalog_manager.py:57-101 | the entry's `specFiles` are `specs/` plus the very names `_save_spec` writes, which are safe file names |
| PackageCatalog.EntryOfDoc | src/asyncapi_discovery/catalog_manager.py:86-97 | an entry carries its specification's title and version, counts its channels and operations and lists its server keys |
| PackageCatalog.EntryOfGenerated | src/asyncapi_discovery/catalog_manager.py:86-97 | for a generated 3.0 specification, the entry's brokers are the distinct brokers of its events in first-seen order |
| PackageCatalog.NonEmptyReposMembers | src/asyncapi_discovery/catalog_manager.py:135-140 | a repository is collected exactly when it is non-empty and some event has it |
| PackageCatalog.ReportCounts | src/asyncapi_discovery/catalog_manager.py:132-150 | each broker and framework count is the number of events with that tag (missing gives `unknown`), and each family sums to the event total |
| PackageCatalog.ReportRepositories | src/asyncapi_discovery/catalog_manager.py:139-151 | the repository list is strictly sorted, has no empty name, holds exactly the events' non-empty repositories, and its length is the repository total |
| PackageCatalog.SummaryLayout | src/asyncapi_discovery/catalog_manager.py:168-205 | the summary has 24 fixed lines; the broker lines start at line 12 and the framework lines follow two lines after them |
| PackageCatalog.CountLinesOf | src/asyncapi_discovery/catalog_manager.py:183-192 | the count lines run over the tags in ascending order, exactly the tags present, each with its number of events |
| PackageCatalog.SummaryCounts | src/asyncapi_discovery/catalog_manager.py:166-205 | in the summary of a report, the broker and framework lines list every tag once in ascending order, each with its event count |
| SchemaEnrichment.TrimStart | src/asyncapi_discovery/schema_enrichment.py:148 | leading whitespace is removed and nothing else |
| SchemaEnrichment.TrimEnd | src/asyncapi_discovery/schema_enrichment.py:148 | trailing whitespace is removed and nothing else |
| SchemaEnrichment.StripFacts | src/asyncapi_discovery/schema_enrichment.py:148 | `strip` yields a slice with only whitespace cut from both sides, not starting or ending with whitespace, and fixes text that does not |
| SchemaEnrichment.TypeMapShape | src/asyncapi_discovery/schema_enrichment.py:122-139 | the table names sixteen distinct non-generic types |
| SchemaEnrichment.AngleContent | src/asyncapi_discovery/schema_enrichment.py:145 | `<(.+)>` matches exactly when some `<` precedes some `>` with at least one character and no line break between them; the capture is that of the leftmost start and, for it, the rightmost end |
| SchemaEnrichment.AngleContentWrapped | src/asyncapi_discovery/schema_enrichment.py:145 | for `Base<inner>` with no `<` in the base and no line break in `inner`, the capture is `inner` |
| SchemaEnrichment.AngleContentMultiLine | src/asyncapi_discovery/schema_enrichment.py:145 | `Base<inner>` with a line break in `inner` and no other bracket is not matched |
| SchemaEnrichment.BaseTypeOf | src/asyncapi_discovery/schema_enrichment.py:143 | the base type is the text before the first `<` |
| SchemaEnrichment.MappedType | src/asyncapi_discovery/schema_enrichment.py:122-157 | every table type maps to its table entry |
| SchemaEnrichment.TypeMapSamples | src/asyncapi_discovery/schema_enrichment.py:126-138 | Long gives integer/int64, BigDecimal gives string/decimal and UUID gives string/uuid |
| SchemaEnrichment.UnmappedType | src/asyncapi_discovery/schema_enrichment.py:157 | an unmapped non-generic type T gives an object described as `Complex type: T` |
| SchemaEnrichment.CollectionType | src/asyncapi_discovery/schema_enrichment.py:142-149 | `List`, `Set` or `Collection<inner>`, `inner` on one line, gives an array whose items are the table entry of the stripped inner type, else a plain object |
| SchemaEnrichment.MultiLineCollectionFails | src/asyncapi_discovery/schema_enrichment.py:103-145 | a collection type whose argument runs over a line break, which the field pattern lets through, raises at `.group` |
| SchemaEnrichment.MultiLineListRaises | src/asyncapi_discovery/schema_enrichment.py:103-145 | the type `List<\n    String>` raises |
| SchemaEnrichment.MapType | src/asyncapi_discovery/schema_enrichment.py:150-154 | `Map<…>` gives an object with `additionalProperties` true |
| SchemaEnrichment.OtherGenericType | src/asyncapi_discovery/schema_enrichment.py:142-157 | any other generic type falls back to the complex-type default |
| SchemaEnrichment.EmptyCollectionFails | src/asyncapi_discovery/schema_enrichment.py:145 | `List<>` raises, since the pattern does not match and `.group` is called on `None` |
| SchemaEnrichment.ExtractFieldsAsWritten | src/asyncapi_discovery/schema_enrichment.py:105-113 | one field per match, in order, with the nullability window cut from the whole file |
| SchemaEnrichment.ExtractFields | src/asyncapi_discovery/schema_enrichment.py:105-113 | one field per match, in order, with the nullability window cut from the class body |
| SchemaEnrichment.NullableWindow | src/asyncapi_discovery/schema_enrichment.py:112 | a field is nullable exactly when its type contains `Optional` or `@Nullable` lies within the 50 characters before the match in the body |
| SchemaEnrichment.NullableWindowAsWritten | src/asyncapi_discovery/schema_enrichment.py:112 | as written, a field is nullable exactly when its type contains `Optional` or `@Nullable` lies within the 50 characters before the match position counted from the start of the file, independent of where the class body starts |
| SchemaEnrichment.NullableWindowMisplaced | src/asyncapi_discovery/schema_enrichment.py:112 | for `class A { @Nullable String name;` the window as written misses the annotation that the body window finds |
| SchemaEnrichment.MisplacedWindowFields | src/asyncapi_discovery/schema_enrichment.py:105-113 | on that class the extracted field is non-nullable as written and nullable when corrected |
| SchemaEnrichment.FieldSchemas | src/asyncapi_discovery/schema_enrichment.py:87-88 | converting the fields succeeds exactly when every type converts, giving one property per field in order |
| SchemaEnrichment.RequiredMembers | src/asyncapi_discovery/schema_enrichment.py:89-90 | a name is required exactly when some field with that name is not nullable |
| SchemaEnrichment.ParseJavaClass | src/asyncapi_discovery/schema_enrichment.py:61-92 | as the code has it, on the fields extracted with the whole-file window: no class header gives no schema; with one, parsing succeeds exactly when every field type converts, and the schema is titled by the class |
| SchemaEnrichment.ParseJavaClassIntended | src/asyncapi_discovery/schema_enrichment.py:61-113 | the same assembly on the fields extracted with the body window, with the same header, success and title statements |
| SchemaEnrichment.SchemaAfterHeader | src/asyncapi_discovery/schema_enrichment.py:72-92 | no header gives `None`; otherwise success exactly when every field type converts, with the class title and `required` listing the non-nullable field names |
| SchemaEnrichment.SchemaOfFields | src/asyncapi_discovery/schema_enrichment.py:79-92 | the property keys are the distinct field names; `required` holds exactly the names of non-nullable fields and is a subset of the keys |
| SchemaEnrichment.PropertyOfField | src/asyncapi_discovery/schema_enrichment.py:87-88 | the property of a field that no later field shadows is its type's schema |
| SchemaEnrichment.ParsedRequired | src/asyncapi_discovery/schema_enrichment.py:76-112 | a parsed class requires exactly the names of the fields with no `Optional` in the type and no `@Nullable` in the window the code as written cuts from the whole file |
| SchemaEnrichment.ParsedRequiredIntended | src/asyncapi_discovery/schema_enrichment.py:76-112 | with the body window, a parsed class requires exactly the names of the fields not nullable by the 50 body characters before them |
| SchemaEnrichment.ParsedMisplacedWindow | src/asyncapi_discovery/schema_enrichment.py:76-112 | on `class A { @Nullable String name;` the program requires `[name]` and the intended window requires nothing |

## Left out

- File and network I/O: reading files, `rglob`, `mkdir`, the writes of `_save_spec`, `_save_catalog_index`, the report and the summary, and the search client. The model produces the values that would be written. The search call is a function parameter of `DetectEvents`, and the file listing a parameter of `Scan`. `read_text` failures appear as a file without content.
- Serialisation with `yaml.dump` and `json.dump`: documents are records and JSON fragments, not text.
- `datetime.utcnow()`: timestamps are opaque parameters.
- The regular-expression tables of event_detector.py:30-90 are only sent to the search service as query text. The model keeps the pattern table as data, not as matchers.
- The class-header and field regexes of schema_enrichment.py (`_parse_java_class`, `_extract_fields`): the header position and the field matches are inputs.
- `enrich_schema` and `demo_schema_enrichment`: asynchronous search and fetch calls.
- main.py, the command line interface, the demos and packaging: orchestration only.
- `str.isalnum`, `str.upper` and `str.lower` beyond ASCII: characters outside ASCII are neither letters nor digits here.
- The order of `list(set(...))` for the repositories in `_generate_info`: Python leaves it unspecified, so the model keeps a set.
- The root catalog's `'generic'` broker default is unreachable, since detected records always carry a broker, so it is not modelled.
- `list_specifications` and `get_specification` of the package catalog: they read files back.
- Python `None` values stored under a key are read as an absent key.
- `DeduplicateEvents` and `DetectEvents` key records by name and broker only, as the source does; other fields of a dropped record are lost.
- `OperationKeyUniform`, `OperationCount`, `OperationOf`: stated for events that all share one action. With mixed actions, the first event of each group picks the key; `CollidingNamesMergeOperation` shows the merged case.
- `ChannelRefResolves`: stated for pairwise different events. `DuplicateEventsTwoRefs` shows what equal events do.
- `PackageCatalog.SanitizeRepositoryPath`: proved for a four-part path of already safe parts instead of the single literal `github.com/yourorg/payment-service`, which the solver cannot unfold cheaply. That literal is an instance with parts `github`, `com`, `yourorg` and `payment-service`.
- `EventDetector.BasicPublishNamesExchange`: for `basic_publish(exchange="orders", routing_key="order.placed")` the code yields `orders`, the first qualifying literal, and the model follows the code.

## Findings

| source | as written | input that shows it | evidently intended | confidence | as-written member | corrected member |
|---|---|---|---|---|---|---|
| src/asyncapi_discovery/schema_enrichment.py:112 | the `@Nullable` window is cut from the whole file using `match.start()`, which counts from the start of the class body | content `class A { @Nullable String name;` with the body starting at 9 and the field match at 10: the window `content[0:10]` is `class A { ` and misses the annotation | cut the window from the class body (`content[start_pos:]`), the text the match positions refer to, so the field is nullable | not executed | SchemaEnrichment.NullableWindowMisplaced | SchemaEnrichment.NullableWindow |
