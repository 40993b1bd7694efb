/** The catalog manager of the AsyncAPI 2.6.0 pipeline: one specification
    per repository, built from the repository's detected events, and an
    index over all specifications held. */
module RootCatalog {
  import opened Wrappers
  import opened Text
  import opened Seqs
  import opened Dicts
  import opened Json
  import opened EventDetector

  const AsyncApiVersion: string := "2.6.0"
  const ToolName: string := "AsyncAPI Discovery Tool"
  const ToolUrl: string := "https://github.com/ai-digital-architect/asyncapi_discovery"
  const MessageRefPrefix: string := "#/components/messages/"
  const SchemaRefPrefix: string := "#/components/schemas/"

  datatype Info = Info(title: string, version: string, description: string, contactName: string, contactUrl: string)

  datatype Server = Server(url: string, protocol: string, description: string)

  /** A channel with its single subscribe operation. */
  datatype Channel = Channel(description: string, operationId: string, summary: string, messageRef: string)

  datatype Message = Message(name: string, title: string, summary: string, contentType: string, payloadRef: string)

  datatype Spec = Spec(
    asyncapi: string,
    info: Info,
    servers: Dict<string, Server>,
    channels: Dict<string, Channel>,
    messages: Dict<string, Message>,
    schemas: Dict<string, Json>)

  // ---------------------------------------------------------------- naming

  /** The repository name without its owner: `repo.split('/')[-1]` when
      `repo` has a `/`, else `repo`. */
  function RepoName(repo: string): string
  {
    if '/' in repo then LastSegment(repo, '/') else repo
  }

  /** The short name is the part after the last `/`, whether or not there is
      one. */
  lemma RepoNameIsLastSegment(repo: string)
    ensures RepoName(repo) == LastSegment(repo, '/')
    ensures '/' !in RepoName(repo)
    ensures |RepoName(repo)| <= |repo| && repo[|repo| - |RepoName(repo)|..] == RepoName(repo)
  {
    LastSegmentIsSuffix(repo, '/');
  }

  function MakeInfo(repo: string): Info
  {
    Info(RepoName(repo) + " Event API", "1.0.0",
         "AsyncAPI specification for event producers in " + repo, ToolName, ToolUrl)
  }

  function NameOf(e: EventRecord): string { e.name }
  function BrokerOf(e: EventRecord): string { e.broker }

  function ServerKey(broker: string): string { broker + "_server" }
  function MessageKey(name: string): string { name + "_message" }
  function SchemaKey(name: string): string { name + "_payload" }

  /** The three key renamings tell any names apart. */
  lemma SuffixKeysInjectiveOn(xs: seq<string>)
    ensures InjectiveOn(xs, ServerKey) && InjectiveOn(xs, MessageKey) && InjectiveOn(xs, SchemaKey)
  {
    SuffixKeysInjective();
  }

  lemma SuffixKeysInjective()
    ensures forall a, b :: ServerKey(a) == ServerKey(b) ==> a == b
    ensures forall a, b :: MessageKey(a) == MessageKey(b) ==> a == b
    ensures forall a, b :: SchemaKey(a) == SchemaKey(b) ==> a == b
  {
    forall a, b | ServerKey(a) == ServerKey(b) ensures a == b { SuffixCancel(a, b, "_server"); }
    forall a, b | MessageKey(a) == MessageKey(b) ensures a == b { SuffixCancel(a, b, "_message"); }
    forall a, b | SchemaKey(a) == SchemaKey(b) ensures a == b { SuffixCancel(a, b, "_payload"); }
  }

  // ---------------------------------------------------------------- parts

  /** `_group_events_by_broker`. */
  function GroupByBroker(events: seq<EventRecord>): Dict<string, seq<EventRecord>>
  {
    GroupBy(events, BrokerOf)
  }

  /** The groups partition the events: one group per distinct broker, in
      first-seen order, holding exactly that broker's events in input
      order. */
  lemma GroupByBrokerPartition(events: seq<EventRecord>, b: string)
    ensures Keys(GroupByBroker(events)) == Distinct(MapSeq(events, BrokerOf))
    ensures UniqueKeys(GroupByBroker(events))
    ensures Get(GroupByBroker(events), b) ==
              if b in MapSeq(events, BrokerOf) then Some(WithKey(events, BrokerOf, b)) else None
  {
    GroupByKeys(events, BrokerOf);
    GroupByGet(events, BrokerOf, b);
  }

  function ServerFor(broker: string): Server
  {
    Server(broker + "://localhost", broker, Upper(broker) + " broker")
  }

  function ServerEntry(broker: string): (string, Server) { (ServerKey(broker), ServerFor(broker)) }

  function ChannelFor(name: string): Channel
  {
    Channel("Event channel for " + name, "subscribe_" + name, "Subscribe to " + name + " events",
            MessageRefPrefix + MessageKey(name))
  }

  function MessageFor(e: EventRecord): Message
  {
    Message(e.name, e.name + " Event", "Event produced from " + e.file, "application/json",
            SchemaRefPrefix + SchemaKey(e.name))
  }

  /** The placeholder payload schema every event gets. */
  const PayloadSchema: Json := JObj([
    ("type", JStr("object")),
    ("properties", JObj([
      ("eventId", JObj([("type", JStr("string")), ("description", JStr("Unique event identifier"))])),
      ("timestamp", JObj([("type", JStr("string")), ("format", JStr("date-time")), ("description", JStr("Event timestamp"))])),
      ("data", JObj([("type", JStr("object")), ("description", JStr("Event payload data"))]))
    ]))
  ])

  function ChannelEntry(e: EventRecord): (string, Channel) { (e.name, ChannelFor(e.name)) }
  function MessageEntry(e: EventRecord): (string, Message) { (MessageKey(e.name), MessageFor(e)) }
  function SchemaEntry(e: EventRecord): (string, Json) { (SchemaKey(e.name), PayloadSchema) }

  function ConstPayload(k: string): Json { PayloadSchema }

  /** `_create_specification`: one server per broker seen, in order of first
      appearance; then, event by event, a channel, a message and a payload
      schema keyed by the event name (a later event with the same name
      reassigns them). */
  function CreateSpecification(repo: string, events: seq<EventRecord>): Spec
  {
    Spec(
      AsyncApiVersion,
      MakeInfo(repo),
      PutAll(MapSeq(Keys(GroupByBroker(events)), ServerEntry)),
      PutAll(MapSeq(events, ChannelEntry)),
      PutAll(MapSeq(events, MessageEntry)),
      PutAll(MapSeq(events, SchemaEntry)))
  }

  /** The last event carrying name `k`. */
  function LastNamed(events: seq<EventRecord>, k: string): Option<EventRecord>
    decreases |events|
  {
    if |events| == 0 then None
    else if events[|events| - 1].name == k then Some(events[|events| - 1])
    else LastNamed(events[..|events| - 1], k)
  }

  /** `LastNamed` finds an event exactly when one has the name, and no later
      event has it. */
  lemma {:induction false} LastNamedFacts(events: seq<EventRecord>, k: string)
    ensures LastNamed(events, k).Some? <==> k in MapSeq(events, NameOf)
    ensures LastNamed(events, k).Some? ==>
      exists i :: 0 <= i < |events| && events[i] == LastNamed(events, k).value && events[i].name == k &&
                  (forall j :: i < j < |events| ==> events[j].name != k)
    decreases |events|
  {
    if |events| > 0 {
      var es' := events[..|events| - 1];
      LastNamedFacts(es', k);
      MapSnoc(es', events[|events| - 1], NameOf);
      assert events == es' + [events[|events| - 1]];
    }
  }

  // ---------------------------------------------------------------- properties

  /** The title is the short repository name followed by " Event API". */
  lemma SpecInfo(repo: string, events: seq<EventRecord>)
    ensures CreateSpecification(repo, events).asyncapi == "2.6.0"
    ensures CreateSpecification(repo, events).info.title == LastSegment(repo, '/') + " Event API"
    ensures CreateSpecification(repo, events).info.version == "1.0.0"
  {
    RepoNameIsLastSegment(repo);
  }

  lemma {:induction false} ServersLastValue(bs: seq<string>, b: string)
    requires b in bs
    ensures LastValue(MapSeq(bs, ServerEntry), ServerKey(b)) == Some(ServerFor(b))
    decreases |bs|
  {
    var es := MapSeq(bs, ServerEntry);
    var n := |bs|;
    if bs[n - 1] != b {
      SuffixKeysInjective();
      MapPrefix(bs, n - 1, ServerEntry);
      assert bs == bs[..n - 1] + [bs[n - 1]];
      ServersLastValue(bs[..n - 1], b);
    }
  }

  /** One server per distinct broker, in order of first appearance, named
      `<broker>_server` and pointing at `<broker>://localhost`. */
  lemma SpecServers(repo: string, events: seq<EventRecord>, b: string)
    ensures Keys(CreateSpecification(repo, events).servers) == MapSeq(Distinct(MapSeq(events, BrokerOf)), ServerKey)
    ensures Get(CreateSpecification(repo, events).servers, ServerKey(b)) ==
              if b in MapSeq(events, BrokerOf) then Some(ServerFor(b)) else None
  {
    var bs := Keys(GroupByBroker(events));
    GroupByKeys(events, BrokerOf);
    var es := MapSeq(bs, ServerEntry);
    assert Keys(es) == MapSeq(bs, ServerKey);
    PutAllKeys(es);
    SuffixKeysInjective();
    SuffixKeysInjectiveOn(bs);
    DistinctMapInjective(bs, ServerKey);
    DistinctFacts(MapSeq(events, BrokerOf));
    DistinctOfNoDups(bs);
    PutAllGet(es, ServerKey(b));
    if b in MapSeq(events, BrokerOf) {
      ServersLastValue(bs, b);
    } else {
      SuffixKeysInjectiveOn(bs + [b]);
      MapMemberInjective(bs, ServerKey, b);
      LastValueFrom(es, ServerKey(b));
    }
  }

  /** One channel per distinct event name, in order of first appearance,
      and a message and a payload schema for each channel, in the same
      order. */
  lemma SpecChannelKeys(repo: string, events: seq<EventRecord>)
    ensures Keys(CreateSpecification(repo, events).channels) == Distinct(MapSeq(events, NameOf))
    ensures Keys(CreateSpecification(repo, events).messages) == MapSeq(Distinct(MapSeq(events, NameOf)), MessageKey)
    ensures Keys(CreateSpecification(repo, events).schemas) == MapSeq(Distinct(MapSeq(events, NameOf)), SchemaKey)
  {
    var names := MapSeq(events, NameOf);
    assert Keys(MapSeq(events, ChannelEntry)) == names;
    assert Keys(MapSeq(events, MessageEntry)) == MapSeq(names, MessageKey);
    assert Keys(MapSeq(events, SchemaEntry)) == MapSeq(names, SchemaKey);
    PutAllKeys(MapSeq(events, ChannelEntry));
    PutAllKeys(MapSeq(events, MessageEntry));
    PutAllKeys(MapSeq(events, SchemaEntry));
    SuffixKeysInjective();
    SuffixKeysInjectiveOn(names);
    DistinctMapInjective(names, MessageKey);
    DistinctMapInjective(names, SchemaKey);
  }

  lemma {:induction false} MessagesLastValue(events: seq<EventRecord>, k: string)
    ensures LastValue(MapSeq(events, MessageEntry), MessageKey(k)) ==
              if LastNamed(events, k).Some? then Some(MessageFor(LastNamed(events, k).value)) else None
    decreases |events|
  {
    var n := |events|;
    if n > 0 {
      SuffixKeysInjective();
      MapPrefix(events, n - 1, MessageEntry);
      assert events[..n] == events;
      MessagesLastValue(events[..n - 1], k);
    }
  }

  /** For a name the events use: the channel is the fixed channel for it,
      its message is built from the LAST event of that name, and its payload
      schema is the placeholder; for any other name there is none of the
      three. */
  lemma SpecChannelOf(repo: string, events: seq<EventRecord>, k: string)
    ensures k in MapSeq(events, NameOf) <==> LastNamed(events, k).Some?
    ensures var spec := CreateSpecification(repo, events);
      Get(spec.channels, k) == (if k in MapSeq(events, NameOf) then Some(ChannelFor(k)) else None)
    ensures var spec := CreateSpecification(repo, events);
      Get(spec.messages, MessageKey(k)) ==
        (if k in MapSeq(events, NameOf) then Some(MessageFor(LastNamed(events, k).value)) else None)
    ensures var spec := CreateSpecification(repo, events);
      Get(spec.schemas, SchemaKey(k)) == (if k in MapSeq(events, NameOf) then Some(PayloadSchema) else None)
  {
    var names := MapSeq(events, NameOf);
    assert Keys(MapSeq(events, ChannelEntry)) == names;
    assert Keys(MapSeq(events, SchemaEntry)) == MapSeq(names, SchemaKey);
    PutAllGet(MapSeq(events, ChannelEntry), k);
    LastValueKeyed(MapSeq(events, ChannelEntry), ChannelFor, k);
    PutAllGet(MapSeq(events, MessageEntry), MessageKey(k));
    MessagesLastValue(events, k);
    LastNamedFacts(events, k);
    PutAllGet(MapSeq(events, SchemaEntry), SchemaKey(k));
    LastValueKeyed(MapSeq(events, SchemaEntry), ConstPayload, SchemaKey(k));
    SuffixKeysInjective();
    SuffixKeysInjectiveOn(names + [k]);
    MapMemberInjective(names, SchemaKey, k);
  }

  /** Every reference in the specification resolves: each channel points at
      the message of its name, which points at a payload schema that exists. */
  lemma SpecReferencesResolve(repo: string, events: seq<EventRecord>, i: nat)
    requires i < |CreateSpecification(repo, events).channels|
    ensures var spec := CreateSpecification(repo, events);
      var (k, ch) := spec.channels[i];
      && ch.messageRef == MessageRefPrefix + MessageKey(k)
      && Get(spec.messages, MessageKey(k)).Some?
      && Get(spec.messages, MessageKey(k)).value.payloadRef == SchemaRefPrefix + SchemaKey(k)
      && Get(spec.schemas, SchemaKey(k)).Some?
  {
    var spec := CreateSpecification(repo, events);
    var k := spec.channels[i].0;
    PutAllKeys(MapSeq(events, ChannelEntry));
    GetEntry(spec.channels, i);
    SpecChannelOf(repo, events, k);
    var names := MapSeq(events, NameOf);
    assert Keys(MapSeq(events, ChannelEntry)) == names;
    DistinctFacts(names);
    assert k in Keys(spec.channels);
    LastNamedFacts(events, k);
  }

  /** No events, no servers, channels, messages or schemas. */
  lemma EmptySpec(repo: string)
    ensures var spec := CreateSpecification(repo, []);
      spec.servers == [] && spec.channels == [] && spec.messages == [] && spec.schemas == []
  {
  }

  // ---------------------------------------------------------------- the catalog

  /** Specifications by repository, in order of first addition. */
  type Catalog = Dict<string, Spec>

  /** `add_specification`: builds the repository's specification and stores
      it under the repository, replacing an earlier one. */
  function AddSpecification(cat: Catalog, repo: string, events: seq<EventRecord>): (r: Catalog)
    ensures Get(r, repo) == Some(CreateSpecification(repo, events))
    ensures Keys(r) == if repo in Keys(cat) then Keys(cat) else Keys(cat) + [repo]
  {
    Put(cat, repo, CreateSpecification(repo, events))
  }

  /** Adding one repository's specification leaves every other one as it was. */
  lemma AddSpecificationOthers(cat: Catalog, repo: string, events: seq<EventRecord>, other: string)
    requires other != repo
    ensures Get(AddSpecification(cat, repo, events), other) == Get(cat, other)
  {
    PutOther(cat, repo, CreateSpecification(repo, events), other);
  }

  /** `repo.replace('/', '_').replace('\\', '_') + '.json'`. */
  function SpecFileName(repo: string): (f: string)
    ensures |f| == |repo| + 5 && f[|repo|..] == ".json"
    ensures forall i :: 0 <= i < |repo| ==> f[i] == if repo[i] == '/' || repo[i] == '\\' then '_' else repo[i]
  {
    Replace(Replace(repo, '/', '_'), '\\', '_') + ".json"
  }

  /** The file name holds no path separator before its extension, so the
      specification lands directly in the output directory. */
  lemma SpecFileNameFlat(repo: string)
    ensures '/' !in SpecFileName(repo) && '\\' !in SpecFileName(repo)
  {
    var f := SpecFileName(repo);
    forall i | 0 <= i < |f| ensures f[i] != '/' && f[i] != '\\' {
      if i >= |repo| {
        assert f[i] == ".json"[i - |repo|];
      }
    }
  }

  /** Two repositories differing only in `/` against `_` share a file name. */
  lemma SpecFileNameClash()
    ensures SpecFileName("org/svc") == SpecFileName("org_svc")
  {
  }

  datatype IndexEntry = IndexEntry(repository: string, title: string, version: string, channels: nat, file: string)

  datatype CatalogIndex = CatalogIndex(generatedAt: string, totalSpecifications: nat, specifications: seq<IndexEntry>)

  function EntryFor(item: (string, Spec)): IndexEntry
  {
    IndexEntry(item.0, item.1.info.title, item.1.info.version, |item.1.channels|, SpecFileName(item.0))
  }

  /** `_save_catalog_index` (the document written); the clock reading is a
      parameter. */
  function MakeIndex(cat: Catalog, generatedAt: string): (idx: CatalogIndex)
    ensures idx.totalSpecifications == |idx.specifications| == |cat|
    ensures forall i :: 0 <= i < |cat| ==> idx.specifications[i].repository == cat[i].0
  {
    CatalogIndex(generatedAt, |cat|, MapSeq(cat, EntryFor))
  }

  /** The index entry of a repository added to the catalog reports its short
      title, version 1.0.0, one channel per distinct event name and its file. */
  lemma IndexOfAdded(cat: Catalog, repo: string, events: seq<EventRecord>, generatedAt: string)
    requires UniqueKeys(cat)
    ensures var idx := MakeIndex(AddSpecification(cat, repo, events), generatedAt);
      exists i :: 0 <= i < |idx.specifications| && idx.specifications[i] ==
        IndexEntry(repo, LastSegment(repo, '/') + " Event API", "1.0.0",
                   |Distinct(MapSeq(events, NameOf))|, SpecFileName(repo))
  {
    var r := AddSpecification(cat, repo, events);
    GetDefined(r, repo);
    var i :| 0 <= i < |r| && Keys(r)[i] == repo;
    PutUnique(cat, repo, CreateSpecification(repo, events));
    GetEntry(r, i);
    SpecInfo(repo, events);
    SpecChannelKeys(repo, events);
    var idx := MakeIndex(r, generatedAt);
    assert idx.specifications[i] == EntryFor(r[i]);
  }
}
