/** The package's AsyncAPI 3.0.0 generator: servers per broker, channels
    and operations per channel name, and one component message and payload
    schema per event, wired together by `$ref` strings. */
module AsyncApiGenerator {
  import opened Wrappers
  import opened Text
  import opened Seqs
  import opened Dicts
  import opened Json

  /** An event as handed over by discovery. Every key is read with
      `dict.get`, so every modelled key may be missing; `others` stands for
      the keys the generator never reads, which still take part in the
      dictionary equality behind `list.index`. */
  datatype Event = Event(
    channelName: Option<string>,
    broker: Option<string>,
    channelType: Option<string>,
    operation: Option<string>,
    messageType: Option<string>,
    repository: Option<string>,
    filePath: Option<string>,
    lineNumber: Option<int>,
    others: map<string, string>)

  const SpecVersion: string := "3.0.0"

  function ChannelNameOf(e: Event): string { e.channelName.GetOr("unknown") }
  function BrokerOf(e: Event): string { e.broker.GetOr("unknown") }
  function ActionOf(e: Event): string { e.operation.GetOr("send") }
  function MessageTypeOf(e: Event): string { e.messageType.GetOr("Unknown") }
  function RepositoryOf(e: Event): string { e.repository.GetOr("") }

  // ---------------------------------------------------------------- info

  /** The `x-generated` block keeps the repositories as a set: the source's
      `list(set(...))` has no defined order. */
  datatype Info = Info(title: string, version: string, description: string,
                       timestamp: string, eventCount: nat, repositories: set<string>)

  /** `_generate_info`; the clock reading is a parameter. */
  function GenerateInfo(service: string, events: seq<Event>, version: string, timestamp: string): (info: Info)
    ensures info.title == service + " Event API" && info.version == version
    ensures info.eventCount == |events|
    ensures forall e :: e in events ==> RepositoryOf(e) in info.repositories
    ensures forall r :: r in info.repositories ==> exists i :: 0 <= i < |events| && RepositoryOf(events[i]) == r
  {
    Info(service + " Event API", version,
         "Asynchronous event API for " + service + ". This specification was auto-generated from code analysis.",
         timestamp, |events|, set e | e in events :: RepositoryOf(e))
  }

  // ---------------------------------------------------------------- servers

  const ProtocolMap: Dict<string, string> := [
    ("kafka", "kafka"), ("rabbitmq", "amqp"), ("aws-sns", "sns"), ("aws-sqs", "sqs"),
    ("aws-eventbridge", "eventbridge"), ("ibm-mq", "ibmmq")]

  /** `_get_protocol`. */
  function GetProtocol(broker: string): string
  {
    Get(ProtocolMap, broker).GetOr("unknown")
  }

  /** The protocol table, entry by entry. */
  lemma ProtocolTable()
    ensures GetProtocol("kafka") == "kafka" && GetProtocol("rabbitmq") == "amqp"
    ensures GetProtocol("aws-sns") == "sns" && GetProtocol("aws-sqs") == "sqs"
    ensures GetProtocol("aws-eventbridge") == "eventbridge" && GetProtocol("ibm-mq") == "ibmmq"
  {
  }

  /** A broker gets protocol `unknown` exactly when the table does not
      list it: no listed broker maps to `unknown`. */
  lemma UnknownProtocol(broker: string)
    ensures GetProtocol(broker) == "unknown" <==> broker !in Keys(ProtocolMap)
  {
    GetDefined(ProtocolMap, broker);
    if broker in Keys(ProtocolMap) {
      var i :| 0 <= i < |ProtocolMap| && ProtocolMap[i].0 == broker;
      GetEntry(ProtocolMap, i);
    }
  }

  datatype ServerBinding =
    | KafkaServer(schemaRegistryUrl: string)
    | AmqpServer(exchange: string)
    | AwsServer(region: string)

  datatype Server = Server(host: string, protocol: string, description: string,
                           environmentDefault: string, environments: seq<string>,
                           bindings: Option<ServerBinding>)

  /** `_get_server_config`: a placeholder host with an `environment`
      variable, and a binding for kafka, rabbitmq and `aws-` brokers only. */
  function ServerConfig(broker: string): (s: Server)
    ensures s.protocol == GetProtocol(broker)
    ensures s.description == Upper(broker) + " message broker"
    ensures s.environmentDefault in s.environments
    ensures s.bindings.Some? <==> broker == "kafka" || broker == "rabbitmq" || StartsWith(broker, "aws-")
  {
    var binding :=
      if broker == "kafka" then Some(KafkaServer("https://schema-registry.example.com"))
      else if broker == "rabbitmq" then Some(AmqpServer("default"))
      else if StartsWith(broker, "aws-") then Some(AwsServer("us-east-1"))
      else None;
    Server("{environment}.example.com", GetProtocol(broker), Upper(broker) + " message broker",
           "dev", ["dev", "staging", "prod"], binding)
  }

  function ServerEntry(broker: string): (string, Server) { (broker, ServerConfig(broker)) }

  /** `_generate_servers`: group by broker, then one assignment per group. */
  function GenerateServers(events: seq<Event>): Dict<string, Server>
  {
    PutAll(MapSeq(Keys(GroupBy(events, BrokerOf)), ServerEntry))
  }

  /** One server per distinct broker, in order of first appearance, each
      configured for its broker. */
  lemma ServersOf(events: seq<Event>, b: string)
    ensures Keys(GenerateServers(events)) == Distinct(MapSeq(events, BrokerOf))
    ensures Get(GenerateServers(events), b) == if b in MapSeq(events, BrokerOf) then Some(ServerConfig(b)) else None
  {
    var brokers := MapSeq(events, BrokerOf);
    var bs := Keys(GroupBy(events, BrokerOf));
    assert bs == Distinct(brokers) by { GroupByKeys(events, BrokerOf); }
    var es := MapSeq(bs, ServerEntry);
    assert Keys(es) == bs;
    assert PutAll(es) == es by {
      DistinctFacts(brokers);
      PutAllDistinct(es);
    }
    assert Get(PutAll(es), b) == LastValue(es, b) by { PutAllGet(es, b); }
    assert LastValue(es, b) == if b in bs then Some(ServerConfig(b)) else None by {
      LastValueKeyed(es, ServerConfig, b);
    }
    assert b in bs <==> b in brokers by { DistinctMember(brokers, b); }
  }

  // ---------------------------------------------------------------- channel ids

  predicate IsSpecial(c: char) { c == '/' || c == '.' || c == ':' }

  /** `_sanitize_channel_id`: three single-character replacements. */
  function Sanitize(name: string): (id: string)
    ensures |id| == |name|
    ensures forall i :: 0 <= i < |name| ==> id[i] == if IsSpecial(name[i]) then '_' else name[i]
  {
    Replace(Replace(Replace(name, '/', '_'), '.', '_'), ':', '_')
  }

  /** A sanitised id holds none of the replaced characters, so sanitising
      it again changes nothing. */
  lemma SanitizeIdempotent(name: string)
    ensures forall i :: 0 <= i < |Sanitize(name)| ==> !IsSpecial(Sanitize(name)[i])
    ensures Sanitize(Sanitize(name)) == Sanitize(name)
  {
    var id := Sanitize(name);
    assert forall i :: 0 <= i < |id| ==> !IsSpecial(id[i]);
    assert Sanitize(id) == id;
  }

  /** Distinct names may share an id: `a.b` and `a/b` both give `a_b`. */
  lemma SanitizeCollides()
    ensures "a.b" != "a/b" && Sanitize("a.b") == Sanitize("a/b") == "a_b"
  {
    assert Sanitize("a.b")[1] == '_' && Sanitize("a/b")[1] == '_';
  }

  function ChannelIdOf(e: Event): string { Sanitize(ChannelNameOf(e)) }

  /** No two distinct channel names among `events` share an id. */
  ghost predicate NoCollision(events: seq<Event>)
  {
    InjectiveOn(MapSeq(events, ChannelNameOf), Sanitize)
  }

  lemma NoCollisionNames(events: seq<Event>, a: string, b: string)
    requires NoCollision(events)
    requires a in MapSeq(events, ChannelNameOf) && b in MapSeq(events, ChannelNameOf)
    requires Sanitize(a) == Sanitize(b)
    ensures a == b
  {
    var names := MapSeq(events, ChannelNameOf);
    var i :| 0 <= i < |names| && names[i] == a;
    var j :| 0 <= j < |names| && names[j] == b;
  }

  // ---------------------------------------------------------------- channels

  function MessageId(id: string, k: nat): string { id + "_message_" + NatToString(k) }
  function MessageRef(mid: string): string { "#/components/messages/" + mid }
  function ChannelRef(id: string): string { "#/channels/" + id }

  /** The assignments of the message loop of `_create_channel`. */
  function MessageEntries(id: string, n: nat): seq<(string, string)>
  {
    seq(n, k requires 0 <= k < n => (MessageId(id, k), MessageRef(MessageId(id, k))))
  }

  datatype ChannelBinding =
    | KafkaTopic(topic: string, partitions: int, replicas: int)
    | AmqpQueue(kind: string, exchangeName: string, exchangeType: string, queueName: string)

  datatype Channel = Channel(address: string, description: string,
                             messages: Dict<string, string>, bindings: Option<ChannelBinding>)

  /** The RabbitMQ binding: exchange and queue from the first two
      `/`-separated parts of the name, or `default` and the whole name. */
  function AmqpBinding(name: string, channelType: string): (b: ChannelBinding)
    ensures b.AmqpQueue? && b.kind == channelType && b.exchangeType == "topic"
    ensures '/' in name ==> b.exchangeName == Split(name, '/')[0] && b.queueName == Split(name, '/')[1]
    ensures '/' !in name ==> b.exchangeName == "default" && b.queueName == name
  {
    var parts := Split(name, '/');
    AmqpQueue(channelType,
              if |parts| > 1 then parts[0] else "default",
              "topic",
              if |parts| > 1 then parts[1] else name)
  }

  /** With two or more parts the binding takes the first two and ignores the
      rest: `orders/created/v2` names exchange `orders` and queue `created`. */
  lemma AmqpBindingParts(exchange: string, queue: string, rest: string, channelType: string)
    requires '/' !in exchange && '/' !in queue
    requires |rest| == 0 || rest[0] == '/'
    ensures AmqpBinding(exchange + "/" + queue + rest, channelType).exchangeName == exchange
    ensures AmqpBinding(exchange + "/" + queue + rest, channelType).queueName == queue
  {
    var name := exchange + "/" + queue + rest;
    assert name == exchange + ['/'] + (queue + rest);
    SplitCons(exchange, '/', queue + rest);
    var parts := Split(name, '/');
    assert parts[0] == exchange;
    if |rest| > 0 {
      assert queue + rest == queue + ['/'] + rest[1..];
      SplitCons(queue, '/', rest[1..]);
    }
    assert parts[1] == queue;
    assert '/' in name;
  }

  /** `_create_channel`: the address is the raw name and the messages are
      numbered from the sanitised id, one per event of the group. The
      broker and channel type come from the group's first event. */
  function CreateChannel(name: string, group: seq<Event>): Channel
    requires |group| > 0
  {
    var first := group[0];
    var binding :=
      if BrokerOf(first) == "kafka" then Some(KafkaTopic(name, 3, 2))
      else if BrokerOf(first) == "rabbitmq" then Some(AmqpBinding(name, first.channelType.GetOr("topic")))
      else None;
    Channel(name, "Channel: " + name, PutAll(MessageEntries(Sanitize(name), |group|)), binding)
  }

  /** The message ids of a channel are pairwise different, so the message
      loop builds exactly `<id>_message_0` … `<id>_message_{n-1}`, each
      referring to the component message of the same id. */
  lemma ChannelMessages(name: string, group: seq<Event>)
    requires |group| > 0
    ensures |CreateChannel(name, group).messages| == |group|
    ensures forall k :: 0 <= k < |group| ==>
              CreateChannel(name, group).messages[k] ==
                (MessageId(Sanitize(name), k), MessageRef(MessageId(Sanitize(name), k)))
    ensures UniqueKeys(CreateChannel(name, group).messages)
  {
    var id := Sanitize(name);
    var es := MessageEntries(id, |group|);
    assert NoDups(Keys(es)) by {
      forall i, j | 0 <= i < j < |es| ensures Keys(es)[i] != Keys(es)[j] {
        if Keys(es)[i] == Keys(es)[j] {
          IndexedNameInjective(id + "_message_", i, j);
        }
      }
    }
    PutAllDistinct(es);
  }

  /** The channel entries of `_generate_channels`, one per group. */
  function ChannelEntries(groups: Dict<string, seq<Event>>): seq<(string, Channel)>
    requires forall i :: 0 <= i < |groups| ==> |groups[i].1| > 0
  {
    seq(|groups|, i requires 0 <= i < |groups| => (Sanitize(groups[i].0), CreateChannel(groups[i].0, groups[i].1)))
  }

  /** `_generate_channels`: group by raw name, then assign each group's
      channel under its sanitised id, a later group overwriting an earlier
      one with the same id. */
  function GenerateChannels(events: seq<Event>): Dict<string, Channel>
  {
    GroupsAllNonEmpty(events, ChannelNameOf);
    PutAll(ChannelEntries(GroupBy(events, ChannelNameOf)))
  }

  function ChannelGroup(events: seq<Event>, name: string): seq<Event>
  {
    WithKey(events, ChannelNameOf, name)
  }

  /** One channel per distinct id; without collisions, one per distinct
      name, in order of first appearance. */
  lemma ChannelIds(events: seq<Event>)
    ensures Keys(GenerateChannels(events)) == Distinct(MapSeq(Distinct(MapSeq(events, ChannelNameOf)), Sanitize))
    ensures NoCollision(events) ==> Keys(GenerateChannels(events)) == MapSeq(Distinct(MapSeq(events, ChannelNameOf)), Sanitize)
  {
    var names := MapSeq(events, ChannelNameOf);
    var groups := GroupBy(events, ChannelNameOf);
    GroupsAllNonEmpty(events, ChannelNameOf);
    GroupByKeys(events, ChannelNameOf);
    var es := ChannelEntries(groups);
    assert Keys(es) == MapSeq(Keys(groups), Sanitize);
    PutAllKeys(es);
    if NoCollision(events) {
      var ds := Distinct(names);
      forall x | x in ds ensures x in names { DistinctMember(names, x); }
      InjectiveOnMembers(ds, names, Sanitize);
      DistinctMapInjective(ds, Sanitize);
      DistinctFacts(names);
      DistinctOfNoDups(ds);
    }
  }

  /** Without collisions, the channel of a name is built from all events
      carrying that name, in their order. */
  lemma ChannelOf(events: seq<Event>, n: string)
    requires NoCollision(events) && n in MapSeq(events, ChannelNameOf)
    ensures |ChannelGroup(events, n)| > 0
    ensures Get(GenerateChannels(events), Sanitize(n)) == Some(CreateChannel(n, ChannelGroup(events, n)))
  {
    var names := MapSeq(events, ChannelNameOf);
    var groups := GroupBy(events, ChannelNameOf);
    GroupsAllNonEmpty(events, ChannelNameOf);
    GroupByKeys(events, ChannelNameOf);
    DistinctMember(names, n);
    var i :| 0 <= i < |groups| && Keys(groups)[i] == n;
    GetEntry(groups, i);
    GroupByGet(events, ChannelNameOf, n);
    var es := ChannelEntries(groups);
    forall j | i < j < |es| ensures es[j].0 != es[i].0 {
      var m := groups[j].0;
      assert Keys(groups)[j] == m && m != n;
      DistinctMember(names, m);
      if Sanitize(m) == Sanitize(n) {
        NoCollisionNames(events, m, n);
      }
    }
    LastValueOfUnshadowed(es, i);
    PutAllGet(es, Sanitize(n));
  }

  // ---------------------------------------------------------------- operations

  datatype Operation = Operation(action: string, channelRef: string, description: string, messageRefs: seq<string>)

  /** The key of the operation for a group: its action, then its id. */
  function OperationKey(id: string, group: seq<Event>): string
    requires |group| > 0
  {
    ActionOf(group[0]) + "_" + id
  }

  /** One operation entry of `_generate_operations`: the action and the
      channel name come from the group's first event, and there is one
      message reference per event of the group. */
  function CreateOperation(id: string, group: seq<Event>): Operation
    requires |group| > 0
  {
    var action := ActionOf(group[0]);
    Operation(action, ChannelRef(id),
              Capitalize(action) + " messages to " + ChannelNameOf(group[0]),
              seq(|group|, k requires 0 <= k < |group| => ChannelRef(id) + "/messages/" + MessageId(id, k)))
  }

  function OperationEntries(groups: Dict<string, seq<Event>>): seq<(string, Operation)>
    requires forall i :: 0 <= i < |groups| ==> |groups[i].1| > 0
  {
    seq(|groups|, i requires 0 <= i < |groups| =>
      (OperationKey(groups[i].0, groups[i].1), CreateOperation(groups[i].0, groups[i].1)))
  }

  /** `_generate_operations`: events are grouped by sanitised id, so names
      that share an id share one operation. */
  function GenerateOperations(events: seq<Event>): Dict<string, Operation>
  {
    GroupsAllNonEmpty(events, ChannelIdOf);
    PutAll(OperationEntries(GroupBy(events, ChannelIdOf)))
  }

  function OperationGroup(events: seq<Event>, id: string): seq<Event>
  {
    WithKey(events, ChannelIdOf, id)
  }

  /** When all events perform the same action, every operation key is that
      action followed by the group's id. */
  lemma OperationKeyUniform(events: seq<Event>, action: string, j: nat)
    requires forall e :: e in events ==> ActionOf(e) == action
    requires j < |GroupBy(events, ChannelIdOf)|
    ensures |GroupBy(events, ChannelIdOf)[j].1| > 0
    ensures OperationKey(GroupBy(events, ChannelIdOf)[j].0, GroupBy(events, ChannelIdOf)[j].1)
              == action + "_" + GroupBy(events, ChannelIdOf)[j].0
  {
    var g := GroupBy(events, ChannelIdOf)[j];
    GroupsNonEmpty(events, ChannelIdOf, j);
    assert g.1[0] in g.1;
  }

  /** When all events perform the same action, operation keys differ as
      ids do, so there is one operation per distinct id. */
  lemma OperationCount(events: seq<Event>, action: string)
    requires forall e :: e in events ==> ActionOf(e) == action
    ensures |GenerateOperations(events)| == |Distinct(MapSeq(events, ChannelIdOf))|
  {
    var groups := GroupBy(events, ChannelIdOf);
    GroupsAllNonEmpty(events, ChannelIdOf);
    GroupByKeys(events, ChannelIdOf);
    var es := OperationEntries(groups);
    assert NoDups(Keys(es)) by {
      forall a, b | 0 <= a < b < |es| ensures Keys(es)[a] != Keys(es)[b] {
        assert Keys(groups)[a] != Keys(groups)[b];
        OperationKeyUniform(events, action, a);
        OperationKeyUniform(events, action, b);
        if es[a].0 == es[b].0 {
          PrefixCancel(action + "_", groups[a].0, groups[b].0);
        }
      }
    }
    PutAllDistinct(es);
  }

  /** When all events perform the same action, the operation of an id is
      keyed `<action>_<id>` and built from all events with that id. */
  lemma OperationOf(events: seq<Event>, action: string, id: string)
    requires forall e :: e in events ==> ActionOf(e) == action
    requires id in MapSeq(events, ChannelIdOf)
    ensures |OperationGroup(events, id)| > 0
    ensures Get(GenerateOperations(events), action + "_" + id) ==
              Some(CreateOperation(id, OperationGroup(events, id)))
  {
    var ids := MapSeq(events, ChannelIdOf);
    var groups := GroupBy(events, ChannelIdOf);
    GroupsAllNonEmpty(events, ChannelIdOf);
    GroupByKeys(events, ChannelIdOf);
    DistinctMember(ids, id);
    var i :| 0 <= i < |groups| && Keys(groups)[i] == id;
    GetEntry(groups, i);
    GroupByGet(events, ChannelIdOf, id);
    var es := OperationEntries(groups);
    OperationKeyUniform(events, action, i);
    forall j | i < j < |es| ensures es[j].0 != es[i].0 {
      assert Keys(groups)[j] != Keys(groups)[i];
      OperationKeyUniform(events, action, j);
      if es[j].0 == es[i].0 {
        PrefixCancel(action + "_", groups[j].0, id);
      }
    }
    LastValueOfUnshadowed(es, i);
    PutAllGet(es, action + "_" + id);
  }

  // ---------------------------------------------------------------- components

  datatype Source = Source(repository: string, filePath: string, lineNumber: int)

  datatype Message = Message(name: string, title: string, summary: string,
                             contentType: string, payloadRef: string, source: Source)

  datatype Components = Components(messages: Dict<string, Message>, schemas: Dict<string, Json>)

  function PayloadId(mid: string): string { mid + "_payload" }
  function SchemaRef(sid: string): string { "#/components/schemas/" + sid }

  /** `_create_schema`: a template object schema with a constant event
      type. */
  function CreateSchema(e: Event): Json
  {
    var mt := MessageTypeOf(e);
    JObj([
      ("type", JStr("object")),
      ("title", JStr(mt)),
      ("description", JStr("Schema for " + mt + " (to be enriched with actual fields)")),
      ("properties", JObj([
        ("eventId", JObj([("type", JStr("string")), ("description", JStr("Unique event identifier")), ("format", JStr("uuid"))])),
        ("timestamp", JObj([("type", JStr("string")), ("description", JStr("Event timestamp")), ("format", JStr("date-time"))])),
        ("eventType", JObj([("type", JStr("string")), ("description", JStr("Type of event")), ("const", JStr(mt))])),
        ("payload", JObj([("type", JStr("object")), ("description", JStr("Event-specific payload (schema to be defined)")),
                          ("additionalProperties", JBool(true))]))
      ])),
      ("required", JArr([JStr("eventId"), JStr("timestamp"), JStr("eventType")])),
      ("x-note", JStr("This is a template schema. Actual schema should be enriched with real payload fields."))
    ])
  }

  /** Read back through `get`, the schema is an object titled by the
      message type, requires exactly the three envelope fields, and pins
      `eventType` to the message type. */
  lemma SchemaShape(e: Event)
    ensures Field(CreateSchema(e), "type") == Some(JStr("object"))
    ensures Field(CreateSchema(e), "title") == Some(JStr(MessageTypeOf(e)))
    ensures Field(CreateSchema(e), "required") == Some(JArr([JStr("eventId"), JStr("timestamp"), JStr("eventType")]))
    ensures Field(CreateSchema(e), "properties").Some?
    ensures Field(Field(CreateSchema(e), "properties").value, "eventType").Some?
    ensures Field(Field(Field(CreateSchema(e), "properties").value, "eventType").value, "const")
              == Some(JStr(MessageTypeOf(e)))
  {
    var mt := MessageTypeOf(e);
    var s := CreateSchema(e);
    var eventType := JObj([("type", JStr("string")), ("description", JStr("Type of event")), ("const", JStr(mt))]);
    var props := s.fields[3].1;
    assert props.fields[2].1 == eventType;
    SchemaEnvelopeFields(s.fields[0].1, s.fields[1].1, s.fields[2].1, props, s.fields[4].1, s.fields[5].1);
    SchemaPropertyFields(props.fields[0].1, props.fields[1].1, eventType, props.fields[3].1);
    ConstFields(JStr("string"), JStr("Type of event"), JStr(mt));
  }

  /** Lookup in the schema's top-level object, whatever its values. */
  lemma SchemaEnvelopeFields(t: Json, title: Json, d: Json, p: Json, r: Json, n: Json)
    ensures var j := JObj([("type", t), ("title", title), ("description", d), ("properties", p),
                           ("required", r), ("x-note", n)]);
      Field(j, "type") == Some(t) && Field(j, "title") == Some(title) &&
      Field(j, "properties") == Some(p) && Field(j, "required") == Some(r)
  {
    var fs := [("type", t), ("title", title), ("description", d), ("properties", p), ("required", r), ("x-note", n)];
    GetAt(fs, 0);
    assert fs[0].0 != fs[1].0 by { assert fs[0].0[1] != fs[1].0[1]; }
    GetAt(fs, 1);
    GetAt(fs, 3);
    GetAt(fs, 4);
  }

  /** Lookup of `eventType` among the schema's properties. */
  lemma SchemaPropertyFields(i: Json, ts: Json, et: Json, pl: Json)
    ensures Field(JObj([("eventId", i), ("timestamp", ts), ("eventType", et), ("payload", pl)]), "eventType") == Some(et)
  {
    var fs := [("eventId", i), ("timestamp", ts), ("eventType", et), ("payload", pl)];
    assert fs[0].0 != fs[2].0 by { assert fs[0].0[5] != fs[2].0[5]; }
    GetAt(fs, 2);
  }

  /** Lookup of `const` in the `eventType` property. */
  lemma ConstFields(t: Json, d: Json, c: Json)
    ensures Field(JObj([("type", t), ("description", d), ("const", c)]), "const") == Some(c)
  {
    GetAt([("type", t), ("description", d), ("const", c)], 2);
  }

  /** The component message for event `e` under id `mid`. */
  function CreateMessage(e: Event, mid: string): Message
  {
    var mt := MessageTypeOf(e);
    Message(mt, mt + " Event", "Message published to " + ChannelNameOf(e), "application/json",
            SchemaRef(PayloadId(mid)),
            Source(RepositoryOf(e), e.filePath.GetOr(""), e.lineNumber.GetOr(0)))
  }

  function NameField(e: Event): Option<string> { e.channelName }

  /** The position of `e` among the events whose `channel_name` equals the
      name `e` is filed under, as `list.index` finds it: the first equal
      event. `None` where `list.index` raises ValueError. */
  function EventIndex(all: seq<Event>, e: Event): Option<nat>
  {
    IndexOf(WithKey(all, NameField, Some(ChannelNameOf(e))), e)
  }

  /** The loop of `_generate_components` over the events `done` so far,
      the filter ranging over all events; `schema` builds each payload
      schema (`_create_schema` in `GenerateComponents`). */
  function ComponentsOver(done: seq<Event>, all: seq<Event>, schema: Event -> Json): Result<Components>
    decreases |done|
  {
    if |done| == 0 then Success(Components([], []))
    else
      match ComponentsOver(done[..|done| - 1], all, schema)
      case Failure(err) => Failure(err)
      case Success(c) =>
        var e := done[|done| - 1];
        match EventIndex(all, e)
        case None => Failure("ValueError: event is not in list")
        case Some(idx) =>
          var mid := MessageId(ChannelIdOf(e), idx);
          Success(Components(Put(c.messages, mid, CreateMessage(e, mid)),
                             Put(c.schemas, PayloadId(mid), schema(e))))
  }

  /** `_generate_components`. */
  function GenerateComponents(events: seq<Event>): Result<Components>
  {
    ComponentsOver(events, events, CreateSchema)
  }

  /** Every event carries a `channel_name`. */
  predicate AllNamed(events: seq<Event>)
  {
    forall e :: e in events ==> e.channelName.Some?
  }

  /** `list.index` fails for an event of the list exactly when the event
      has no `channel_name`: it is then filed under `unknown`, but the
      filter compares the missing value with `unknown` and drops it. */
  lemma EventIndexFails(all: seq<Event>, e: Event)
    requires e in all
    ensures EventIndex(all, e).None? <==> e.channelName.None?
  {
    WithKeyFacts(all, NameField, Some(ChannelNameOf(e)));
  }

  /** One step of the components loop succeeds exactly when the steps
      before it did and the last event has an index. */
  lemma ComponentsStep(done: seq<Event>, all: seq<Event>, schema: Event -> Json)
    requires |done| > 0
    ensures ComponentsOver(done, all, schema).Success? <==>
              ComponentsOver(done[..|done| - 1], all, schema).Success? && EventIndex(all, done[|done| - 1]).Some?
  {
  }

  lemma AllNamedSnoc(done: seq<Event>, e: Event)
    ensures AllNamed(done + [e]) <==> AllNamed(done) && e.channelName.Some?
  {
    assert forall x :: x in done + [e] <==> x in done || x == e;
  }

  /** The components loop fails exactly when some event lacks a
      `channel_name`. */
  lemma {:induction false} ComponentsFail(done: seq<Event>, all: seq<Event>, schema: Event -> Json)
    requires forall e :: e in done ==> e in all
    ensures ComponentsOver(done, all, schema).Success? <==> AllNamed(done)
    decreases |done|
  {
    if |done| > 0 {
      var done', e := done[..|done| - 1], done[|done| - 1];
      assert done == done' + [e];
      assert AllNamed(done) <==> AllNamed(done') && e.channelName.Some? by { AllNamedSnoc(done', e); }
      assert forall x :: x in done' ==> x in all by {
        forall x | x in done' ensures x in all { assert x in done; }
      }
      assert ComponentsOver(done', all, schema).Success? <==> AllNamed(done') by { ComponentsFail(done', all, schema); }
      assert EventIndex(all, e).None? <==> e.channelName.None? by {
        assert e in done;
        EventIndexFails(all, e);
      }
      ComponentsStep(done, all, schema);
    }
  }

  /** Every event of the loop has its message, under the id its index
      gives. */
  lemma {:induction false} MessageOfEvent(done: seq<Event>, all: seq<Event>, j: nat, schema: Event -> Json)
    requires ComponentsOver(done, all, schema).Success? && j < |done|
    ensures EventIndex(all, done[j]).Some?
    ensures MessageId(ChannelIdOf(done[j]), EventIndex(all, done[j]).value)
              in Keys(ComponentsOver(done, all, schema).value.messages)
    decreases |done|
  {
    var c, mid := ComponentsSnoc(done, all, schema);
    var e := done[|done| - 1];
    PutKeysMembers(c.messages, mid, CreateMessage(e, mid));
    if j < |done| - 1 {
      MessageOfEvent(done[..|done| - 1], all, j, schema);
      assert done[..|done| - 1][j] == done[j];
    }
  }

  /** One step of the components loop, read back: the last event's
      message is put under its id and its schema under the payload id. */
  lemma ComponentsSnoc(done: seq<Event>, all: seq<Event>, schema: Event -> Json) returns (c: Components, mid: string)
    requires |done| > 0 && ComponentsOver(done, all, schema).Success?
    ensures ComponentsOver(done[..|done| - 1], all, schema) == Success(c)
    ensures EventIndex(all, done[|done| - 1]).Some?
    ensures mid == MessageId(ChannelIdOf(done[|done| - 1]), EventIndex(all, done[|done| - 1]).value)
    ensures ComponentsOver(done, all, schema).value.messages == Put(c.messages, mid, CreateMessage(done[|done| - 1], mid))
    ensures Keys(ComponentsOver(done, all, schema).value.schemas) ==
              if PayloadId(mid) in Keys(c.schemas) then Keys(c.schemas) else Keys(c.schemas) + [PayloadId(mid)]
  {
    var e := done[|done| - 1];
    c := ComponentsOver(done[..|done| - 1], all, schema).value;
    mid := MessageId(ChannelIdOf(e), EventIndex(all, e).value);
  }

  /** Every component message refers to a payload schema that exists. */
  lemma {:induction false} PayloadResolves(done: seq<Event>, all: seq<Event>, k: string, schema: Event -> Json)
    requires ComponentsOver(done, all, schema).Success?
    requires Get(ComponentsOver(done, all, schema).value.messages, k).Some?
    ensures Get(ComponentsOver(done, all, schema).value.messages, k).value.payloadRef == SchemaRef(PayloadId(k))
    ensures PayloadId(k) in Keys(ComponentsOver(done, all, schema).value.schemas)
    decreases |done|
  {
    var c, mid := ComponentsSnoc(done, all, schema);
    var e := done[|done| - 1];
    if k != mid {
      PutOther(c.messages, mid, CreateMessage(e, mid), k);
      PayloadResolves(done[..|done| - 1], all, k, schema);
    }
  }

  // ---------------------------------------------------------------- document

  datatype Spec = Spec(asyncapi: string, info: Info, servers: Dict<string, Server>,
                       channels: Dict<string, Channel>, operations: Dict<string, Operation>,
                       components: Components)

  /** `generate_spec`; fails, as `list.index` raises, when an event lacks
      a `channel_name`. */
  function GenerateSpec(service: string, events: seq<Event>, version: string, timestamp: string): (r: Result<Spec>)
    ensures r.Success? <==> AllNamed(events)
    ensures r.Success? ==> r.value.asyncapi == "3.0.0" && r.value.info.eventCount == |events|
  {
    ComponentsFail(events, events, CreateSchema);
    match GenerateComponents(events)
    case Failure(err) => Failure(err)
    case Success(c) =>
      Success(Spec(SpecVersion, GenerateInfo(service, events, version, timestamp),
                   GenerateServers(events), GenerateChannels(events), GenerateOperations(events), c))
  }

  // ---------------------------------------------------------------- reference closure

  /** Every channel entry is the channel of some name among the events,
      built from all events of that name, and sits under that name's id;
      with a collision it is the later name's channel. */
  lemma ChannelSource(events: seq<Event>, id: string) returns (m: string)
    requires Get(GenerateChannels(events), id).Some?
    ensures m in MapSeq(events, ChannelNameOf) && Sanitize(m) == id
    ensures |ChannelGroup(events, m)| > 0
    ensures Get(GenerateChannels(events), id) == Some(CreateChannel(m, ChannelGroup(events, m)))
  {
    var groups := GroupBy(events, ChannelNameOf);
    GroupsAllNonEmpty(events, ChannelNameOf);
    GroupByKeys(events, ChannelNameOf);
    var es := ChannelEntries(groups);
    PutAllGet(es, id);
    LastValueFrom(es, id);
    var i :| 0 <= i < |es| && es[i] == (id, LastValue(es, id).value) && forall j :: i < j < |es| ==> es[j].0 != id;
    m := groups[i].0;
    assert Keys(groups)[i] == m;
    DistinctMember(MapSeq(events, ChannelNameOf), m);
    GetEntry(groups, i);
    GroupByGet(events, ChannelNameOf, m);
  }

  /** Every message reference of every channel names a component message
      that exists, collisions or not: a channel's references are numbered
      within its own name, as the component ids are. */
  lemma ChannelRefResolves(events: seq<Event>, id: string, k: nat)
    requires NoDups(events) && AllNamed(events)
    requires Get(GenerateChannels(events), id).Some? && k < |Get(GenerateChannels(events), id).value.messages|
    ensures GenerateComponents(events).Success?
    ensures Get(GenerateChannels(events), id).value.messages[k].1 ==
              MessageRef(Get(GenerateChannels(events), id).value.messages[k].0)
    ensures Get(GenerateChannels(events), id).value.messages[k].0
              in Keys(GenerateComponents(events).value.messages)
  {
    ComponentsFail(events, events, CreateSchema);
    var n := ChannelSource(events, id);
    var g := ChannelGroup(events, n);
    ChannelMessages(n, g);
    WithKeyFacts(events, ChannelNameOf, n);
    var e := g[k];
    assert e in g;
    var j :| 0 <= j < |events| && events[j] == e;
    WithKeySameKeys(events, ChannelNameOf, n, NameField, Some(n));
    IndexOfDistinct(g, k);
    assert EventIndex(events, e) == Some(k);
    MessageOfEvent(events, events, j, CreateSchema);
  }

  /** Without collisions, every message reference of an operation points at
      a message of the channel the operation refers to. */
  lemma OperationRefResolves(events: seq<Event>, id: string, k: nat)
    requires NoCollision(events)
    requires id in MapSeq(events, ChannelIdOf) && k < |OperationGroup(events, id)|
    ensures |OperationGroup(events, id)| > 0
    ensures CreateOperation(id, OperationGroup(events, id)).channelRef == ChannelRef(id)
    ensures Get(GenerateChannels(events), id).Some?
    ensures k < |Get(GenerateChannels(events), id).value.messages|
    ensures |CreateOperation(id, OperationGroup(events, id)).messageRefs| == |OperationGroup(events, id)|
    ensures CreateOperation(id, OperationGroup(events, id)).messageRefs[k] ==
              ChannelRef(id) + "/messages/" + Get(GenerateChannels(events), id).value.messages[k].0
  {
    var ids := MapSeq(events, ChannelIdOf);
    var j :| 0 <= j < |ids| && ids[j] == id;
    var n := ChannelNameOf(events[j]);
    assert n in MapSeq(events, ChannelNameOf) by { assert MapSeq(events, ChannelNameOf)[j] == n; }
    forall x | x in events ensures ChannelIdOf(x) == id <==> ChannelNameOf(x) == n {
      var p :| 0 <= p < |events| && events[p] == x;
      assert MapSeq(events, ChannelNameOf)[p] == ChannelNameOf(x);
      if ChannelIdOf(x) == id {
        NoCollisionNames(events, ChannelNameOf(x), n);
      }
    }
    WithKeySameKeys(events, ChannelIdOf, id, ChannelNameOf, n);
    ChannelOf(events, n);
    ChannelMessages(n, ChannelGroup(events, n));
  }

  // ---------------------------------------------------------------- quirks

  function Named(name: string): Event
  {
    Event(Some(name), None, None, None, None, None, None, None, map[])
  }

  /** Two equal events share one component message: the second finds the
      first with `list.index`. */
  lemma DuplicateEventsShareId(e: Event)
    requires e.channelName.Some?
    ensures GenerateComponents([e, e]).Success?
    ensures Keys(GenerateComponents([e, e]).value.messages) == [MessageId(ChannelIdOf(e), 0)]
  {
    var events := [e, e];
    assert events[..1] == [e];
    assert EventIndex(events, e) == Some(0) by { WithKeyAll(events, NameField, Some(ChannelNameOf(e))); }
    assert ComponentsOver(events, events, CreateSchema).Success? by { ComponentsFail(events, events, CreateSchema); }
    var mid := MessageId(ChannelIdOf(e), 0);
    assert Keys(ComponentsOver([e], events, CreateSchema).value.messages) == [mid] by { OneComponent(e, events, CreateSchema); }
    var c, mid' := ComponentsSnoc(events, events, CreateSchema);
  }

  /** The loop over a single event puts one message, under its id. */
  lemma OneComponent(e: Event, all: seq<Event>, schema: Event -> Json)
    requires EventIndex(all, e).Some?
    ensures ComponentsOver([e], all, schema).Success?
    ensures Keys(ComponentsOver([e], all, schema).value.messages) == [MessageId(ChannelIdOf(e), EventIndex(all, e).value)]
  {
    assert [e][..0] == [];
  }

  /** The channel of the two equal events still lists two messages, so its
      second reference has no component message to resolve to. */
  lemma DuplicateEventsTwoRefs(e: Event)
    ensures Get(GenerateChannels([e, e]), ChannelIdOf(e)).Some?
    ensures Keys(Get(GenerateChannels([e, e]), ChannelIdOf(e)).value.messages)
              == [MessageId(ChannelIdOf(e), 0), MessageId(ChannelIdOf(e), 1)]
  {
    var events := [e, e];
    var n := ChannelNameOf(e);
    assert MapSeq(events, ChannelNameOf) == [n, n];
    assert NoCollision(events);
    assert ChannelGroup(events, n) == events by { WithKeyAll(events, ChannelNameOf, n); }
    assert Get(GenerateChannels(events), ChannelIdOf(e)) == Some(CreateChannel(n, events)) by { ChannelOf(events, n); }
    ChannelMessages(n, events);
  }

  /** `a.b` and `a/b` share the id `a_b`: the channel of the later name
      overwrites the earlier one. */
  lemma CollidingNamesOverwriteChannel()
    ensures Keys(GenerateChannels([Named("a.b"), Named("a/b")])) == ["a_b"]
    ensures Get(GenerateChannels([Named("a.b"), Named("a/b")]), "a_b").Some?
    ensures Get(GenerateChannels([Named("a.b"), Named("a/b")]), "a_b").value.address == "a/b"
    ensures |Get(GenerateChannels([Named("a.b"), Named("a/b")]), "a_b").value.messages| == 1
  {
    var a, b := Named("a.b"), Named("a/b");
    var groups := GroupBy([a, b], ChannelNameOf);
    assert groups == [("a.b", [a]), ("a/b", [b])] by { GroupByTwo(a, b, ChannelNameOf); }
    var es := ChannelEntries(groups);
    assert es == [("a_b", CreateChannel("a.b", [a])), ("a_b", CreateChannel("a/b", [b]))] by {
      SanitizeCollides();
    }
    assert GenerateChannels([a, b]) == [es[1]] by { PutAllTwo(es[0], es[1]); }
    ChannelMessages("a/b", [b]);
  }

  /** `a.b` and `a/b` share the id `a_b`: the operation of that id merges
      both names' events. */
  lemma CollidingNamesMergeOperation()
    ensures Keys(GenerateOperations([Named("a.b"), Named("a/b")])) == ["send_a_b"]
    ensures Get(GenerateOperations([Named("a.b"), Named("a/b")]), "send_a_b").Some?
    ensures |Get(GenerateOperations([Named("a.b"), Named("a/b")]), "send_a_b").value.messageRefs| == 2
  {
    var a, b := Named("a.b"), Named("a/b");
    SanitizeCollides();
    GroupByTwo(a, b, ChannelIdOf);
    var groups := GroupBy([a, b], ChannelIdOf);
    assert groups == [("a_b", [a, b])];
    var es := OperationEntries(groups);
    assert ActionOf(a) == "send";
    assert "send" + "_" + "a_b" == "send_a_b";
    assert es == [("send_a_b", CreateOperation("a_b", [a, b]))];
    assert es[..0] == [];
    assert PutAll(es) == [es[0]];
  }
}
