/** The scanner's AsyncAPI 2.6.0 generator: a fixed base document plus one
    channel per distinct event name, built from the first event carrying
    that name. */
module SimpleGenerator {
  import opened Wrappers
  import opened Seqs
  import opened Dicts
  import opened Json

  /** An event as the scanner hands it over; only the name is read, and it
      may be missing. */
  datatype EventInput = EventInput(name: Option<string>)

  datatype Info = Info(title: string, version: string, description: string)
  datatype Server = Server(url: string, protocol: string, description: string)
  datatype Message = Message(name: string, title: string, contentType: string, payload: Json)
  datatype Channel = Channel(description: string, summary: string, message: Message)

  datatype Spec = Spec(asyncapi: string, info: Info, servers: Dict<string, Server>, channels: Dict<string, Channel>)

  const AsyncApiVersion: string := "2.6.0"

  /** The payload schema every channel's message carries. */
  const Payload: Json := JObj([
    ("type", JStr("object")),
    ("properties", JObj([
      ("eventId", JObj([("type", JStr("string")), ("description", JStr("Unique event identifier"))])),
      ("timestamp", JObj([("type", JStr("string")), ("format", JStr("date-time")), ("description", JStr("Event timestamp"))])),
      ("data", JObj([("type", JStr("object")), ("description", JStr("Event payload data"))]))
    ]))
  ])

  /** `_create_base_spec`: the document without channels. */
  function BaseSpec(): Spec
  {
    Spec(AsyncApiVersion,
         Info("Discovered AsyncAPI Specification", "1.0.0",
              "Auto-generated AsyncAPI specification from repository scanning"),
         [("development", Server("localhost", "amqp", "Development server"))],
         [])
  }

  /** The channel name of an event: its name, `unknown` when it has none. */
  function ChannelName(e: EventInput): string { e.name.GetOr("unknown") }

  /** `_create_channel`. The message title falls back to `Unknown Event`,
      unlike the name, which falls back to `unknown`. */
  function CreateChannel(e: EventInput): Channel
  {
    var n := e.name.GetOr("unknown");
    Channel("Channel for " + n + " event", "Subscribe to " + n + " events",
            Message(n, e.name.GetOr("Unknown Event"), "application/json", Payload))
  }

  /** The channel loop of `generate`: a channel is added only for a name
      not seen before. */
  function Channels(events: seq<EventInput>): Dict<string, Channel>
    decreases |events|
  {
    if |events| == 0 then []
    else
      var c := Channels(events[..|events| - 1]);
      var e := events[|events| - 1];
      if ChannelName(e) in Keys(c) then c else Put(c, ChannelName(e), CreateChannel(e))
  }

  /** `generate`, before serialisation to YAML. */
  function Generate(events: seq<EventInput>): (spec: Spec)
    ensures spec.asyncapi == "2.6.0"
    ensures spec.servers == BaseSpec().servers && spec.info == BaseSpec().info
  {
    BaseSpec().(channels := Channels(events))
  }

  function ChannelEntry(e: EventInput): (string, Channel) { (ChannelName(e), CreateChannel(e)) }

  /** The channels are those of the first event of each name, in order:
      the same as de-duplicating the events by channel name and building a
      channel from each survivor. */
  lemma {:induction false} ChannelsAreFirstWins(events: seq<EventInput>)
    ensures Channels(events) == MapSeq(DedupBy(events, ChannelName), ChannelEntry)
    decreases |events|
  {
    if |events| > 0 {
      var es', e := events[..|events| - 1], events[|events| - 1];
      ChannelsAreFirstWins(es');
      var d := DedupBy(es', ChannelName);
      assert Keys(MapSeq(d, ChannelEntry)) == MapSeq(d, ChannelName);
      if ChannelName(e) !in MapSeq(d, ChannelName) {
        PutNew(MapSeq(d, ChannelEntry), ChannelName(e), CreateChannel(e));
        MapSnoc(d, e, ChannelEntry);
      }
    }
  }

  /** One channel per distinct name, named in order of first appearance, so
      never more channels than events. */
  lemma ChannelKeys(events: seq<EventInput>)
    ensures Keys(Generate(events).channels) == Distinct(MapSeq(events, ChannelName))
    ensures |Generate(events).channels| <= |events|
  {
    ChannelsAreFirstWins(events);
    var d := DedupBy(events, ChannelName);
    assert Keys(MapSeq(d, ChannelEntry)) == MapSeq(d, ChannelName);
    DedupByUnique(events, ChannelName);
    DistinctOfNoDups(MapSeq(d, ChannelName));
    forall k ensures k in MapSeq(d, ChannelName) <==> k in MapSeq(events, ChannelName) {
      DedupByKeys(events, ChannelName, k);
    }
    DistinctFacts(MapSeq(events, ChannelName));
    DedupBySubSeqOrder(events);
    DistinctFacts(MapSeq(events, ChannelName));
  }

  /** The names kept by first-seen de-duplication are the distinct names. */
  lemma {:induction false} DedupBySubSeqOrder(events: seq<EventInput>)
    ensures MapSeq(DedupBy(events, ChannelName), ChannelName) == Distinct(MapSeq(events, ChannelName))
    decreases |events|
  {
    if |events| > 0 {
      var es', e := events[..|events| - 1], events[|events| - 1];
      DedupBySubSeqOrder(es');
      MapSnoc(es', e, ChannelName);
      assert events == es' + [e];
      assert MapSeq(events, ChannelName)[..|events| - 1] == MapSeq(es', ChannelName);
      MapSnoc(DedupBy(es', ChannelName), e, ChannelName);
    }
  }

  /** The channel of a name is built from the first event carrying it. */
  lemma ChannelFromFirstEvent(events: seq<EventInput>, j: nat)
    requires j < |events| && FirstOfKey(events, ChannelName, j)
    ensures Get(Generate(events).channels, ChannelName(events[j])) == Some(CreateChannel(events[j]))
  {
    ChannelsAreFirstWins(events);
    DedupByKeepsEveryFirst(events, ChannelName);
    var d := DedupBy(events, ChannelName);
    var i :| 0 <= i < |d| && d[i] == events[j];
    DedupByUnique(events, ChannelName);
    var c := MapSeq(d, ChannelEntry);
    assert Keys(c) == MapSeq(d, ChannelName);
    GetEntry(c, i);
  }

  /** No events give a document with the base parts and no channels. */
  lemma GenerateEmpty()
    ensures Generate([]) == BaseSpec()
  {
  }

  /** Two events with different names give two channels, in order. */
  lemma GenerateTwoNames()
    ensures Keys(Generate([EventInput(Some("user.created")), EventInput(Some("order.placed"))]).channels)
              == ["user.created", "order.placed"]
  {
    var events := [EventInput(Some("user.created")), EventInput(Some("order.placed"))];
    ChannelKeys(events);
    var names := MapSeq(events, ChannelName);
    assert names == ["user.created", "order.placed"];
    assert "user.created"[0] != "order.placed"[0];
    DistinctOfNoDups(names);
  }

  /** An event without a name gets channel `unknown` with message title
      `Unknown Event`. */
  lemma UnnamedEventChannel()
    ensures Get(Generate([EventInput(None)]).channels, "unknown") ==
      Some(Channel("Channel for unknown event", "Subscribe to unknown events",
                   Message("unknown", "Unknown Event", "application/json", Payload)))
  {
    var e := EventInput(None);
    assert [e][..0] == [];
    assert Channels([e]) == Put([], "unknown", CreateChannel(e));
    UnnamedChannel();
  }

  /** The channel built for an event without a name. */
  lemma UnnamedChannel()
    ensures CreateChannel(EventInput(None)) ==
      Channel("Channel for unknown event", "Subscribe to unknown events",
              Message("unknown", "Unknown Event", "application/json", Payload))
  {
    assert "Channel for " + "unknown" + " event" == "Channel for unknown event";
    assert "Subscribe to " + "unknown" + " events" == "Subscribe to unknown events";
  }
}
