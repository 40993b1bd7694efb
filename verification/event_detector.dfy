/** The event detector of the AsyncAPI 2.6.0 pipeline: it sends each
    pattern of a fixed library to a code-search service, turns every hit
    into an event record (guessing the event name from the first
    plausible quoted literal on the matched lines) and drops records
    whose (name, broker) pair was already seen. */
module EventDetector {
  import opened Wrappers
  import opened Text
  import opened Seqs

  /** One matched line of a code-search hit; either entry may be missing. */
  datatype LineMatch = LineMatch(lineNumber: Option<int>, line: Option<string>)

  /** One code-search hit. `path` and `repository` are `None` when the hit
      lacks `file.path` or `repository.name`. */
  datatype SearchMatch = SearchMatch(path: Option<string>, repository: Option<string>, lineMatches: seq<LineMatch>)

  datatype EventRecord = EventRecord(
    name: string,
    broker: string,
    file: string,
    repository: string,
    lines: seq<int>,
    sourceCode: seq<string>)

  /** The code-search service: query text and repository to hits. */
  type Search = (string, string) -> seq<SearchMatch>

  /** The pattern library, per broker category in the order the detector
      walks it; the query text is the pattern's source text. */
  const PatternLibrary: seq<(string, seq<string>)> := [
    ("kafka", [@"KafkaProducer", @"\.send\s*\(", @"kafka\.Producer", @"@KafkaListener"]),
    ("rabbitmq", [@"channel\.basic_publish", @"RabbitTemplate", @"@RabbitListener", @"pika\.BlockingConnection"]),
    ("aws", [@"sns\.publish", @"sqs\.send_message", @"boto3\.client\([""\']sns[""\']", @"boto3\.client\([""\']sqs[""\']"]),
    ("pubsub", [@"publisher\.publish", @"google\.cloud\.pubsub", @"PublisherClient"]),
    ("azure", [@"ServiceBusClient", @"send_messages", @"azure\.servicebus"]),
    ("generic", [@"\.emit\s*\(", @"\.publish\s*\(", @"\.fire\s*\(", @"EventEmitter", @"\.trigger\s*\("])
  ]

  /** The `boto3.client` queries are the raw patterns' source text, which
      keeps the backslash before each `'`. */
  lemma AwsClientQueries()
    ensures PatternLibrary[2].0 == "aws"
    ensures PatternLibrary[2].1[2] == "boto3" + ['\\'] + ".client" + ['\\'] + "([\"" + ['\\'] + "']sns[\"" + ['\\'] + "']"
    ensures |PatternLibrary[2].1[2]| == |PatternLibrary[2].1[3]| == 28
  {
  }

  // ---------------------------------------------------------------- quoted literals

  /** A character of `[a-zA-Z0-9._-]`. */
  predicate IsNameChar(c: char) { IsAlnum(c) || c == '.' || c == '_' || c == '-' }

  predicate IsName(s: string) { |s| > 0 && forall k :: 0 <= k < |s| ==> IsNameChar(s[k]) }

  /** The end of the longest run of name characters starting at `j`. */
  function NameRunEnd(s: string, j: nat): (e: nat)
    requires j <= |s|
    ensures j <= e <= |s|
    ensures forall k :: j <= k < e ==> IsNameChar(s[k])
    ensures e == |s| || !IsNameChar(s[e])
    decreases |s| - j
  {
    if j == |s| || !IsNameChar(s[j]) then j else NameRunEnd(s, j + 1)
  }

  /** `lit`, between two quote characters, starts at position `p` of `s`. */
  predicate QuotedAt(s: string, lit: string, p: nat)
  {
    p + |lit| + 2 <= |s| && IsQuote(s[p]) && s[p + 1..p + 1 + |lit|] == lit && IsQuote(s[p + 1 + |lit|])
  }

  /** The non-overlapping matches of `["']([a-zA-Z0-9._-]+)["']` from
      position `i` on, left to right, as `re.findall` reports them. */
  function LiteralsFrom(s: string, i: nat): (lits: seq<string>)
    requires i <= |s|
    ensures forall k :: 0 <= k < |lits| ==> IsName(lits[k])
    decreases |s| - i
  {
    if i == |s| then []
    else if IsQuote(s[i]) then
      var e := NameRunEnd(s, i + 1);
      if e > i + 1 && e < |s| && IsQuote(s[e]) then [s[i + 1..e]] + LiteralsFrom(s, e + 1)
      else LiteralsFrom(s, i + 1)
    else LiteralsFrom(s, i + 1)
  }

  function QuotedLiterals(line: string): seq<string> { LiteralsFrom(line, 0) }

  /** Every literal found really stands between quotes in the line. */
  lemma LiteralsAreQuoted(s: string, i: nat, k: nat)
    requires i <= |s| && k < |LiteralsFrom(s, i)|
    ensures exists p: nat :: i <= p && QuotedAt(s, LiteralsFrom(s, i)[k], p)
  {
    var p := LiteralPosition(s, i, k);
  }

  /** Where the `k`-th literal found from `i` on stands. */
  lemma {:induction false} LiteralPosition(s: string, i: nat, k: nat) returns (p: nat)
    requires i <= |s| && k < |LiteralsFrom(s, i)|
    ensures i <= p && QuotedAt(s, LiteralsFrom(s, i)[k], p)
    decreases |s| - i
  {
    var e := NameRunEnd(s, i + 1);
    if IsQuote(s[i]) && e > i + 1 && e < |s| && IsQuote(s[e]) {
      LiteralTaken(s, i);
      if k == 0 {
        QuotedRun(s, i, e);
        p := i;
      } else {
        p := LiteralPosition(s, e + 1, k - 1);
      }
    } else {
      LiteralSkipped(s, i);
      p := LiteralPosition(s, i + 1, k);
    }
  }

  /** A quoted name at `i` is the first literal from `i` on. */
  lemma LiteralTaken(s: string, i: nat)
    requires i < |s| && IsQuote(s[i])
    requires NameRunEnd(s, i + 1) > i + 1 && NameRunEnd(s, i + 1) < |s| && IsQuote(s[NameRunEnd(s, i + 1)])
    ensures LiteralsFrom(s, i) == [s[i + 1..NameRunEnd(s, i + 1)]] + LiteralsFrom(s, NameRunEnd(s, i + 1) + 1)
  {
  }

  /** Otherwise scanning moves on by one character. */
  lemma LiteralSkipped(s: string, i: nat)
    requires i < |s|
    requires !(IsQuote(s[i]) && NameRunEnd(s, i + 1) > i + 1 && NameRunEnd(s, i + 1) < |s| &&
               IsQuote(s[NameRunEnd(s, i + 1)]))
    ensures LiteralsFrom(s, i) == LiteralsFrom(s, i + 1)
  {
  }

  /** A run of name characters closed by quotes on both sides is quoted. */
  lemma QuotedRun(s: string, i: nat, e: nat)
    requires i < e < |s| && IsQuote(s[i]) && IsQuote(s[e])
    ensures QuotedAt(s, s[i + 1..e], i)
  {
  }

  /** Scanning passes over characters that are not quotes. */
  lemma {:induction false} SkipUnquoted(s: string, i: nat, n: nat)
    requires i <= n <= |s|
    requires forall k :: i <= k < n ==> !IsQuote(s[k])
    ensures LiteralsFrom(s, i) == LiteralsFrom(s, n)
    decreases n - i
  {
    if i < n {
      SkipUnquoted(s, i + 1, n);
    }
  }

  /** A run of name characters ended by a non-name character ends there. */
  lemma {:induction false} NameRunEndAt(s: string, j: nat, e: nat)
    requires j <= e < |s|
    requires forall k :: j <= k < e ==> IsNameChar(s[k])
    requires !IsNameChar(s[e])
    ensures NameRunEnd(s, j) == e
    decreases e - j
  {
    if j < e {
      NameRunEndAt(s, j + 1, e);
    }
  }

  /** After a quote-free prefix, the first literal found is the first quoted
      name. */
  lemma FirstLiteralAfterUnquotedPrefix(pre: string, q1: char, lit: string, q2: char, rest: string)
    requires '"' !in pre && '\'' !in pre
    requires IsQuote(q1) && IsQuote(q2) && |lit| > 0
    requires forall c :: c in lit ==> IsNameChar(c)
    ensures var s := pre + [q1] + lit + [q2] + rest;
      |QuotedLiterals(s)| > 0 && QuotedLiterals(s)[0] == lit
  {
    var s := pre + [q1] + lit + [q2] + rest;
    var n, e := |pre|, |pre| + 1 + |lit|;
    QuoteFreePrefix(pre, q1, lit, q2, rest);
    QuotedPart(pre, q1, lit, q2, rest);
    assert !IsNameChar(s[e]);
    NameRun(s, n + 1, lit);
    LiteralTaken(s, n);
  }

  /** Scanning skips a prefix without quotes. */
  lemma QuoteFreePrefix(pre: string, q1: char, lit: string, q2: char, rest: string)
    requires '"' !in pre && '\'' !in pre
    ensures var s := pre + [q1] + lit + [q2] + rest;
      LiteralsFrom(s, 0) == LiteralsFrom(s, |pre|)
  {
    var s := pre + [q1] + lit + [q2] + rest;
    forall k | 0 <= k < |pre| ensures !IsQuote(s[k]) {
      assert s[k] == pre[k];
    }
    SkipUnquoted(s, 0, |pre|);
  }

  /** A run of name characters spelling `lit`, followed by a character
      that is not one, ends where `lit` does. */
  lemma NameRun(s: string, j: nat, lit: string)
    requires j + |lit| < |s| && s[j..j + |lit|] == lit && !IsNameChar(s[j + |lit|])
    requires forall c :: c in lit ==> IsNameChar(c)
    ensures NameRunEnd(s, j) == j + |lit|
  {
    forall k | j <= k < j + |lit| ensures IsNameChar(s[k]) {
      assert s[k] == lit[k - j];
    }
    NameRunEndAt(s, j, j + |lit|);
  }

  /** The text between the two quotes is the literal. */
  lemma QuotedPart(pre: string, q1: char, lit: string, q2: char, rest: string)
    ensures var s := pre + [q1] + lit + [q2] + rest;
      s[|pre|] == q1 && s[|pre| + 1 + |lit|] == q2 && s[|pre| + 1..|pre| + 1 + |lit|] == lit
  {
    var s := pre + [q1] + lit + [q2] + rest;
    assert s == (pre + [q1]) + lit + ([q2] + rest);
  }

  // ---------------------------------------------------------------- event names

  /** A literal plausible as an event name: longer than two characters and
      not starting with `_`. */
  predicate Qualifies(s: string) { |s| > 2 && s[0] != '_' }

  /** The first qualifying literal of a list. */
  function FirstQualifying(lits: seq<string>): (r: Option<string>)
    ensures r.None? <==> forall k :: 0 <= k < |lits| ==> !Qualifies(lits[k])
    ensures r.Some? ==> exists k :: 0 <= k < |lits| && lits[k] == r.value && Qualifies(r.value) &&
                                   (forall j :: 0 <= j < k ==> !Qualifies(lits[j]))
    decreases |lits|
  {
    if |lits| == 0 then None
    else if Qualifies(lits[0]) then Some(lits[0])
    else
      var r := FirstQualifying(lits[1..]);
      assert r.Some? ==> exists k :: 0 <= k < |lits[1..]| && lits[1..][k] == r.value && Qualifies(r.value) &&
                                     (forall j :: 0 <= j < k ==> !Qualifies(lits[1..][j]));
      assert forall k :: 0 < k < |lits| ==> lits[k] == lits[1..][k - 1];
      r
  }

  function LineOf(lm: LineMatch): string { lm.line.GetOr("") }

  /** The first qualifying literal on the first line that has one. */
  function NameFromLines(lms: seq<LineMatch>): Option<string>
    decreases |lms|
  {
    if |lms| == 0 then None
    else match FirstQualifying(QuotedLiterals(LineOf(lms[0])))
      case Some(s) => Some(s)
      case None => NameFromLines(lms[1..])
  }

  /** `_extract_event_name`: the first qualifying literal, or
      `<broker>_event` when there is none. */
  function ExtractEventName(lms: seq<LineMatch>, broker: string): string
  {
    NameFromLines(lms).GetOr(broker + "_event")
  }

  /** Every literal on the matched lines, in line order. */
  function AllLiterals(lms: seq<LineMatch>): seq<string>
    decreases |lms|
  {
    if |lms| == 0 then [] else QuotedLiterals(LineOf(lms[0])) + AllLiterals(lms[1..])
  }

  /** Looking line by line is looking through all literals at once. */
  lemma {:induction false} NameFromLinesIsFirstOfAll(lms: seq<LineMatch>)
    ensures NameFromLines(lms) == FirstQualifying(AllLiterals(lms))
    decreases |lms|
  {
    if |lms| > 0 {
      NameFromLinesIsFirstOfAll(lms[1..]);
      var a := QuotedLiterals(LineOf(lms[0]));
      assert AllLiterals(lms) == a + AllLiterals(lms[1..]);
      FirstQualifyingAppend(a, AllLiterals(lms[1..]));
    }
  }

  lemma {:induction false} FirstQualifyingAppend(a: seq<string>, b: seq<string>)
    ensures FirstQualifying(a + b) == if FirstQualifying(a).Some? then FirstQualifying(a) else FirstQualifying(b)
    decreases |a|
  {
    if |a| > 0 {
      assert (a + b)[0] == a[0];
      assert (a + b)[1..] == a[1..] + b;
      FirstQualifyingAppend(a[1..], b);
      if !Qualifies(a[0]) {
        assert FirstQualifying(a) == FirstQualifying(a[1..]);
        assert FirstQualifying(a + b) == FirstQualifying(a[1..] + b);
      }
    } else {
      assert a + b == b;
    }
  }

  /** The extracted name is the first qualifying literal over all matched
      lines; when none qualifies it is `<broker>_event`. */
  lemma ExtractEventNameSpec(lms: seq<LineMatch>, broker: string)
    ensures var all := AllLiterals(lms);
      (forall k :: 0 <= k < |all| ==> !Qualifies(all[k])) ==> ExtractEventName(lms, broker) == broker + "_event"
    ensures var all := AllLiterals(lms);
      (exists k :: 0 <= k < |all| && Qualifies(all[k])) ==>
        exists k :: 0 <= k < |all| && all[k] == ExtractEventName(lms, broker) && Qualifies(all[k]) &&
                    (forall j :: 0 <= j < k ==> !Qualifies(all[j]))
  {
    NameFromLinesIsFirstOfAll(lms);
    var r := FirstQualifying(AllLiterals(lms));
    assert ExtractEventName(lms, broker) == r.GetOr(broker + "_event");
  }

  /** Every literal in `AllLiterals` is a name found on one of the lines. */
  lemma {:induction false} AllLiteralsAreNames(lms: seq<LineMatch>)
    ensures forall k :: 0 <= k < |AllLiterals(lms)| ==> IsName(AllLiterals(lms)[k])
    decreases |lms|
  {
    if |lms| > 0 {
      AllLiteralsAreNames(lms[1..]);
      var a := QuotedLiterals(LineOf(lms[0]));
      var b := AllLiterals(lms[1..]);
      assert forall k :: 0 <= k < |a + b| ==> (a + b)[k] == if k < |a| then a[k] else b[k - |a|];
    }
  }

  /** A name taken from the code is at least three name characters long and
      does not start with `_`. */
  lemma ExtractedNameShape(lms: seq<LineMatch>)
    requires NameFromLines(lms).Some?
    ensures IsName(NameFromLines(lms).value)
    ensures |NameFromLines(lms).value| >= 3 && NameFromLines(lms).value[0] != '_'
  {
    NameFromLinesIsFirstOfAll(lms);
    AllLiteralsAreNames(lms);
  }

  /** On a single matched line, the name is the line's first literal when
      that one qualifies. */
  lemma SingleLineName(n: Option<int>, line: string, broker: string, lit: string)
    requires |QuotedLiterals(line)| > 0 && QuotedLiterals(line)[0] == lit && Qualifies(lit)
    ensures ExtractEventName([LineMatch(n, Some(line))], broker) == lit
  {
    var lms := [LineMatch(n, Some(line))];
    assert LineOf(lms[0]) == line;
    assert FirstQualifying(QuotedLiterals(line)) == Some(lit);
  }
  /** A single matched line whose first quote opens a double-quoted name
      that qualifies is named by it, whatever follows. */
  lemma QuotedNameOfLine(n: Option<int>, pre: string, lit: string, rest: string, broker: string)
    requires '"' !in pre && '\'' !in pre
    requires Qualifies(lit) && forall c :: c in lit ==> IsNameChar(c)
    ensures ExtractEventName([LineMatch(n, Some(pre + ['"'] + lit + ['"'] + rest))], broker) == lit
  {
    FirstLiteralAfterUnquotedPrefix(pre, '"', lit, '"', rest);
    SingleLineName(n, pre + ['"'] + lit + ['"'] + rest, broker, lit);
  }

  /** The Kafka line of the demonstration repository names `user.created`. */
  lemma KafkaSendNamesTopic()
    ensures var line := "producer.send(" + "\"user.created\"" + ", userEvent);";
      ExtractEventName([LineMatch(Some(42), Some(line))], "kafka") == "user.created"
  {
    var line := "producer.send(" + "\"user.created\"" + ", userEvent);";
    var pre, rest := "producer.send(", ", userEvent);";
    assert "\"user.created\"" == ['"'] + "user.created" + ['"'];
    assert pre + "\"user.created\"" + rest == pre + ['"'] + "user.created" + ['"'] + rest;
    assert forall c :: c in "user.created" ==> IsNameChar(c);
    QuotedNameOfLine(Some(42), pre, "user.created", rest, "kafka");
  }

  /** For `channel.basic_publish(exchange="orders", routing_key=...)` the
      name is the exchange, the first qualifying literal. */
  lemma BasicPublishNamesExchange()
    ensures var line := "channel.basic_publish(exchange=" + "\"orders\"" + ", routing_key=\"order.placed\", body=message)";
      ExtractEventName([LineMatch(Some(7), Some(line))], "rabbitmq") == "orders"
  {
    var line := "channel.basic_publish(exchange=" + "\"orders\"" + ", routing_key=\"order.placed\", body=message)";
    var pre, rest := "channel.basic_publish(exchange=", ", routing_key=\"order.placed\", body=message)";
    assert "\"orders\"" == ['"'] + "orders" + ['"'];
    assert pre + "\"orders\"" + rest == pre + ['"'] + "orders" + ['"'] + rest;
    assert forall c :: c in "orders" ==> IsNameChar(c);
    QuotedNameOfLine(Some(7), pre, "orders", rest, "rabbitmq");
  }

  /** A single matched line without quotes has no literal, so the name
      falls back to `<broker>_event`. */
  lemma NoLiteralGivesDefault(n: Option<int>, line: string, broker: string)
    requires '"' !in line && '\'' !in line
    ensures ExtractEventName([LineMatch(n, Some(line))], broker) == broker + "_event"
  {
    assert forall k :: 0 <= k < |line| ==> !IsQuote(line[k]) by {
      forall k | 0 <= k < |line| ensures !IsQuote(line[k]) { assert line[k] in line; }
    }
    SkipUnquoted(line, 0, |line|);
    assert QuotedLiterals(line) == [];
    var lms := [LineMatch(n, Some(line))];
    assert LineOf(lms[0]) == line && lms[1..] == [];
    assert FirstQualifying(QuotedLiterals(LineOf(lms[0]))) == None;
    assert NameFromLines(lms[1..]) == None;
    assert NameFromLines(lms) == None;
  }

  // ---------------------------------------------------------------- parsing a hit

  /** `_parse_event`: `None` for a hit without matched lines; otherwise a
      record whose line numbers and source lines follow the matched lines
      one for one, with `0` and `""` for missing entries. */
  function ParseEvent(m: SearchMatch, broker: string): (r: Option<EventRecord>)
    ensures r.None? <==> |m.lineMatches| == 0
    ensures r.Some? ==>
      && r.value.name == ExtractEventName(m.lineMatches, broker)
      && r.value.broker == broker
      && r.value.file == m.path.GetOr("")
      && r.value.repository == m.repository.GetOr("")
      && |r.value.lines| == |m.lineMatches| == |r.value.sourceCode|
      && (forall i :: 0 <= i < |m.lineMatches| ==>
            r.value.lines[i] == m.lineMatches[i].lineNumber.GetOr(0) &&
            r.value.sourceCode[i] == m.lineMatches[i].line.GetOr(""))
  {
    if |m.lineMatches| == 0 then None
    else Some(EventRecord(
      ExtractEventName(m.lineMatches, broker),
      broker,
      m.path.GetOr(""),
      m.repository.GetOr(""),
      MapSeq(m.lineMatches, (lm: LineMatch) => lm.lineNumber.GetOr(0)),
      MapSeq(m.lineMatches, LineOf)))
  }

  // ---------------------------------------------------------------- deduplication

  /** Records are identified by (name, broker). */
  function Key(e: EventRecord): (string, string) { (e.name, e.broker) }

  /** `_deduplicate_events`: keeps the first record of every (name, broker)
      pair, in input order. */
  method DeduplicateEvents(events: seq<EventRecord>) returns (unique: seq<EventRecord>)
    ensures unique == DedupBy(events, Key)
    ensures NoDups(MapSeq(unique, Key))
    ensures forall k :: k in MapSeq(unique, Key) <==> k in MapSeq(events, Key)
    ensures SubSeq(unique, events)
  {
    var seen: set<(string, string)> := {};
    unique := [];
    var i := 0;
    while i < |events|
      invariant 0 <= i <= |events|
      invariant unique == DedupBy(events[..i], Key)
      invariant forall k :: k in seen <==> k in MapSeq(unique, Key)
    {
      assert events[..i + 1][..i] == events[..i];
      var key := Key(events[i]);
      if key !in seen {
        seen := seen + {key};
        MapSnoc(unique, events[i], Key);
        unique := unique + [events[i]];
      }
      i := i + 1;
    }
    assert events[..i] == events;
    DedupByUnique(events, Key);
    DedupBySubSeq(events, Key);
    forall k ensures k in MapSeq(unique, Key) <==> k in MapSeq(events, Key) {
      DedupByKeys(events, Key, k);
    }
  }

  /** Exactly the first record of each (name, broker) pair survives. */
  lemma DedupKeepsFirsts(events: seq<EventRecord>)
    ensures forall j :: 0 <= j < |events| && FirstOfKey(events, Key, j) ==> events[j] in DedupBy(events, Key)
    ensures forall y :: y in DedupBy(events, Key) ==>
      exists j :: 0 <= j < |events| && events[j] == y && FirstOfKey(events, Key, j)
  {
    DedupByKeepsEveryFirst(events, Key);
    DedupByKeepsOnlyFirst(events, Key);
  }

  /** Deduplicating twice is deduplicating once. */
  lemma DedupIdempotent(events: seq<EventRecord>)
    ensures DedupBy(DedupBy(events, Key), Key) == DedupBy(events, Key)
  {
    DedupByIdempotent(events, Key);
  }

  /** Two hits naming the same event for the same broker collapse to the
      first; the same name under two brokers stays as two records. */
  lemma DedupPairs(a: EventRecord, b: EventRecord)
    ensures a.name == b.name && a.broker == b.broker ==> DedupBy([a, b], Key) == [a]
    ensures a.broker != b.broker ==> DedupBy([a, b], Key) == [a, b]
  {
    assert [a, b][..1] == [a];
    assert [a][..0] == [];
    assert DedupBy([a], Key) == [a];
    assert MapSeq([a], Key) == [Key(a)];
  }

  // ---------------------------------------------------------------- detection

  /** The records parsed from the hits of one query, hits without lines
      dropped. */
  function ParsedEvents(ms: seq<SearchMatch>, broker: string): (es: seq<EventRecord>)
    ensures forall e :: e in es ==> e.broker == broker
    ensures forall e :: e in es ==> exists m :: m in ms && ParseEvent(m, broker) == Some(e)
    ensures forall m :: m in ms && |m.lineMatches| > 0 ==> ParseEvent(m, broker).value in es
    decreases |ms|
  {
    if |ms| == 0 then []
    else
      var rest := ParsedEvents(ms[1..], broker);
      assert forall m :: m in ms[1..] ==> m in ms;
      match ParseEvent(ms[0], broker)
      case None => rest
      case Some(e) => [e] + rest
  }

  /** The records from every pattern of one broker category. */
  function PatternEvents(search: Search, repo: string, broker: string, patterns: seq<string>): (es: seq<EventRecord>)
    ensures forall e :: e in es ==> e.broker == broker
    decreases |patterns|
  {
    if |patterns| == 0 then []
    else ParsedEvents(search(patterns[0], repo), broker) + PatternEvents(search, repo, broker, patterns[1..])
  }

  /** The records from every category of a library, in library order. */
  function LibraryEvents(search: Search, repo: string, lib: seq<(string, seq<string>)>): (es: seq<EventRecord>)
    ensures forall e :: e in es ==> e.broker in Brokers(lib)
    decreases |lib|
  {
    if |lib| == 0 then []
    else
      var rest := LibraryEvents(search, repo, lib[1..]);
      assert forall i :: 0 <= i < |lib[1..]| ==> lib[1..][i] == lib[i + 1];
      assert Brokers(lib) == {lib[0].0} + Brokers(lib[1..]);
      PatternEvents(search, repo, lib[0].0, lib[0].1) + rest
  }

  /** The broker categories of a library. */
  function Brokers(lib: seq<(string, seq<string>)>): set<string>
  {
    set i | 0 <= i < |lib| :: lib[i].0
  }

  /** The six categories of the pattern library. */
  lemma LibraryBrokers()
    ensures Brokers(PatternLibrary) == {"kafka", "rabbitmq", "aws", "pubsub", "azure", "generic"}
  {
    var lib := PatternLibrary;
    assert lib[0].0 == "kafka" && lib[1].0 == "rabbitmq" && lib[2].0 == "aws";
    assert lib[3].0 == "pubsub" && lib[4].0 == "azure" && lib[5].0 == "generic";
  }

  /** `detect_events`: every query of the library against `repo`, then
      deduplication. The result has one record per (name, broker) pair found,
      each from one of the six broker categories. */
  method DetectEvents(search: Search, repo: string) returns (events: seq<EventRecord>)
    ensures events == DedupBy(LibraryEvents(search, repo, PatternLibrary), Key)
    ensures NoDups(MapSeq(events, Key))
    ensures forall k :: k in MapSeq(events, Key) <==> k in MapSeq(LibraryEvents(search, repo, PatternLibrary), Key)
    ensures forall e :: e in events ==> e.broker in Brokers(PatternLibrary)
  {
    events := DetectWith(search, repo, PatternLibrary);
  }

  /** `detect_events` over any pattern library. */
  method DetectWith(search: Search, repo: string, lib: seq<(string, seq<string>)>) returns (events: seq<EventRecord>)
    ensures events == DedupBy(LibraryEvents(search, repo, lib), Key)
    ensures NoDups(MapSeq(events, Key))
    ensures forall k :: k in MapSeq(events, Key) <==> k in MapSeq(LibraryEvents(search, repo, lib), Key)
    ensures forall e :: e in events ==> e.broker in Brokers(lib)
  {
    var found := LibraryEvents(search, repo, lib);
    events := DeduplicateEvents(found);
    SubSeqMembers(events, found);
  }

  /** A repository where no query finds anything has no events. */
  lemma NothingFoundNoEvents(search: Search, repo: string, lib: seq<(string, seq<string>)>)
    requires forall q :: |search(q, repo)| == 0
    ensures LibraryEvents(search, repo, lib) == []
  {
    if |lib| > 0 {
      assert PatternEvents(search, repo, lib[0].0, lib[0].1) == [] by {
        PatternEventsEmpty(search, repo, lib[0].0, lib[0].1);
      }
      NothingFoundNoEvents(search, repo, lib[1..]);
    }
  }

  lemma PatternEventsEmpty(search: Search, repo: string, broker: string, patterns: seq<string>)
    requires forall q :: |search(q, repo)| == 0
    ensures PatternEvents(search, repo, broker, patterns) == []
  {
  }
}
