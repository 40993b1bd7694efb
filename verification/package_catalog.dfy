/** The package's catalog manager, without its file system: the file names
    specifications are saved under, the catalog index, the discovery report
    and the lines of the text summary. */
module PackageCatalog {
  import opened Wrappers
  import opened Text
  import opened Seqs
  import opened Dicts
  import opened StrOrder
  import AsyncApiGenerator

  // ---------------------------------------------------------------- file names

  predicate IsSeparator(c: char) { c == '/' || c == '\\' || c == ' ' }

  /** What `_sanitize_filename`'s filter keeps: `isalnum()` or `_` or `-`. */
  predicate IsKept(c: char) { IsAlnum(c) || c == '_' || c == '-' }

  /** A character a sanitised file name may hold. */
  predicate IsFileChar(c: char) { IsLower(c) || IsDigit(c) || c == '_' || c == '-' }

  /** `''.join(c for c in s if c.isalnum() or c in ('_', '-'))`. */
  function KeepSafe(s: string): string
    decreases |s|
  {
    if |s| == 0 then ""
    else KeepSafe(s[..|s| - 1]) + (if IsKept(s[|s| - 1]) then [s[|s| - 1]] else "")
  }

  /** The three replacements of `_sanitize_filename`. */
  function Separated(name: string): string
  {
    Replace(Replace(Replace(name, '/', '_'), '\\', '_'), ' ', '_')
  }

  /** `_sanitize_filename`: separators become `_`, other characters outside
      the kept set are dropped, and the result is lower-cased. */
  function SanitizeFilename(name: string): string
  {
    Lower(KeepSafe(Separated(name)))
  }

  /** What one input character contributes to the file name. */
  function CharImage(c: char): string
  {
    if IsSeparator(c) then "_" else if IsKept(c) then [ToLower(c)] else ""
  }

  /** The file name built character by character: a reference definition. */
  function PerChar(s: string): string
    decreases |s|
  {
    if |s| == 0 then "" else PerChar(s[..|s| - 1]) + CharImage(s[|s| - 1])
  }

  lemma LowerAppend(a: string, b: string)
    ensures Lower(a + b) == Lower(a) + Lower(b)
  {
  }

  /** The three passes of `_sanitize_filename` amount to mapping each
      character on its own. */
  lemma {:induction false} SanitizeFilenamePerChar(name: string)
    ensures SanitizeFilename(name) == PerChar(name)
    decreases |name|
  {
    if |name| > 0 {
      var s, c := name[..|name| - 1], name[|name| - 1];
      SanitizeFilenamePerChar(s);
      var sep := if IsSeparator(c) then '_' else c;
      assert Separated(name) == Separated(s) + [sep];
      assert Separated(name)[..|name| - 1] == Separated(s);
      var tail := if IsKept(sep) then [sep] else "";
      assert KeepSafe(Separated(name)) == KeepSafe(Separated(s)) + tail;
      LowerAppend(KeepSafe(Separated(s)), tail);
      assert Lower(tail) == CharImage(c);
    }
  }

  lemma {:induction false} PerCharAppend(a: string, b: string)
    ensures PerChar(a + b) == PerChar(a) + PerChar(b)
    decreases |b|
  {
    if |b| == 0 {
      assert a + b == a;
    } else {
      var b', c := b[..|b| - 1], b[|b| - 1];
      assert PerChar(a + b) == PerChar(a + b') + CharImage(c) by {
        assert (a + b)[..|a + b| - 1] == a + b';
        assert (a + b)[|a + b| - 1] == c;
      }
      assert PerChar(a + b') == PerChar(a) + PerChar(b') by { PerCharAppend(a, b'); }
      assert PerChar(b) == PerChar(b') + CharImage(c);
    }
  }

  /** A run of kept characters, none of them a separator, is lower-cased. */
  lemma {:induction false} PerCharKept(s: string)
    requires forall i :: 0 <= i < |s| ==> IsKept(s[i]) && !IsSeparator(s[i])
    ensures PerChar(s) == Lower(s)
    decreases |s|
  {
    if |s| > 0 {
      PerCharKept(s[..|s| - 1]);
      assert Lower(s) == Lower(s[..|s| - 1]) + [ToLower(s[|s| - 1])];
    }
  }

  /** A separator between two parts becomes `_`; any other dropped
      character between them disappears. */
  lemma PerCharAround(u: string, c: char, v: string)
    ensures PerChar(u + [c] + v) == PerChar(u) + CharImage(c) + PerChar(v)
  {
    PerCharAppend(u + [c], v);
    assert (u + [c])[..|u + [c]| - 1] == u;
  }

  /** A file name is made only of lower-case letters, digits, `_` and `-`. */
  lemma {:induction false} SanitizeFilenameChars(name: string)
    ensures forall i :: 0 <= i < |SanitizeFilename(name)| ==> IsFileChar(SanitizeFilename(name)[i])
    decreases |name|
  {
    SanitizeFilenamePerChar(name);
    PerCharChars(name);
  }

  lemma {:induction false} PerCharChars(s: string)
    ensures forall i :: 0 <= i < |PerChar(s)| ==> IsFileChar(PerChar(s)[i])
    decreases |s|
  {
    if |s| > 0 {
      PerCharChars(s[..|s| - 1]);
      var c := s[|s| - 1];
      assert forall i :: 0 <= i < |CharImage(c)| ==> IsFileChar(CharImage(c)[i]);
    }
  }

  /** Text made only of file-name characters is its own file name. */
  lemma {:induction false} PerCharFixed(s: string)
    requires forall i :: 0 <= i < |s| ==> IsFileChar(s[i])
    ensures PerChar(s) == s
    decreases |s|
  {
    if |s| > 0 {
      PerCharFixed(s[..|s| - 1]);
      assert CharImage(s[|s| - 1]) == [s[|s| - 1]];
    }
  }

  /** Sanitising a file name again changes nothing. */
  lemma SanitizeFilenameIdempotent(name: string)
    ensures SanitizeFilename(SanitizeFilename(name)) == SanitizeFilename(name)
  {
    var f := SanitizeFilename(name);
    SanitizeFilenameChars(name);
    SanitizeFilenamePerChar(f);
    PerCharFixed(f);
  }

  /** Parts joined by `.` and `/`: the dot goes and the slashes become `_`. */
  lemma PerCharJoinedPath(p1: string, p2: string, p3: string, p4: string)
    ensures PerChar(p1 + ['.'] + p2 + ['/'] + p3 + ['/'] + p4) ==
              PerChar(p1) + PerChar(p2) + "_" + PerChar(p3) + "_" + PerChar(p4)
  {
    var a := p1 + ['.'] + p2;
    var b := a + ['/'] + p3;
    assert PerChar(a) == PerChar(p1) + PerChar(p2) by {
      PerCharAround(p1, '.', p2);
      assert CharImage('.') == "";
    }
    assert PerChar(b) == PerChar(a) + "_" + PerChar(p3) by {
      PerCharAround(a, '/', p3);
      assert CharImage('/') == "_";
    }
    assert PerChar(b + ['/'] + p4) == PerChar(b) + "_" + PerChar(p4) by {
      PerCharAround(b, '/', p4);
      assert CharImage('/') == "_";
    }
  }

  /** A repository path `host.tld/owner/name` whose parts are already
      file-name text becomes `hosttld_owner_name`. */
  lemma SanitizeRepositoryPath(p1: string, p2: string, p3: string, p4: string)
    requires forall i :: 0 <= i < |p1| ==> IsFileChar(p1[i])
    requires forall i :: 0 <= i < |p2| ==> IsFileChar(p2[i])
    requires forall i :: 0 <= i < |p3| ==> IsFileChar(p3[i])
    requires forall i :: 0 <= i < |p4| ==> IsFileChar(p4[i])
    ensures SanitizeFilename(p1 + ['.'] + p2 + ['/'] + p3 + ['/'] + p4) == p1 + p2 + "_" + p3 + "_" + p4
  {
    SanitizeFilenamePerChar(p1 + ['.'] + p2 + ['/'] + p3 + ['/'] + p4);
    PerCharJoinedPath(p1, p2, p3, p4);
    assert PerChar(p1) == p1 by { PerCharFixed(p1); }
    assert PerChar(p2) == p2 by { PerCharFixed(p2); }
    assert PerChar(p3) == p3 by { PerCharFixed(p3); }
    assert PerChar(p4) == p4 by { PerCharFixed(p4); }
  }

  /** Two words joined by a separator or `_`: the join becomes `_` and the
      words are lower-cased. */
  lemma PerCharTwoWords(u: string, c: char, v: string)
    requires forall i :: 0 <= i < |u| ==> IsKept(u[i]) && !IsSeparator(u[i])
    requires forall i :: 0 <= i < |v| ==> IsKept(v[i]) && !IsSeparator(v[i])
    requires IsSeparator(c) || c == '_'
    ensures PerChar(u + [c] + v) == Lower(u) + "_" + Lower(v)
  {
    assert PerChar(u) == Lower(u) by { PerCharKept(u); }
    assert PerChar(v) == Lower(v) by { PerCharKept(v); }
    assert PerChar(u + [c] + v) == PerChar(u) + CharImage(c) + PerChar(v) by { PerCharAround(u, c, v); }
    assert CharImage(c) == "_";
  }

  /** Text the sanitiser keeps character by character, with no separator. */
  predicate PlainWord(w: string)
  {
    forall i :: 0 <= i < |w| ==> IsKept(w[i]) && !IsSeparator(w[i])
  }

  /** The words of the clashing service names are plain. */
  lemma ClashWordsPlain()
    ensures PlainWord(['P'] + "ayment") && PlainWord(['S'] + "ervice")
    ensures PlainWord(['p'] + "ayment") && PlainWord(['s'] + "ervice")
  {
  }

  /** Two-word names that differ only in the case of each word's first
      letter and in a space against an underscore share a file name. */
  lemma CaseAndSeparatorClash(a: char, b: char, x: string, c: char, d: char, y: string)
    requires PlainWord([a] + x) && PlainWord([b] + x) && PlainWord([c] + y) && PlainWord([d] + y)
    requires ToLower(a) == ToLower(b) && ToLower(c) == ToLower(d)
    ensures SanitizeFilename([a] + x + [' '] + [c] + y) == SanitizeFilename([b] + x + ['_'] + [d] + y)
  {
    assert [a] + x + [' '] + [c] + y == ([a] + x) + [' '] + ([c] + y);
    assert [b] + x + ['_'] + [d] + y == ([b] + x) + ['_'] + ([d] + y);
    TwoWordFilename([a] + x, ' ', [c] + y);
    TwoWordFilename([b] + x, '_', [d] + y);
    LowerFirstCase(a, b, x);
    LowerFirstCase(c, d, y);
  }

  /** Two words joined by a space or an underscore give the lower-cased
      words joined by `_`. */
  lemma TwoWordFilename(u: string, c: char, v: string)
    requires PlainWord(u) && PlainWord(v)
    requires IsSeparator(c) || c == '_'
    ensures SanitizeFilename(u + [c] + v) == Lower(u) + "_" + Lower(v)
  {
    SanitizeFilenamePerChar(u + [c] + v);
    PerCharTwoWords(u, c, v);
  }

  /** Different service names can share files: the later save overwrites
      the earlier one. */
  lemma SanitizeFilenameClash()
    ensures "Payment Service" != "payment_service"
    ensures SanitizeFilename("Payment Service") == SanitizeFilename("payment_service")
  {
    assert "Payment Service"[0] != "payment_service"[0];
    ClashWordsPlain();
    assert "Payment Service" == ['P'] + "ayment" + [' '] + ['S'] + "ervice";
    assert "payment_service" == ['p'] + "ayment" + ['_'] + ['s'] + "ervice";
    CaseAndSeparatorClash('P', 'p', "ayment", 'S', 's', "ervice");
  }

  /** Words differing only in the case of their first letter lower-case
      alike. */
  lemma LowerFirstCase(c: char, d: char, w: string)
    requires ToLower(c) == ToLower(d)
    ensures Lower([c] + w) == Lower([d] + w)
  {
  }

  // ---------------------------------------------------------------- index

  /** The parts of a specification the index reads: the string entries of
      `info` and the keys of `channels`, `operations` and `servers`, each
      possibly missing. */
  datatype SpecDoc = SpecDoc(info: Option<Dict<string, string>>, channels: Option<seq<string>>,
                             operations: Option<seq<string>>, servers: Option<seq<string>>)

  datatype ServiceSpec = ServiceSpec(service: string, spec: SpecDoc)

  datatype SpecFiles = SpecFiles(yaml: string, json: string)

  datatype IndexEntry = IndexEntry(name: string, version: string, title: string,
                                   channelCount: nat, operationCount: nat,
                                   brokers: seq<string>, specFiles: SpecFiles)

  datatype CatalogIndex = CatalogIndex(generated: string, totalServices: nat, services: seq<IndexEntry>)

  /** The files `_save_spec` writes, relative to the `specs` directory. */
  function SavedFiles(service: string): SpecFiles
  {
    SpecFiles(SanitizeFilename(service) + ".yaml", SanitizeFilename(service) + ".json")
  }

  /** One entry of `_save_catalog_index`. */
  function EntryFor(s: ServiceSpec): IndexEntry
  {
    var info := s.spec.info.GetOr([]);
    IndexEntry(s.service,
               Get(info, "version").GetOr("1.0.0"),
               Get(info, "title").GetOr(""),
               |s.spec.channels.GetOr([])|,
               |s.spec.operations.GetOr([])|,
               s.spec.servers.GetOr([]),
               SpecFiles("specs/" + SanitizeFilename(s.service) + ".yaml",
                         "specs/" + SanitizeFilename(s.service) + ".json"))
  }

  /** `_save_catalog_index`, before serialisation; the clock reading is a
      parameter. */
  function MakeIndex(specs: seq<ServiceSpec>, generated: string): (idx: CatalogIndex)
    ensures idx.totalServices == |specs| == |idx.services|
    ensures forall i :: 0 <= i < |specs| ==> idx.services[i].name == specs[i].service
  {
    CatalogIndex(generated, |specs|, MapSeq(specs, EntryFor))
  }

  /** The index points at exactly the files the specification was saved
      to, and its file names hold only file-name characters. */
  lemma IndexFilesAreSaved(specs: seq<ServiceSpec>, i: nat)
    requires i < |specs|
    ensures MakeIndex(specs, "").services[i].specFiles.yaml == "specs/" + SavedFiles(specs[i].service).yaml
    ensures MakeIndex(specs, "").services[i].specFiles.json == "specs/" + SavedFiles(specs[i].service).json
    ensures forall k :: 0 <= k < |SanitizeFilename(specs[i].service)| ==> IsFileChar(SanitizeFilename(specs[i].service)[k])
  {
    SanitizeFilenameChars(specs[i].service);
  }

  /** The view of a 3.0 specification that the index reads. */
  function DocOf(spec: AsyncApiGenerator.Spec): SpecDoc
  {
    SpecDoc(Some([("title", spec.info.title), ("version", spec.info.version)]),
            Some(Keys(spec.channels)), Some(Keys(spec.operations)), Some(Keys(spec.servers)))
  }

  /** The parts of a successful 3.0 generation. */
  lemma GeneratedParts(service: string, events: seq<AsyncApiGenerator.Event>, version: string, timestamp: string)
    requires AsyncApiGenerator.AllNamed(events)
    ensures AsyncApiGenerator.GenerateSpec(service, events, version, timestamp).Success?
    ensures var spec := AsyncApiGenerator.GenerateSpec(service, events, version, timestamp).value;
            spec.info == AsyncApiGenerator.GenerateInfo(service, events, version, timestamp) &&
            spec.servers == AsyncApiGenerator.GenerateServers(events)
  {
  }

  /** For a generated 3.0 specification the entry carries its title and
      version, counts its channels and operations, and lists its brokers:
      the distinct brokers of its events, in order of first appearance. */
  lemma EntryOfGenerated(service: string, events: seq<AsyncApiGenerator.Event>, version: string, timestamp: string)
    requires AsyncApiGenerator.AllNamed(events)
    ensures AsyncApiGenerator.GenerateSpec(service, events, version, timestamp).Success?
    ensures var spec := AsyncApiGenerator.GenerateSpec(service, events, version, timestamp).value;
            var entry := EntryFor(ServiceSpec(service, DocOf(spec)));
            entry.title == service + " Event API" && entry.version == version &&
            entry.channelCount == |spec.channels| && entry.operationCount == |spec.operations| &&
            entry.brokers == Distinct(MapSeq(events, AsyncApiGenerator.BrokerOf))
  {
    GeneratedParts(service, events, version, timestamp);
    var spec := AsyncApiGenerator.GenerateSpec(service, events, version, timestamp).value;
    AsyncApiGenerator.ServersOf(events, "");
    EntryOfDoc(service, spec);
  }

  lemma EntryOfDoc(service: string, spec: AsyncApiGenerator.Spec)
    ensures var entry := EntryFor(ServiceSpec(service, DocOf(spec)));
            entry.title == spec.info.title && entry.version == spec.info.version &&
            entry.channelCount == |spec.channels| && entry.operationCount == |spec.operations| &&
            entry.brokers == Keys(spec.servers)
  {
    var info: Dict<string, string> := [("title", spec.info.title), ("version", spec.info.version)];
    assert "title" != "version";
    GetAt(info, 1);
  }

  // ---------------------------------------------------------------- report

  /** The event keys the report reads. */
  datatype ReportEvent = ReportEvent(broker: Option<string>, framework: Option<string>, repository: Option<string>)

  function BrokerTag(e: ReportEvent): string { e.broker.GetOr("unknown") }
  function FrameworkTag(e: ReportEvent): string { e.framework.GetOr("unknown") }
  function RepoOf(e: ReportEvent): string { e.repository.GetOr("") }

  datatype Report = Report(timestamp: string, totalEvents: nat, totalServices: nat, totalRepositories: nat,
                           brokers: Dict<string, nat>, frameworks: Dict<string, nat>,
                           repositories: seq<string>, outputDirectory: string)

  /** The repositories the loop adds: every non-empty one, repeats kept. */
  function NonEmptyRepos(events: seq<ReportEvent>): seq<string>
    decreases |events|
  {
    if |events| == 0 then []
    else
      var r := RepoOf(events[|events| - 1]);
      NonEmptyRepos(events[..|events| - 1]) + (if r != "" then [r] else [])
  }

  /** `generate_report`, before it is written; clock and output directory
      are parameters, and only the number of specifications is read. */
  function GenerateReport(events: seq<ReportEvent>, specCount: nat, timestamp: string, outputDir: string): Report
  {
    var repos := NonEmptyRepos(events);
    Report(timestamp, |events|, specCount, |set r | r in repos|,
           CountBy(events, BrokerTag), CountBy(events, FrameworkTag),
           SortedSet(repos), outputDir)
  }

  lemma {:induction false} NonEmptyReposMembers(events: seq<ReportEvent>, r: string)
    ensures r in NonEmptyRepos(events) <==> r != "" && exists i :: 0 <= i < |events| && RepoOf(events[i]) == r
    decreases |events|
  {
    if |events| > 0 {
      var es := events[..|events| - 1];
      NonEmptyReposMembers(es, r);
      if r in NonEmptyRepos(es) {
        var i :| 0 <= i < |es| && RepoOf(es[i]) == r;
        assert events[i] == es[i];
      }
      if exists i :: 0 <= i < |events| && RepoOf(events[i]) == r {
        var i :| 0 <= i < |events| && RepoOf(events[i]) == r;
        if i < |es| { assert es[i] == events[i]; }
      }
    }
  }

  /** Each broker's and each framework's count is the number of events
      with that tag, and each family of counts adds up to the number of
      events. */
  lemma ReportCounts(events: seq<ReportEvent>, specCount: nat, timestamp: string, outputDir: string, tag: string)
    ensures Get(GenerateReport(events, specCount, timestamp, outputDir).brokers, tag).GetOr(0) == |WithKey(events, BrokerTag, tag)|
    ensures Get(GenerateReport(events, specCount, timestamp, outputDir).frameworks, tag).GetOr(0) == |WithKey(events, FrameworkTag, tag)|
    ensures SumValues(GenerateReport(events, specCount, timestamp, outputDir).brokers) == |events|
    ensures SumValues(GenerateReport(events, specCount, timestamp, outputDir).frameworks) == |events|
    ensures GenerateReport(events, specCount, timestamp, outputDir).totalEvents == |events|
  {
    CountByGet(events, BrokerTag, tag);
    CountByGet(events, FrameworkTag, tag);
    CountBySum(events, BrokerTag);
    CountBySum(events, FrameworkTag);
  }

  /** The repository list is sorted, has no repeats and no empty name, and
      holds exactly the non-empty repositories of the events; its length is
      the repository total. */
  lemma ReportRepositories(events: seq<ReportEvent>, specCount: nat, timestamp: string, outputDir: string, r: string)
    ensures StrictlySorted(GenerateReport(events, specCount, timestamp, outputDir).repositories)
    ensures NoDups(GenerateReport(events, specCount, timestamp, outputDir).repositories)
    ensures "" !in GenerateReport(events, specCount, timestamp, outputDir).repositories
    ensures r in GenerateReport(events, specCount, timestamp, outputDir).repositories <==>
              r != "" && exists i :: 0 <= i < |events| && RepoOf(events[i]) == r
    ensures GenerateReport(events, specCount, timestamp, outputDir).totalRepositories ==
              |GenerateReport(events, specCount, timestamp, outputDir).repositories|
  {
    var repos := NonEmptyRepos(events);
    var sorted := SortedSet(repos);
    StrictlySortedNoDups(sorted);
    NonEmptyReposMembers(events, r);
    NonEmptyReposMembers(events, "");
    NoDupsCardinality(sorted);
    assert (set x | x in sorted) == (set x | x in repos);
  }

  // ---------------------------------------------------------------- summary

  function Rule(): string { seq(80, _ => '=') }

  function CountLine(d: Dict<string, nat>, k: string): string
  {
    "  " + k + ": " + NatToString(Get(d, k).GetOr(0)) + " events"
  }

  /** One line per key in ascending key order: `sorted(d.items())`, whose
      keys are unique. */
  function CountLines(d: Dict<string, nat>): seq<string>
  {
    var ks := SortedSet(Keys(d));
    seq(|ks|, i requires 0 <= i < |ks| => CountLine(d, ks[i]))
  }

  /** `_save_text_summary`'s lines, before they are joined and written. */
  function SummaryLines(r: Report): seq<string>
  {
    [Rule(), "AsyncAPI Discovery Summary", Rule(), "",
     "Generated: " + r.timestamp, "",
     "Overview:",
     "  Total Events Discovered: " + NatToString(r.totalEvents),
     "  Total Services: " + NatToString(r.totalServices),
     "  Total Repositories: " + NatToString(r.totalRepositories),
     "",
     "Message Brokers:"]
    + CountLines(r.brokers)
    + ["", "Frameworks:"]
    + CountLines(r.frameworks)
    + ["", "Output Location:", "  " + r.outputDirectory, "",
       "Generated Files:",
       "  - " + NatToString(r.totalServices) + " AsyncAPI specifications",
       "  - Catalog index: catalog-index.json",
       "  - Discovery reports in reports/",
       "",
       Rule()]
  }

  /** Where the count lines sit among the summary lines. */
  lemma SummaryLayout(r: Report)
    ensures var bs := SortedSet(Keys(r.brokers));
            var fs := SortedSet(Keys(r.frameworks));
            |SummaryLines(r)| == 24 + |bs| + |fs| &&
            (forall i :: 0 <= i < |bs| ==> SummaryLines(r)[12 + i] == CountLine(r.brokers, bs[i])) &&
            (forall i :: 0 <= i < |fs| ==> SummaryLines(r)[14 + |bs| + i] == CountLine(r.frameworks, fs[i]))
  {
  }

  /** The count lines of a counted family: its tags in ascending order,
      exactly the tags the events carry, each with its number of events. */
  lemma CountLinesOf(events: seq<ReportEvent>, tag: ReportEvent -> string)
    ensures var ks := SortedSet(Keys(CountBy(events, tag)));
            StrictlySorted(ks) &&
            (forall k :: k in ks <==> k in MapSeq(events, tag)) &&
            forall i :: 0 <= i < |ks| ==>
              CountLine(CountBy(events, tag), ks[i]) == "  " + ks[i] + ": " + NatToString(|WithKey(events, tag, ks[i])|) + " events"
  {
    var ks := SortedSet(Keys(CountBy(events, tag)));
    CountByKeys(events, tag);
    forall k ensures k in ks <==> k in MapSeq(events, tag) {
      DistinctMember(MapSeq(events, tag), k);
    }
    forall i | 0 <= i < |ks| ensures
        CountLine(CountBy(events, tag), ks[i]) == "  " + ks[i] + ": " + NatToString(|WithKey(events, tag, ks[i])|) + " events" {
      CountByGet(events, tag, ks[i]);
    }
  }

  /** The broker lines follow the header, one per broker in ascending
      order, each giving that broker's event count; then come the framework
      lines, likewise. */
  lemma SummaryCounts(events: seq<ReportEvent>, specCount: nat, timestamp: string, outputDir: string)
    ensures var r := GenerateReport(events, specCount, timestamp, outputDir);
            var bs := SortedSet(Keys(r.brokers));
            var fs := SortedSet(Keys(r.frameworks));
            StrictlySorted(bs) && StrictlySorted(fs) &&
            (forall k :: k in bs <==> k in MapSeq(events, BrokerTag)) &&
            (forall k :: k in fs <==> k in MapSeq(events, FrameworkTag)) &&
            |SummaryLines(r)| == 24 + |bs| + |fs| &&
            (forall i :: 0 <= i < |bs| ==>
              SummaryLines(r)[12 + i] == "  " + bs[i] + ": " + NatToString(|WithKey(events, BrokerTag, bs[i])|) + " events") &&
            (forall i :: 0 <= i < |fs| ==>
              SummaryLines(r)[14 + |bs| + i] == "  " + fs[i] + ": " + NatToString(|WithKey(events, FrameworkTag, fs[i])|) + " events")
  {
    var r := GenerateReport(events, specCount, timestamp, outputDir);
    assert r.brokers == CountBy(events, BrokerTag) && r.frameworks == CountBy(events, FrameworkTag);
    SummaryLayout(r);
    CountLinesOf(events, BrokerTag);
    CountLinesOf(events, FrameworkTag);
  }
}
