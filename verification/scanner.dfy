/** The local repository scanner: it walks the source files of a checkout,
    skips build, test and dependency directories, and reports every call
    `publish(...)`, `send(...)`, `emit(...)` or `produce(...)` whose first
    argument is a string literal. */
module Scanner {
  import opened Wrappers
  import opened Text

  /** A file found under the repository; `content` is `None` when it cannot
      be read or decoded. */
  datatype SourceFile = SourceFile(path: string, content: Option<string>)

  datatype ProducerEvent = ProducerEvent(name: string, file: string, kind: string)

  datatype ScanResult = ScanResult(
    events: seq<ProducerEvent>,
    files: seq<string>,
    totalFilesScanned: nat,
    producersFound: nat)

  const Extensions: seq<string> := [".py", ".js", ".ts", ".java", ".go"]

  const SkipPatterns: seq<string> :=
    ["/test/", "/tests/", "/__pycache__/", "/node_modules/", "/venv/", "/.git/", "/dist/", "/build/"]

  /** The call names searched for, in search order. */
  const Verbs: seq<string> := ["publish", "send", "emit", "produce"]

  // ---------------------------------------------------------------- skipping

  /** `any(p in path for p in patterns)`. */
  predicate ContainsAny(path: string, patterns: seq<string>)
    decreases |patterns|
  {
    |patterns| > 0 && (Contains(path, patterns[0]) || ContainsAny(path, patterns[1..]))
  }

  lemma {:induction false} ContainsAnyIff(path: string, patterns: seq<string>)
    ensures ContainsAny(path, patterns) <==> exists i :: 0 <= i < |patterns| && Contains(path, patterns[i])
    decreases |patterns|
  {
    if |patterns| > 0 {
      ContainsAnyIff(path, patterns[1..]);
      assert forall i :: 0 < i < |patterns| ==> patterns[i] == patterns[1..][i - 1];
      if exists i :: 0 <= i < |patterns| && Contains(path, patterns[i]) {
        var i :| 0 <= i < |patterns| && Contains(path, patterns[i]);
        if i > 0 {
          assert Contains(path, patterns[1..][i - 1]);
        }
      }
    }
  }

  /** `_should_skip`. */
  predicate ShouldSkip(path: string)
  {
    ContainsAny(path, SkipPatterns)
  }

  /** A file anywhere under a test, cache, dependency, VCS or build
      directory is skipped. */
  lemma SkippedUnderDirectory(dir: string, i: nat, file: string)
    requires i < |SkipPatterns|
    ensures ShouldSkip(dir + SkipPatterns[i] + file)
  {
    var path := dir + SkipPatterns[i] + file;
    assert path[|dir|..|dir| + |SkipPatterns[i]|] == SkipPatterns[i];
    ContainsAt(path, SkipPatterns[i], |dir|);
    ContainsAnyIff(path, SkipPatterns);
  }

  /** Only a path with a `/` can be skipped: every pattern starts with one. */
  lemma SkipNeedsSeparator(path: string)
    requires '/' !in path
    ensures !ShouldSkip(path)
  {
    ContainsAnyIff(path, SkipPatterns);
    forall i | 0 <= i < |SkipPatterns| ensures !Contains(path, SkipPatterns[i]) {
      assert SkipPatterns[i][0] == '/';
      NotContainsWithoutFirstChar(path, SkipPatterns[i]);
    }
  }

  // ---------------------------------------------------------------- call matching

  /** The end of the run of whitespace starting at `j`. */
  function SpaceRunEnd(s: string, j: nat): (e: nat)
    requires j <= |s|
    ensures j <= e <= |s|
    ensures forall k :: j <= k < e ==> IsSpace(s[k])
    ensures e == |s| || !IsSpace(s[e])
    decreases |s| - j
  {
    if j == |s| || !IsSpace(s[j]) then j else SpaceRunEnd(s, j + 1)
  }

  /** The end of the run of non-quote characters starting at `j`. */
  function TextRunEnd(s: string, j: nat): (e: nat)
    requires j <= |s|
    ensures j <= e <= |s|
    ensures forall k :: j <= k < e ==> !IsQuote(s[k])
    ensures e == |s| || IsQuote(s[e])
    decreases |s| - j
  {
    if j == |s| || IsQuote(s[j]) then j else TextRunEnd(s, j + 1)
  }

  /** Where the parts of a call match lie: the `(`, the opening quote, the
      argument and the position just past the closing quote. */
  datatype CallMatch = CallMatch(open: nat, quote: nat, name: string, end: nat)

  /** `s` at `p` reads `verb`, optional whitespace, `(`, optional whitespace,
      a quote, one or more non-quote characters, and a quote: a match of
      `verb\s*\(\s*["']([^"']+)["']`. */
  predicate CallShape(s: string, verb: string, p: nat, m: CallMatch)
  {
    && OccursAt(s, verb, p)
    && p + |verb| <= m.open < m.quote
    && m.end == m.quote + |m.name| + 2 <= |s|
    && (forall k :: p + |verb| <= k < m.open ==> IsSpace(s[k]))
    && s[m.open] == '('
    && (forall k :: m.open < k < m.quote ==> IsSpace(s[k]))
    && IsQuote(s[m.quote])
    && |m.name| > 0
    && s[m.quote + 1..m.end - 1] == m.name
    && (forall k :: m.quote < k < m.end - 1 ==> !IsQuote(s[k]))
    && IsQuote(s[m.end - 1])
  }

  /** The regular-expression match attempted at position `p`. */
  function CallMatchAt(s: string, verb: string, p: nat): (r: Option<CallMatch>)
    requires p <= |s|
    ensures r.Some? ==> CallShape(s, verb, p, r.value)
  {
    if !OccursAt(s, verb, p) then None
    else
      var a := SpaceRunEnd(s, p + |verb|);
      if a < |s| && s[a] == '(' then
        var b := SpaceRunEnd(s, a + 1);
        if b < |s| && IsQuote(s[b]) then
          var c := TextRunEnd(s, b + 1);
          if b + 1 < c < |s| then
            RunsMakeCall(s, verb, p, a, b, c);
            Some(CallMatch(a, b, s[b + 1..c], c + 1))
          else None
        else None
      else None
  }

  /** The runs the matcher measures, when they end as it requires, mark
      out a call. */
  lemma RunsMakeCall(s: string, verb: string, p: nat, a: nat, b: nat, c: nat)
    requires OccursAt(s, verb, p)
    requires p + |verb| <= a < |s| && s[a] == '(' && forall k :: p + |verb| <= k < a ==> IsSpace(s[k])
    requires a + 1 <= b < |s| && IsQuote(s[b]) && forall k :: a + 1 <= k < b ==> IsSpace(s[k])
    requires b + 1 < c < |s| && IsQuote(s[c]) && forall k :: b + 1 <= k < c ==> !IsQuote(s[k])
    ensures CallShape(s, verb, p, CallMatch(a, b, s[b + 1..c], c + 1))
  {
  }

  lemma {:induction false} SpaceRunEndAt(s: string, j: nat, e: nat)
    requires j <= e < |s|
    requires forall k :: j <= k < e ==> IsSpace(s[k])
    requires !IsSpace(s[e])
    ensures SpaceRunEnd(s, j) == e
    decreases e - j
  {
    if j < e {
      SpaceRunEndAt(s, j + 1, e);
    }
  }

  lemma {:induction false} TextRunEndAt(s: string, j: nat, e: nat)
    requires j <= e < |s|
    requires forall k :: j <= k < e ==> !IsQuote(s[k])
    requires IsQuote(s[e])
    ensures TextRunEnd(s, j) == e
    decreases e - j
  {
    if j < e {
      TextRunEndAt(s, j + 1, e);
    }
  }

  /** The runs the matcher measures end where the call's parts say. */
  lemma CallRuns(s: string, verb: string, p: nat, m: CallMatch)
    requires p <= |s| && CallShape(s, verb, p, m)
    ensures SpaceRunEnd(s, p + |verb|) == m.open && s[m.open] == '('
    ensures SpaceRunEnd(s, m.open + 1) == m.quote && IsQuote(s[m.quote])
    ensures TextRunEnd(s, m.quote + 1) == m.end - 1 && m.quote + 1 < m.end - 1 < |s|
  {
    assert !IsSpace(s[m.open]) by { NotSpace(s[m.open]); }
    SpaceRunEndAt(s, p + |verb|, m.open);
    assert !IsSpace(s[m.quote]) by { NotSpace(s[m.quote]); }
    SpaceRunEndAt(s, m.open + 1, m.quote);
    TextRunEndAt(s, m.quote + 1, m.end - 1);
  }

  /** The matcher finds a call exactly where the text has the call's shape. */
  lemma CallMatchComplete(s: string, verb: string, p: nat, m: CallMatch)
    requires p <= |s| && CallShape(s, verb, p, m)
    ensures CallMatchAt(s, verb, p) == Some(m)
  {
    CallRuns(s, verb, p, m);
    assert s[m.quote + 1..m.end - 1] == m.name;
  }

  /** Parentheses and quotes are not whitespace. */
  lemma NotSpace(c: char)
    requires c == '(' || IsQuote(c)
    ensures !IsSpace(c)
  {
  }

  /** All matches of the call pattern from position `p` on, left to right and
      without overlap, as `re.finditer` reports them. */
  function CallsFrom(s: string, verb: string, p: nat): (names: seq<string>)
    requires p <= |s|
    ensures forall k :: 0 <= k < |names| ==> |names[k]| > 0 && '"' !in names[k] && '\'' !in names[k]
    decreases |s| - p
  {
    if p == |s| then []
    else match CallMatchAt(s, verb, p)
      case Some(m) =>
        assert forall k :: 0 <= k < |m.name| ==> m.name[k] == s[m.quote + 1 + k];
        [m.name] + CallsFrom(s, verb, m.end)
      case None => CallsFrom(s, verb, p + 1)
  }

  /** Every name reported stands in a call of `verb` in the text. */
  lemma {:induction false} CallsFromSound(s: string, verb: string, p: nat, k: nat)
    requires p <= |s| && k < |CallsFrom(s, verb, p)|
    ensures exists q: nat, m :: p <= q <= |s| && CallShape(s, verb, q, m) && m.name == CallsFrom(s, verb, p)[k]
    decreases |s| - p
  {
    match CallMatchAt(s, verb, p)
    case Some(m) =>
      if k > 0 {
        CallsFromSound(s, verb, m.end, k - 1);
      } else {
        assert CallShape(s, verb, p, m);
      }
    case None =>
      CallsFromSound(s, verb, p + 1, k);
  }

  /** The events of one readable file: the calls of each verb in turn. */
  function VerbEvents(content: string, path: string, verbs: seq<string>): seq<ProducerEvent>
    decreases |verbs|
  {
    if |verbs| == 0 then []
    else
      var names := CallsFrom(content, verbs[0], 0);
      seq(|names|, k requires 0 <= k < |names| => ProducerEvent(names[k], path, "producer"))
        + VerbEvents(content, path, verbs[1..])
  }

  /** `_scan_file`: nothing for a file that cannot be read. */
  function ScanFile(f: SourceFile): (es: seq<ProducerEvent>)
    ensures f.content.None? ==> es == []
  {
    match f.content
    case None => []
    case Some(text) => VerbEvents(text, f.path, Verbs)
  }

  /** Each event of a file names the file, is a producer, and carries a
      non-empty name without quotes. */
  lemma {:induction false} VerbEventsShape(content: string, path: string, verbs: seq<string>)
    ensures forall e :: e in VerbEvents(content, path, verbs) ==>
      e.file == path && e.kind == "producer" && |e.name| > 0 && '"' !in e.name && '\'' !in e.name
    decreases |verbs|
  {
    if |verbs| > 0 {
      VerbEventsShape(content, path, verbs[1..]);
    }
  }

  lemma ScanFileShape(f: SourceFile)
    ensures forall e :: e in ScanFile(f) ==>
      e.file == f.path && e.kind == "producer" && |e.name| > 0 && '"' !in e.name && '\'' !in e.name
  {
    if f.content.Some? {
      VerbEventsShape(f.content.value, f.path, Verbs);
    }
  }

  /** A file holding just `publish("user.created")` reports `user.created`
      first. */
  lemma PublishCallReported(path: string)
    ensures var es := ScanFile(SourceFile(path, Some("publish(\"user.created\")")));
      |es| > 0 && es[0] == ProducerEvent("user.created", path, "producer")
  {
    var s := "publish(\"user.created\")";
    assert |CallsFrom(s, "publish", 0)| > 0 && CallsFrom(s, "publish", 0)[0] == "user.created" by {
      PublishCallFound();
    }
    assert Verbs[0] == "publish";
  }

  /** The call pattern of `publish` matches that text at its start. */
  lemma PublishCallFound()
    ensures var s := "publish(\"user.created\")";
      |CallsFrom(s, "publish", 0)| > 0 && CallsFrom(s, "publish", 0)[0] == "user.created"
  {
    var s := "publish(\"user.created\")";
    var m := CallMatch(7, 8, "user.created", 22);
    PublishCallShape();
    CallMatchComplete(s, "publish", 0, m);
  }

  lemma PublishCallShape()
    ensures CallShape("publish(\"user.created\")", "publish", 0, CallMatch(7, 8, "user.created", 22))
  {
    assert "publish(\"user.created\")" == "publish" + ['('] + ['"'] + "user.created" + ['"'] + [')'];
    SimpleCallShape("publish", '"', "user.created", [')']);
  }

  /** A text starting `verb("name"` has the call's shape at its start. */
  lemma SimpleCallShape(verb: string, q: char, name: string, rest: string)
    requires IsQuote(q) && |name| > 0 && forall k :: 0 <= k < |name| ==> !IsQuote(name[k])
    ensures CallShape(verb + ['('] + [q] + name + [q] + rest, verb, 0,
                      CallMatch(|verb|, |verb| + 1, name, |verb| + |name| + 3))
  {
    var s := verb + ['('] + [q] + name + [q] + rest;
    assert s[0..|verb|] == verb;
    assert s[|verb| + 2..|verb| + 2 + |name|] == name;
    forall k | |verb| + 1 < k < |verb| + |name| + 2 ensures !IsQuote(s[k]) {
      assert s[k] == name[k - |verb| - 2];
    }
  }

  // ---------------------------------------------------------------- the walk

  /** The events a listed file contributes: none when it is skipped. */
  function FileEvents(f: SourceFile): seq<ProducerEvent>
  {
    if ShouldSkip(f.path) then [] else ScanFile(f)
  }

  /** The events of a run of files, in order, `fe` giving each file's. */
  function Collect(files: seq<SourceFile>, fe: SourceFile -> seq<ProducerEvent>): seq<ProducerEvent>
    decreases |files|
  {
    if |files| == 0 then [] else Collect(files[..|files| - 1], fe) + fe(files[|files| - 1])
  }

  /** The paths of the files that contribute events, in order. */
  function Contributors(files: seq<SourceFile>, fe: SourceFile -> seq<ProducerEvent>): seq<string>
    decreases |files|
  {
    if |files| == 0 then []
    else
      var last := files[|files| - 1];
      Contributors(files[..|files| - 1], fe) + (if |fe(last)| > 0 then [last.path] else [])
  }

  function EventsOf(files: seq<SourceFile>): seq<ProducerEvent> { Collect(files, FileEvents) }

  function ProducerFiles(files: seq<SourceFile>): seq<string> { Contributors(files, FileEvents) }

  /** The files listed for each extension in turn, `rglob` standing for the
      directory walk. */
  function Listing(rglob: string -> seq<SourceFile>, exts: seq<string>): seq<SourceFile>
    decreases |exts|
  {
    if |exts| == 0 then [] else Listing(rglob, exts[..|exts| - 1]) + rglob(exts[|exts| - 1])
  }

  /** One more extension appends its files to the listing. */
  lemma ListingSnoc(rglob: string -> seq<SourceFile>, exts: seq<string>, k: nat)
    requires k < |exts|
    ensures Listing(rglob, exts[..k + 1]) == Listing(rglob, exts[..k]) + rglob(exts[k])
  {
    assert exts[..k + 1][..k] == exts[..k];
  }

  lemma CollectSnoc(files: seq<SourceFile>, f: SourceFile, fe: SourceFile -> seq<ProducerEvent>)
    ensures Collect(files + [f], fe) == Collect(files, fe) + fe(f)
    ensures Contributors(files + [f], fe) == Contributors(files, fe) + (if |fe(f)| > 0 then [f.path] else [])
  {
    assert (files + [f])[..|files|] == files;
  }

  /** The inner loop of `scan` over the files of one extension; `fe` is the
      per-file step: skip test and build paths, else scan the file. */
  method ScanBatch(fe: SourceFile -> seq<ProducerEvent>, ghost before: seq<SourceFile>, batch: seq<SourceFile>,
                   events0: seq<ProducerEvent>, files0: seq<string>, found0: nat)
    returns (events: seq<ProducerEvent>, files: seq<string>, found: nat)
    requires events0 == Collect(before, fe) && files0 == Contributors(before, fe) && found0 == |events0|
    ensures events == Collect(before + batch, fe)
    ensures files == Contributors(before + batch, fe)
    ensures found == |events|
  {
    events, files, found := events0, files0, found0;
    var i := 0;
    assert before + batch[..i] == before;
    while i < |batch|
      invariant 0 <= i <= |batch|
      invariant events == Collect(before + batch[..i], fe)
      invariant files == Contributors(before + batch[..i], fe)
      invariant found == |events|
    {
      var f := batch[i];
      assert before + batch[..i + 1] == (before + batch[..i]) + [f];
      CollectSnoc(before + batch[..i], f, fe);
      var es := fe(f);
      if |es| > 0 {
        events := events + es;
        files := files + [f.path];
        found := found + |es|;
      }
      i := i + 1;
    }
    assert batch[..i] == batch;
  }

  /** `scan`: every listed file counts as scanned; each file that is not
      skipped and has events adds them and its path. */
  method Scan(rglob: string -> seq<SourceFile>) returns (r: ScanResult)
    ensures r.events == EventsOf(Listing(rglob, Extensions))
    ensures r.files == ProducerFiles(Listing(rglob, Extensions))
    ensures r.totalFilesScanned == |Listing(rglob, Extensions)|
    ensures r.producersFound == |r.events|
  {
    var events: seq<ProducerEvent> := [];
    var files: seq<string> := [];
    var total := 0;
    var found := 0;
    var k := 0;
    while k < |Extensions|
      invariant 0 <= k <= |Extensions|
      invariant events == EventsOf(Listing(rglob, Extensions[..k]))
      invariant files == ProducerFiles(Listing(rglob, Extensions[..k]))
      invariant total == |Listing(rglob, Extensions[..k])|
      invariant found == |events|
    {
      var batch := rglob(Extensions[k]);
      total := total + |batch|;
      events, files, found := ScanBatch(FileEvents, Listing(rglob, Extensions[..k]), batch, events, files, found);
      ListingSnoc(rglob, Extensions, k);
      k := k + 1;
    }
    assert Extensions[..k] == Extensions;
    r := ScanResult(events, files, total, found);
  }

  /** No reported path lies in a skipped directory, and each reported path
      is the path of a file that contributed events. */
  lemma {:induction false} ProducerFilesNotSkipped(files: seq<SourceFile>)
    ensures forall p :: p in ProducerFiles(files) ==> !ShouldSkip(p)
    ensures |ProducerFiles(files)| <= |files|
    decreases |files|
  {
    if |files| > 0 {
      ProducerFilesNotSkipped(files[..|files| - 1]);
      assert ProducerFiles(files[..|files| - 1]) == Contributors(files[..|files| - 1], FileEvents);
    }
  }

  /** An empty checkout scans no files and finds nothing. */
  lemma EmptyRepository(rglob: string -> seq<SourceFile>)
    requires forall ext :: rglob(ext) == []
    ensures EventsOf(Listing(rglob, Extensions)) == []
    ensures |Listing(rglob, Extensions)| == 0
  {
    EmptyListing(rglob, Extensions);
  }

  lemma {:induction false} EmptyListing(rglob: string -> seq<SourceFile>, exts: seq<string>)
    requires forall ext :: rglob(ext) == []
    ensures Listing(rglob, exts) == []
    decreases |exts|
  {
    if |exts| > 0 {
      EmptyListing(rglob, exts[..|exts| - 1]);
    }
  }
}
