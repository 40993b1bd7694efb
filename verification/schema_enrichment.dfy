/** The Java-class schema extractor: the mapping from a Java field type to a
    JSON Schema fragment, the nullability test on each extracted field, and
    the assembly of an object schema from a class's fields. The search and
    fetch of the class file and the two regular expressions that find the
    class header and the field declarations are not modelled: their results
    are inputs. */
module SchemaEnrichment {
  import opened Wrappers
  import opened Text
  import opened Seqs
  import opened Dicts
  import opened Json

  // ---------------------------------------------------------------- strip

  /** `s.lstrip()`. */
  function TrimStart(s: string): (r: string)
    ensures |r| <= |s| && r == s[|s| - |r|..]
    ensures forall k :: 0 <= k < |s| - |r| ==> IsSpace(s[k])
    ensures |r| > 0 ==> !IsSpace(r[0])
    decreases |s|
  {
    if |s| > 0 && IsSpace(s[0]) then TrimStart(s[1..]) else s
  }

  /** `s.rstrip()`. */
  function TrimEnd(s: string): (r: string)
    ensures |r| <= |s| && r == s[..|r|]
    ensures forall k :: |r| <= k < |s| ==> IsSpace(s[k])
    ensures |r| > 0 ==> !IsSpace(r[|r| - 1])
    decreases |s|
  {
    if |s| > 0 && IsSpace(s[|s| - 1]) then TrimEnd(s[..|s| - 1]) else s
  }

  /** `s.strip()`. */
  function Strip(s: string): string
  {
    TrimEnd(TrimStart(s))
  }

  /** Where the stripped text lies in the input. */
  lemma StripBounds(s: string) returns (a: nat, b: nat)
    ensures a <= b <= |s| && Strip(s) == s[a..b]
    ensures forall k :: 0 <= k < a ==> IsSpace(s[k])
    ensures forall k :: b <= k < |s| ==> IsSpace(s[k])
  {
    var t := TrimStart(s);
    var r := TrimEnd(t);
    a := |s| - |t|;
    b := a + |r|;
    assert r == t[..|r|];
    assert t[..|r|] == s[a..b];
    forall k | b <= k < |s| ensures IsSpace(s[k]) {
      assert s[k] == t[k - a];
    }
  }

  /** The stripped text is a piece of the input with only whitespace cut
      from either end and no whitespace left at either end; text without
      whitespace at its ends is kept as it is. */
  lemma StripFacts(s: string)
    ensures exists a: nat, b: nat :: a <= b <= |s| && Strip(s) == s[a..b] &&
              (forall k :: 0 <= k < a ==> IsSpace(s[k])) && (forall k :: b <= k < |s| ==> IsSpace(s[k]))
    ensures |Strip(s)| > 0 ==> !IsSpace(Strip(s)[0]) && !IsSpace(Strip(s)[|Strip(s)| - 1])
    ensures (|s| == 0 || (!IsSpace(s[0]) && !IsSpace(s[|s| - 1]))) ==> Strip(s) == s
  {
    var a, b := StripBounds(s);
    var t := TrimStart(s);
    var r := TrimEnd(t);
    if |r| > 0 {
      assert r[0] == t[0];
    }
    if |s| == 0 || (!IsSpace(s[0]) && !IsSpace(s[|s| - 1])) {
      assert t == s;
      assert r == t;
    }
  }

  // ---------------------------------------------------------------- type table

  function Typed(t: string): Json { JObj([("type", JStr(t))]) }

  function Formatted(t: string, f: string): Json { JObj([("type", JStr(t)), ("format", JStr(f))]) }

  /** `type_map` of `_java_type_to_json_schema`. */
  const TypeMap: Dict<string, Json> := [
    ("String", Typed("string")),
    ("Integer", Typed("integer")),
    ("int", Typed("integer")),
    ("Long", Formatted("integer", "int64")),
    ("long", Formatted("integer", "int64")),
    ("Double", Formatted("number", "double")),
    ("double", Formatted("number", "double")),
    ("Float", Formatted("number", "float")),
    ("float", Formatted("number", "float")),
    ("Boolean", Typed("boolean")),
    ("boolean", Typed("boolean")),
    ("BigDecimal", Formatted("string", "decimal")),
    ("LocalDate", Formatted("string", "date")),
    ("LocalDateTime", Formatted("string", "date-time")),
    ("Instant", Formatted("string", "date-time")),
    ("UUID", Formatted("string", "uuid"))
  ]

  /** The fallback for a type outside the table. */
  function ComplexType(t: string): Json
  {
    JObj([("type", JStr("object")), ("description", JStr("Complex type: " + t))])
  }

  function ArrayOf(items: Json): Json { JObj([("type", JStr("array")), ("items", items)]) }

  const OpenObject: Json := JObj([("type", JStr("object")), ("additionalProperties", JBool(true))])

  const TypeNames: seq<string> :=
    ["String", "Integer", "int", "Long", "long", "Double", "double", "Float", "float",
     "Boolean", "boolean", "BigDecimal", "LocalDate", "LocalDateTime", "Instant", "UUID"]

  lemma TypeMapKeys()
    ensures Keys(TypeMap) == TypeNames
  {
  }

  /** The sixteen names are told apart by length, first and last character. */
  lemma TypeNamesDistinct()
    ensures NoDups(TypeNames)
  {
    var ks := TypeNames;
    forall i, j | 0 <= i < j < |ks| ensures ks[i] != ks[j] {
      if |ks[i]| == |ks[j]| {
        assert ks[i][0] != ks[j][0] || ks[i][|ks[i]| - 1] != ks[j][|ks[j]| - 1];
      }
    }
  }

  /** The table names sixteen types, each once, none of them generic. */
  lemma TypeMapShape()
    ensures |TypeMap| == 16 && UniqueKeys(TypeMap)
    ensures forall i :: 0 <= i < |TypeMap| ==> '<' !in TypeMap[i].0
  {
    TypeMapKeys();
    TypeNamesDistinct();
    forall i | 0 <= i < |TypeMap| ensures '<' !in TypeMap[i].0 {
      assert TypeMap[i].0 == TypeNames[i];
    }
  }

  // ---------------------------------------------------------------- angle brackets

  /** `<(.+)>` matches at `i` through `j`: a `<` at `i`, a `>` at `j`, at
      least one character between them and no line break among those,
      since `.` does not match one. */
  predicate AngleMatch(t: string, i: nat, j: nat)
  {
    i + 2 <= j < |t| && t[i] == '<' && t[j] == '>' && forall k :: i < k < j ==> t[k] != '\n'
  }

  /** The match `re.search` reports: it starts leftmost and, `.+` being
      greedy, ends as far right as that start allows. */
  ghost predicate LeftmostLongest(t: string, i: nat, j: nat)
  {
    AngleMatch(t, i, j) && forall k: nat, l: nat :: AngleMatch(t, k, l) ==> i < k || (i == k && l <= j)
  }

  /** The first line break at or after `k`, or the end of the text. */
  function LineEnd(t: string, k: nat): (e: nat)
    requires k <= |t|
    ensures k <= e <= |t| && (e < |t| ==> t[e] == '\n')
    ensures forall m :: k <= m < e ==> t[m] != '\n'
    decreases |t| - k
  {
    if k == |t| || t[k] == '\n' then k else LineEnd(t, k + 1)
  }

  /** The last `>` in `t[lo..hi]`. */
  function LastClose(t: string, lo: nat, hi: nat): (r: Option<nat>)
    requires lo <= hi <= |t|
    ensures r.Some? ==> lo <= r.value < hi && t[r.value] == '>' && forall k :: r.value < k < hi ==> t[k] != '>'
    ensures r.None? ==> forall k :: lo <= k < hi ==> t[k] != '>'
    decreases hi - lo
  {
    if hi == lo then None
    else if t[hi - 1] == '>' then Some(hi - 1)
    else LastClose(t, lo, hi - 1)
  }

  /** The end of the longest match starting at `i`, if any. */
  function AngleEnd(t: string, i: nat): (r: Option<nat>)
    requires i < |t|
    ensures r.Some? ==> AngleMatch(t, i, r.value) && forall l: nat :: AngleMatch(t, i, l) ==> l <= r.value
    ensures r.None? ==> forall l: nat :: !AngleMatch(t, i, l)
  {
    if t[i] != '<' then None
    else
      var e := LineEnd(t, i + 1);
      if e < i + 2 then None
      else
        var r := LastClose(t, i + 2, e);
        assert forall l: nat :: AngleMatch(t, i, l) ==> l < e by {
          assert e < |t| ==> t[e] == '\n';
        }
        r
  }

  /** The leftmost-longest match starting at `i` or later. */
  function AngleSearch(t: string, i: nat): (r: Option<(nat, nat)>)
    requires i <= |t|
    ensures r.Some? ==> i <= r.value.0 && AngleMatch(t, r.value.0, r.value.1)
    ensures r.Some? ==> forall k: nat, l: nat :: i <= k && AngleMatch(t, k, l) ==>
                          r.value.0 < k || (r.value.0 == k && l <= r.value.1)
    ensures r.None? ==> forall k: nat, l: nat :: i <= k ==> !AngleMatch(t, k, l)
    decreases |t| - i
  {
    if i == |t| then None
    else
      match AngleEnd(t, i)
      case Some(j) => Some((i, j))
      case None => AngleSearch(t, i + 1)
  }

  /** `re.search(r'<(.+)>', t).group(1)`: the text between the `<` and `>`
      of the leftmost-longest match; `None` when the pattern finds none. */
  function AngleContent(t: string): (r: Option<string>)
    ensures r.Some? <==> exists i: nat, j: nat :: AngleMatch(t, i, j)
    ensures r.Some? ==> exists i: nat, j: nat :: LeftmostLongest(t, i, j) && r.value == t[i + 1..j]
  {
    match AngleSearch(t, 0)
    case Some((i, j)) => assert LeftmostLongest(t, i, j); Some(t[i + 1..j])
    case None => None
  }

  /** A type argument without line breaks, wrapped after a base without
      `<`, is found again. */
  lemma AngleContentWrapped(base: string, inner: string)
    requires '<' !in base && |inner| > 0 && '\n' !in inner
    ensures AngleContent(base + "<" + inner + ">") == Some(inner)
  {
    var t := base + "<" + inner + ">";
    var n := |base|;
    assert t[n + 1..|t| - 1] == inner;
    assert AngleMatch(t, n, |t| - 1) by {
      forall k | n < k < |t| - 1 ensures t[k] != '\n' { assert t[k] == inner[k - n - 1]; }
    }
    forall k | 0 <= k < n ensures t[k] != '<' { assert t[k] == base[k]; }
    assert AngleContent(t).Some?;
    var i: nat, j: nat :| LeftmostLongest(t, i, j) && AngleContent(t).value == t[i + 1..j];
    assert i == n && j == |t| - 1;
  }

  /** A type argument that runs over a line break, with no other bracket
      in it, is not matched: `.` stops at the line break. */
  lemma AngleContentMultiLine(base: string, inner: string)
    requires '<' !in base && '\n' in inner && '<' !in inner && '>' !in inner
    ensures AngleContent(base + "<" + inner + ">") == None
  {
    var t := base + "<" + inner + ">";
    var n := |base|;
    var b :| 0 <= b < |inner| && inner[b] == '\n';
    forall k | 0 <= k < |t| && k != n ensures t[k] != '<' {
      if k < n { assert t[k] == base[k]; }
      else if k < |t| - 1 { assert t[k] == inner[k - n - 1]; }
    }
    forall k | n < k < |t| - 1 ensures t[k] != '>' { assert t[k] == inner[k - n - 1]; }
    assert n < n + 1 + b < |t| - 1 && t[n + 1 + b] == '\n';
  }

  /** `java_type.split('<')[0]` for a type with a `<`. */
  lemma BaseTypeOf(base: string, rest: string)
    requires '<' !in base
    ensures Split(base + "<" + rest, '<')[0] == base
  {
    SplitCons(base, '<', rest);
    assert base + "<" + rest == base + ['<'] + rest;
  }

  // ---------------------------------------------------------------- type mapping

  predicate IsCollection(base: string) { base == "List" || base == "Set" || base == "Collection" }

  /** `_java_type_to_json_schema`. A collection type whose angle-bracket
      pattern does not match raises, as `.group` on `None` does. */
  function JavaTypeToSchema(t: string): Result<Json>
  {
    if '<' in t && IsCollection(Split(t, '<')[0]) then
      match AngleContent(t)
      case None => Failure("AttributeError: 'NoneType' object has no attribute 'group'")
      case Some(inner) => Success(ArrayOf(Get(TypeMap, Strip(inner)).GetOr(Typed("object"))))
    else if '<' in t && Split(t, '<')[0] == "Map" then
      Success(OpenObject)
    else
      Success(Get(TypeMap, t).GetOr(ComplexType(t)))
  }

  /** Every type of the table maps to its own entry. */
  lemma MappedType(i: nat)
    requires i < |TypeMap|
    ensures JavaTypeToSchema(TypeMap[i].0) == Success(TypeMap[i].1)
  {
    TypeMapShape();
    GetEntry(TypeMap, i);
  }

  /** Some entries of the table, spelled out. */
  lemma TypeMapSamples()
    ensures JavaTypeToSchema("Long") == Success(Formatted("integer", "int64"))
    ensures JavaTypeToSchema("BigDecimal") == Success(Formatted("string", "decimal"))
    ensures JavaTypeToSchema("UUID") == Success(Formatted("string", "uuid"))
  {
    MappedType(3);
    assert TypeMap[3] == ("Long", Formatted("integer", "int64"));
    MappedType(11);
    assert TypeMap[11] == ("BigDecimal", Formatted("string", "decimal"));
    MappedType(15);
    assert TypeMap[15] == ("UUID", Formatted("string", "uuid"));
  }

  /** A plain type outside the table is an object described by its name. */
  lemma UnmappedType(t: string)
    requires '<' !in t && t !in Keys(TypeMap)
    ensures JavaTypeToSchema(t) == Success(ComplexType(t))
  {
    GetDefined(TypeMap, t);
  }

  /** `List<T>`, `Set<T>` and `Collection<T>` are arrays whose items are the
      table entry of the stripped argument, or a bare object. */
  lemma CollectionType(base: string, inner: string)
    requires IsCollection(base) && |inner| > 0 && '\n' !in inner
    ensures JavaTypeToSchema(base + "<" + inner + ">") == Success(ArrayOf(Get(TypeMap, Strip(inner)).GetOr(Typed("object"))))
  {
    var t := base + "<" + inner + ">";
    assert '<' !in base;
    assert t == base + "<" + (inner + ">");
    BaseTypeOf(base, inner + ">");
    assert t[|base|] == '<';
    AngleContentWrapped(base, inner);
  }

  /** `Map<…>` is an object open to any property. */
  lemma MapType(rest: string)
    ensures JavaTypeToSchema("Map<" + rest) == Success(OpenObject)
  {
    BaseTypeOf("Map", rest);
    assert ("Map<" + rest)[3] == '<';
    assert "Map<" + rest == "Map" + "<" + rest;
  }

  /** Any other generic type, `Optional<String>` among them, falls back to
      the complex-type object named by the whole type text. */
  lemma OtherGenericType(base: string, rest: string)
    requires '<' !in base && !IsCollection(base) && base != "Map"
    ensures JavaTypeToSchema(base + "<" + rest) == Success(ComplexType(base + "<" + rest))
  {
    var t := base + "<" + rest;
    BaseTypeOf(base, rest);
    assert t[|base|] == '<';
    TypeMapShape();
    GetDefined(TypeMap, t);
  }

  /** A collection type with nothing between its brackets raises. */
  lemma EmptyCollectionFails(base: string)
    requires IsCollection(base)
    ensures JavaTypeToSchema(base + "<>").Failure?
  {
    var t := base + "<>";
    BaseTypeOf(base, ">");
    assert t == base + "<" + ">";
    assert t[|base|] == '<';
    assert AngleContent(t).None?;
  }

  /** A collection type whose argument runs over a line break raises, as
      the field pattern's `[\w\s,<>]` lets such a type through while `.`
      in `<(.+)>` does not cross the break. */
  lemma MultiLineCollectionFails(base: string, inner: string)
    requires IsCollection(base) && '\n' in inner && '<' !in inner && '>' !in inner
    ensures JavaTypeToSchema(base + "<" + inner + ">").Failure?
  {
    var t := base + "<" + inner + ">";
    assert '<' !in base;
    assert t == base + "<" + (inner + ">");
    BaseTypeOf(base, inner + ">");
    assert t[|base|] == '<';
    AngleContentMultiLine(base, inner);
  }

  /** `private List<` and `String> items;` on two lines give the type
      `List<\n    String>`, whose conversion raises. */
  lemma MultiLineListRaises()
    ensures JavaTypeToSchema("List<\n    String>").Failure?
  {
    assert "List<\n    String>" == "List" + "<" + "\n    String" + ">";
    assert "\n    String"[0] == '\n';
    MultiLineCollectionFails("List", "\n    String");
  }

  // ---------------------------------------------------------------- fields

  /** One match of the field pattern over the class body: where it starts,
      relative to the body, and its two groups. */
  datatype FieldMatch = FieldMatch(start: nat, javaType: string, name: string)

  datatype Field = Field(name: string, javaType: string, nullable: bool)

  const NullableMark: string := "@Nullable"

  /** `max(0, p - 50)`. */
  function WindowStart(p: nat): nat { if p >= 50 then p - 50 else 0 }

  /** The nullability test of `_extract_fields` as the code has it: the
      window is cut from the whole file at positions that count from the
      start of the class body. */
  predicate NullableAsWritten(content: string, m: FieldMatch)
    requires m.start <= |content|
  {
    Contains(m.javaType, "Optional") || Contains(content[WindowStart(m.start)..m.start], NullableMark)
  }

  /** The intended test: the window is the fifty characters of the body
      that precede the match. */
  predicate Nullable(body: string, m: FieldMatch)
    requires m.start <= |body|
  {
    Contains(m.javaType, "Optional") || Contains(body[WindowStart(m.start)..m.start], NullableMark)
  }

  /** Matches that lie inside the body that starts at `startPos`. */
  predicate InBody(content: string, startPos: nat, ms: seq<FieldMatch>)
  {
    startPos <= |content| && forall i :: 0 <= i < |ms| ==> startPos + ms[i].start <= |content|
  }

  /** `_extract_fields` as written. */
  function ExtractFieldsAsWritten(content: string, startPos: nat, ms: seq<FieldMatch>): (fs: seq<Field>)
    requires InBody(content, startPos, ms)
    ensures |fs| == |ms|
    ensures forall i :: 0 <= i < |ms| ==>
              fs[i] == Field(ms[i].name, ms[i].javaType, NullableAsWritten(content, ms[i]))
  {
    seq(|ms|, i requires 0 <= i < |ms| && InBody(content, startPos, ms) =>
      Field(ms[i].name, ms[i].javaType, NullableAsWritten(content, ms[i])))
  }

  /** `_extract_fields` with the window taken from the body. */
  function ExtractFields(content: string, startPos: nat, ms: seq<FieldMatch>): (fs: seq<Field>)
    requires InBody(content, startPos, ms)
    ensures |fs| == |ms|
    ensures forall i :: 0 <= i < |ms| ==>
              fs[i] == Field(ms[i].name, ms[i].javaType, Nullable(content[startPos..], ms[i]))
  {
    seq(|ms|, i requires 0 <= i < |ms| && InBody(content, startPos, ms) =>
      Field(ms[i].name, ms[i].javaType, Nullable(content[startPos..], ms[i])))
  }

  lemma SliceOfSlice(s: string, lo: nat, hi: nat, a: nat, b: nat)
    requires lo <= hi <= |s| && a <= b <= hi - lo
    ensures s[lo..hi][a..b] == s[lo + a..lo + b]
  {
    assert forall k :: 0 <= k < b - a ==> s[lo..hi][a..b][k] == s[lo + a + k];
  }

  /** An occurrence in a slice, seen in the whole text. */
  lemma SliceOccurrence(s: string, lo: nat, hi: nat, sub: string, k: nat)
    requires lo <= hi <= |s| && OccursAt(s[lo..hi], sub, k)
    ensures lo + k + |sub| <= hi && OccursAt(s, sub, lo + k)
  {
    SliceOfSlice(s, lo, hi, k, k + |sub|);
  }

  /** An occurrence between the bounds of a slice, seen in the slice. */
  lemma WholeOccurrence(s: string, lo: nat, hi: nat, sub: string, p: nat)
    requires lo <= p && p + |sub| <= hi <= |s| && OccursAt(s, sub, p)
    ensures OccursAt(s[lo..hi], sub, p - lo)
  {
    SliceOfSlice(s, lo, hi, p - lo, p - lo + |sub|);
  }

  /** An occurrence in a slice is an occurrence in the whole text that
      lies between the slice's bounds, and the other way round. */
  lemma ContainsInSlice(s: string, lo: nat, hi: nat, sub: string)
    requires lo <= hi <= |s|
    ensures Contains(s[lo..hi], sub) <==> exists p: nat :: lo <= p && p + |sub| <= hi && OccursAt(s, sub, p)
  {
    ContainsIff(s[lo..hi], sub);
    if Contains(s[lo..hi], sub) {
      var k: nat :| OccursAt(s[lo..hi], sub, k);
      SliceOccurrence(s, lo, hi, sub, k);
    }
    if exists p: nat :: lo <= p && p + |sub| <= hi && OccursAt(s, sub, p) {
      var p: nat :| lo <= p && p + |sub| <= hi && OccursAt(s, sub, p);
      WholeOccurrence(s, lo, hi, sub, p);
    }
  }

  /** A field is nullable exactly when its type mentions `Optional` or
      `@Nullable` starts in the body at most fifty characters before the
      match and ends before it. */
  lemma NullableWindow(content: string, startPos: nat, ms: seq<FieldMatch>, i: nat)
    requires InBody(content, startPos, ms) && i < |ms|
    ensures ExtractFields(content, startPos, ms)[i].nullable <==>
              Contains(ms[i].javaType, "Optional") ||
              exists p: nat :: startPos + WindowStart(ms[i].start) <= p && p + |NullableMark| <= startPos + ms[i].start &&
                               OccursAt(content, NullableMark, p)
  {
    var m := ms[i];
    var lo, hi := startPos + WindowStart(m.start), startPos + m.start;
    assert hi <= |content|;
    SliceOfSlice(content, startPos, |content|, WindowStart(m.start), m.start);
    assert content[startPos..][WindowStart(m.start)..m.start] == content[lo..hi];
    ContainsInSlice(content, lo, hi, NullableMark);
  }

  /** As written, a field is nullable exactly when its type mentions
      `Optional` or `@Nullable` lies in the fifty characters before the
      match position counted from the start of the file: the window does
      not depend on where the class body starts. */
  lemma NullableWindowAsWritten(content: string, startPos: nat, ms: seq<FieldMatch>, i: nat)
    requires InBody(content, startPos, ms) && i < |ms|
    ensures ExtractFieldsAsWritten(content, startPos, ms)[i].nullable <==>
              Contains(ms[i].javaType, "Optional") ||
              exists p: nat :: WindowStart(ms[i].start) <= p && p + |NullableMark| <= ms[i].start &&
                               OccursAt(content, NullableMark, p)
  {
    var m := ms[i];
    assert m.start <= |content|;
    ContainsInSlice(content, WindowStart(m.start), m.start, NullableMark);
  }

  /** The two tests differ: an annotation just before a field inside the
      body is missed when the window is cut from the file's start. */
  lemma NullableWindowMisplaced()
    ensures var content := "class A { @Nullable String name;";
            var m := FieldMatch(10, "String", "name");
            m.start <= |content| - 9 &&
            !NullableAsWritten(content, m) && Nullable(content[9..], m)
  {
    AsWrittenWindowMisses();
    BodyWindowFinds();
  }

  /** The type `String` does not mention `Optional`. */
  lemma StringNotOptional()
    ensures !Contains("String", "Optional")
  {
    NotContainsWithoutFirstChar("String", "Optional");
  }

  /** The window as written, `class A { `, holds no annotation. */
  lemma AsWrittenWindowMisses()
    ensures !NullableAsWritten("class A { @Nullable String name;", FieldMatch(10, "String", "name"))
  {
    var content := "class A { @Nullable String name;";
    var before := content[0..10];
    assert before == "class A { ";
    StringNotOptional();
    assert !Contains(before, NullableMark) by {
      NotContainsWithoutFirstChar(before, NullableMark);
    }
    assert WindowStart(10) == 0;
  }

  /** The body window, ` @Nullable`, holds the annotation. */
  lemma BodyWindowFinds()
    ensures Nullable("class A { @Nullable String name;"[9..], FieldMatch(10, "String", "name"))
  {
    var window := "class A { @Nullable String name;"[9..][0..10];
    assert window == " @Nullable";
    assert Contains(window, NullableMark) by {
      assert window[1..1 + |NullableMark|] == NullableMark;
      ContainsAt(window, NullableMark, 1);
    }
    assert WindowStart(10) == 0;
  }

  /** Consequently a field annotated `@Nullable` inside the class body is
      reported as required by the code as written. */
  lemma MisplacedWindowFields(content: string, ms: seq<FieldMatch>)
    requires content == "class A { @Nullable String name;" && ms == [FieldMatch(10, "String", "name")]
    ensures InBody(content, 9, ms)
    ensures !ExtractFieldsAsWritten(content, 9, ms)[0].nullable && ExtractFields(content, 9, ms)[0].nullable
  {
    NullableWindowMisplaced();
  }

  // ---------------------------------------------------------------- class schema

  datatype ClassSchema = ClassSchema(title: string, description: string,
                                     properties: Dict<string, Json>, required: seq<string>)

  /** The field schemas, in field order; the first field whose type
      raises stops the loop. */
  function FieldSchemas(fields: seq<Field>): (r: Result<seq<(string, Json)>>)
    ensures r.Success? <==> forall i :: 0 <= i < |fields| ==> JavaTypeToSchema(fields[i].javaType).Success?
    ensures r.Success? ==>
              |r.value| == |fields| &&
              forall i :: 0 <= i < |fields| ==> r.value[i] == (fields[i].name, JavaTypeToSchema(fields[i].javaType).value)
  {
    SchemasBy(fields, JavaTypeToSchema)
  }

  /** The loop of `FieldSchemas` with the type conversion `conv`. */
  function SchemasBy(fields: seq<Field>, conv: string -> Result<Json>): (r: Result<seq<(string, Json)>>)
    ensures r.Success? <==> forall i :: 0 <= i < |fields| ==> conv(fields[i].javaType).Success?
    ensures r.Success? ==>
              |r.value| == |fields| &&
              forall i :: 0 <= i < |fields| ==> r.value[i] == (fields[i].name, conv(fields[i].javaType).value)
    decreases |fields|
  {
    if |fields| == 0 then Success([])
    else
      var f := fields[|fields| - 1];
      match SchemasBy(fields[..|fields| - 1], conv)
      case Failure(e) => Failure(e)
      case Success(es) =>
        match conv(f.javaType)
        case Failure(e) => Failure(e)
        case Success(j) => Success(es + [(f.name, j)])
  }

  /** The names of the fields that are not nullable, in field order. */
  function RequiredNames(fields: seq<Field>): (r: seq<string>)
    ensures |r| <= |fields|
    decreases |fields|
  {
    if |fields| == 0 then []
    else
      var f := fields[|fields| - 1];
      RequiredNames(fields[..|fields| - 1]) + (if f.nullable then [] else [f.name])
  }

  /** The schema assembly of `_parse_java_class` over extracted fields. */
  function BuildSchema(className: string, fields: seq<Field>): Result<ClassSchema>
  {
    match FieldSchemas(fields)
    case Failure(e) => Failure(e)
    case Success(es) => Success(ClassSchema(className, "Schema for " + className, PutAll(es), RequiredNames(fields)))
  }

  /** The schema of the fields found after a class header, or `None`
      when there is no header. */
  function SchemaAfterHeader(className: string, fields: Option<seq<Field>>): (r: Result<Option<ClassSchema>>)
    ensures fields.None? ==> r == Success(None)
    ensures fields.Some? ==>
              (r.Success? <==> forall i :: 0 <= i < |fields.value| ==> JavaTypeToSchema(fields.value[i].javaType).Success?)
    ensures fields.Some? && r.Success? ==>
              r.value.Some? && r.value.value.title == className && r.value.value.required == RequiredNames(fields.value)
  {
    match fields
    case None => Success(None)
    case Some(fs) =>
      match BuildSchema(className, fs)
      case Failure(e) => Failure(e)
      case Success(s) => Success(Some(s))
  }

  /** `_parse_java_class` as the code has it: `None` without a class header,
      otherwise the schema of the fields `_extract_fields` finds after it,
      with the nullability window cut from the whole file. */
  function ParseJavaClass(className: string, content: string, headerEnd: Option<nat>, ms: seq<FieldMatch>): (r: Result<Option<ClassSchema>>)
    requires headerEnd.Some? ==> InBody(content, headerEnd.value, ms)
    ensures headerEnd.None? ==> r == Success(None)
    ensures headerEnd.Some? ==> (r.Success? <==> forall i :: 0 <= i < |ms| ==> JavaTypeToSchema(ms[i].javaType).Success?)
    ensures r.Success? && headerEnd.Some? ==> r.value.Some? && r.value.value.title == className
  {
    SchemaAfterHeader(className, if headerEnd.Some? then Some(ExtractFieldsAsWritten(content, headerEnd.value, ms)) else None)
  }

  /** `_parse_java_class` with the nullability window cut from the class
      body, as `_extract_fields` evidently intends. */
  function ParseJavaClassIntended(className: string, content: string, headerEnd: Option<nat>, ms: seq<FieldMatch>): (r: Result<Option<ClassSchema>>)
    requires headerEnd.Some? ==> InBody(content, headerEnd.value, ms)
    ensures headerEnd.None? ==> r == Success(None)
    ensures headerEnd.Some? ==> (r.Success? <==> forall i :: 0 <= i < |ms| ==> JavaTypeToSchema(ms[i].javaType).Success?)
    ensures r.Success? && headerEnd.Some? ==> r.value.Some? && r.value.value.title == className
  {
    SchemaAfterHeader(className, if headerEnd.Some? then Some(ExtractFields(content, headerEnd.value, ms)) else None)
  }

  lemma {:induction false} RequiredMembers(fields: seq<Field>, x: string)
    ensures x in RequiredNames(fields) <==> exists i :: 0 <= i < |fields| && fields[i].name == x && !fields[i].nullable
    decreases |fields|
  {
    if |fields| > 0 {
      var fs := fields[..|fields| - 1];
      RequiredMembers(fs, x);
      if x in RequiredNames(fs) {
        var i :| 0 <= i < |fs| && fs[i].name == x && !fs[i].nullable;
        assert fields[i] == fs[i];
      }
      if exists i :: 0 <= i < |fields| && fields[i].name == x && !fields[i].nullable {
        var i :| 0 <= i < |fields| && fields[i].name == x && !fields[i].nullable;
        if i < |fs| { assert fs[i] == fields[i]; }
      }
    }
  }

  /** The schema is built when every field type converts. Its property
      keys are the field names, each once, in order of first appearance;
      `required` names exactly the fields that are not nullable, each of
      them a property; the title is the class name. */
  lemma SchemaOfFields(className: string, fields: seq<Field>, x: string)
    ensures BuildSchema(className, fields).Success? <==>
              forall i :: 0 <= i < |fields| ==> JavaTypeToSchema(fields[i].javaType).Success?
    ensures BuildSchema(className, fields).Success? ==>
              var s := BuildSchema(className, fields).value;
              s.title == className && s.description == "Schema for " + className &&
              Keys(s.properties) == Distinct(MapSeq(fields, (f: Field) => f.name)) && UniqueKeys(s.properties) &&
              (x in s.required <==> exists i :: 0 <= i < |fields| && fields[i].name == x && !fields[i].nullable) &&
              (x in s.required ==> x in Keys(s.properties))
  {
    if BuildSchema(className, fields).Success? {
      var es := FieldSchemas(fields).value;
      var names := MapSeq(fields, (f: Field) => f.name);
      assert Keys(es) == names;
      PutAllKeys(es);
      RequiredMembers(fields, x);
      DistinctMember(names, x);
      if x in RequiredNames(fields) {
        var i :| 0 <= i < |fields| && fields[i].name == x && !fields[i].nullable;
        assert names[i] == x;
      }
    }
  }

  /** A field's property is the schema of its type, unless a later field
      with the same name overwrites it. */
  lemma PropertyOfField(className: string, fields: seq<Field>, i: nat)
    requires i < |fields| && BuildSchema(className, fields).Success?
    requires forall j :: i < j < |fields| ==> fields[j].name != fields[i].name
    ensures Get(BuildSchema(className, fields).value.properties, fields[i].name) ==
              Some(JavaTypeToSchema(fields[i].javaType).value)
  {
    var es := FieldSchemas(fields).value;
    PutAllGet(es, fields[i].name);
    LastValueOfUnshadowed(es, i);
  }

  /** A parsed class requires exactly the names of the fields the code as
      written finds not nullable: no `Optional` in the type and no
      `@Nullable` in the window cut from the start of the file. */
  lemma ParsedRequired(className: string, content: string, p: nat, ms: seq<FieldMatch>, x: string)
    requires InBody(content, p, ms)
    requires ParseJavaClass(className, content, Some(p), ms).Success?
    ensures x in ParseJavaClass(className, content, Some(p), ms).value.value.required <==>
              exists i :: 0 <= i < |ms| && ms[i].name == x && !NullableAsWritten(content, ms[i])
  {
    var fs := ExtractFieldsAsWritten(content, p, ms);
    RequiredMembers(fs, x);
    if x in RequiredNames(fs) {
      var i :| 0 <= i < |fs| && fs[i].name == x && !fs[i].nullable;
      assert ms[i].name == x && !NullableAsWritten(content, ms[i]);
    }
  }

  /** With the intended window, a parsed class requires exactly the names
      of the fields not nullable by the fifty body characters before them. */
  lemma ParsedRequiredIntended(className: string, content: string, p: nat, ms: seq<FieldMatch>, x: string)
    requires InBody(content, p, ms)
    requires ParseJavaClassIntended(className, content, Some(p), ms).Success?
    ensures x in ParseJavaClassIntended(className, content, Some(p), ms).value.value.required <==>
              exists i :: 0 <= i < |ms| && ms[i].name == x && !Nullable(content[p..], ms[i])
  {
    var fs := ExtractFields(content, p, ms);
    RequiredMembers(fs, x);
    if x in RequiredNames(fs) {
      var i :| 0 <= i < |fs| && fs[i].name == x && !fs[i].nullable;
      assert ms[i].name == x && !Nullable(content[p..], ms[i]);
    }
  }

  /** On `class A { @Nullable String name;` the program requires `name`,
      while the intended window leaves it optional. */
  lemma ParsedMisplacedWindow(content: string, ms: seq<FieldMatch>)
    requires content == "class A { @Nullable String name;" && ms == [FieldMatch(10, "String", "name")]
    ensures InBody(content, 9, ms)
    ensures ParseJavaClass("A", content, Some(9), ms).Success?
    ensures ParseJavaClass("A", content, Some(9), ms).value.value.required == ["name"]
    ensures ParseJavaClassIntended("A", content, Some(9), ms).value.value.required == []
  {
    MisplacedWindowFields(content, ms);
    assert '<' !in "String";
    var fs := ExtractFieldsAsWritten(content, 9, ms);
    var gs := ExtractFields(content, 9, ms);
    assert RequiredNames(fs) == RequiredNames(fs[..0]) + ["name"];
    assert RequiredNames(gs) == RequiredNames(gs[..0]) + [];
  }
}
