/**
 Importing parsed triples into the graph: RdfTripleImport.java. Subjects and labels may
 carry decorations, a property key after ':' and a visibility in brackets, that greedy
 patterns take apart; visibilities are looked up through a cache.
 */
module RdfTripleImport {
  import opened Wrappers
  import opened RdfTripleParser
  import opened RdfStatement
  import opened Sequences

  const MULTI_KEY := "RdfTripleImport"
  const LABEL_CONCEPT_TYPE := "http://www.w3.org/1999/02/22-rdf-syntax-ns#type"

  /** Datatypes whose values stay text. */
  const TEXT_TYPES := {
    "http://www.w3.org/2001/XMLSchema#gMonthDay",
    "http://www.w3.org/2001/XMLSchema#string"
  }

  /** Datatypes whose values a library converts. */
  const CONVERTED_TYPES := {
    "http://visallo.org#geolocation",
    "http://visallo.org#streamingPropertyValue",
    "http://visallo.org#streamingPropertyValueInline",
    "http://www.w3.org/2001/XMLSchema#date",
    "http://www.w3.org/2001/XMLSchema#dateTime",
    "http://www.w3.org/2001/XMLSchema#gYear",
    "http://www.w3.org/2001/XMLSchema#boolean",
    "http://www.w3.org/2001/XMLSchema#double",
    "http://visallo.org#currency",
    "http://www.w3.org/2001/XMLSchema#int",
    "http://www.w3.org/2001/XMLSchema#integer"
  }

  datatype Visibility = Visibility(expression: string)

  /** The visibility of a label, which the super user may always see. */
  function MakeVisibility(s: string): Visibility {
    if s == "" then Visibility("") else Visibility("(" + s + ")|visallo")
  }

  /** Labels are told apart by their visibilities; only the empty one is public, any other is for its holders and the super user. */
  lemma VisibilityExactly(a: string, b: string)
    ensures MakeVisibility(a) == MakeVisibility(b) <==> a == b
    ensures MakeVisibility(a).expression == "" <==> a == ""
    ensures a != "" ==> MakeVisibility(a).expression == "(" + a + ")|visallo"
  {
    if a != "" {
      assert MakeVisibility(a).expression[1..][..|a|] == a;
    }
    if b != "" {
      assert MakeVisibility(b).expression[1..][..|b|] == b;
    }
    if a != "" && b != "" && MakeVisibility(a) == MakeVisibility(b) {
      assert |MakeVisibility(a).expression| == |a| + 10;
    }
  }

  datatype PropertyValue = Text(text: string) | Converted(typeUri: string, text: string)

  datatype GraphWrite =
    | SaveProperty(vertexId: string, elementVisibility: Visibility, key: string, name: string,
                   value: PropertyValue, visibility: Visibility)
    | SaveConceptType(vertexId: string, visibility: Visibility, conceptType: string)
    | SaveEdge(edgeId: string, outVertexId: string, inVertexId: string, labelUri: string, visibility: Visibility)

  datatype ImportError =
    | ParseError(error: Error)
    | UnhandledCombination
    | UnhandledPartType
    | UnhandledPropertyType
    | EscapeOutsideModel

  // ---------------------------------------------------------------- the patterns

  /** What '.' in a pattern does not match. */
  predicate IsLineTerminator(c: char) {
    c == '\n' || c == '\r' || c == '\U{0085}' || c == '\U{2028}' || c == '\U{2029}'
  }

  predicate OneLine(s: string) {
    forall i :: 0 <= i < |s| ==> !IsLineTerminator(s[i])
  }

  function LastIndex(s: string, c: char): (r: Option<nat>)
    ensures r.Some? ==> r.value < |s| && s[r.value] == c
    ensures forall i :: (if r.Some? then r.value + 1 else 0) <= i < |s| ==> s[i] != c
  {
    if s == "" then None
    else if s[|s| - 1] == c then Some(|s| - 1)
    else LastIndex(s[..|s| - 1], c)
  }

  /** The pattern (.*)\[(.*)\] on a whole string. */
  function MatchVisibility(s: string): Option<(string, string)> {
    if !OneLine(s) || s == "" || s[|s| - 1] != ']' then None
    else
      var i :- LastIndex(s, '[');
      Some((s[..i], s[i + 1..|s| - 1]))
  }

  /** The pattern (.*#.*):(.*) on a whole string. */
  function MatchPropertyKey(s: string): Option<(string, string)> {
    if !OneLine(s) then None
    else
      var i :- LastIndex(s, ':');
      if '#' in s[..i] then Some((s[..i], s[i + 1..])) else None
  }

  /** A text without line feeds, carriage returns and the other line terminators. */
  ghost predicate WithoutTerminators(s: string) {
    forall c :: c in s ==> c !in {'\n', '\r', '\U{0085}', '\U{2028}', '\U{2029}'}
  }

  lemma OneLineExactly(s: string)
    ensures OneLine(s) <==> WithoutTerminators(s)
  {
    assert OneLine(s) ==> forall c :: c in s ==> !IsLineTerminator(c);
    assert WithoutTerminators(s) ==> forall i :: 0 <= i < |s| ==> s[i] in s;
  }

  ghost predicate VisibilitySplit(s: string, before: string, inside: string) {
    WithoutTerminators(s) && s == before + "[" + inside + "]"
  }

  ghost predicate KeySplit(s: string, before: string, after: string) {
    WithoutTerminators(s) && '#' in before && s == before + ":" + after
  }

  /** The bracket pattern matches when any split exists, and takes the one with the longest first group. */
  lemma VisibilityMatchIsGreedy(s: string)
    ensures match MatchVisibility(s)
            case None => forall a, b :: !VisibilitySplit(s, a, b)
            case Some((a, b)) => VisibilitySplit(s, a, b) && forall c, d :: VisibilitySplit(s, c, d) ==> |c| <= |a|
  {
    OneLineExactly(s);
    forall c, d | VisibilitySplit(s, c, d)
      ensures MatchVisibility(s).Some? && |c| <= |MatchVisibility(s).value.0|
    {
      assert s[|c|] == '[' && s[|s| - 1] == ']';
    }
    if MatchVisibility(s).Some? {
      var i := LastIndex(s, '[').value;
      assert s == s[..i] + "[" + s[i + 1..|s| - 1] + "]";
    }
  }

  /** The key pattern matches when any split exists, and takes the one with the longest first group. */
  lemma KeyMatchIsGreedy(s: string)
    ensures match MatchPropertyKey(s)
            case None => forall a, b :: !KeySplit(s, a, b)
            case Some((a, b)) => KeySplit(s, a, b) && forall c, d :: KeySplit(s, c, d) ==> |c| <= |a|
  {
    OneLineExactly(s);
    forall c, d | KeySplit(s, c, d)
      ensures MatchPropertyKey(s).Some? && |c| <= |MatchPropertyKey(s).value.0|
    {
      assert s[|c|] == ':';
      var i := LastIndex(s, ':').value;
      assert |c| <= i;
      assert c == s[..|c|];
      var j :| 0 <= j < |c| && c[j] == '#';
      assert s[..i][j] == '#';
    }
    if MatchPropertyKey(s).Some? {
      var i := LastIndex(s, ':').value;
      assert s == s[..i] + ":" + s[i + 1..];
    }
  }

  // ---------------------------------------------------------------- importing as functions

  /** A name with the visibility in its brackets, or with a default. */
  function TakeVisibility(s: string, default_: Visibility): (string, Visibility) {
    match MatchVisibility(s)
    case Some((name, inside)) => (name, MakeVisibility(inside))
    case None => (s, default_)
  }

  function TakeKey(labelUri: string): (string, string) {
    match MatchPropertyKey(labelUri)
    case Some((name, key)) => (name, key)
    case None => (labelUri, MULTI_KEY)
  }

  function GetString(p: Part): Result<string, ImportError>
    requires p.Literal? && p.Valid()
  {
    match p.GetString()
    case Some(s) => Success(s)
    case None => Failure(EscapeOutsideModel)
  }

  function GetPropertyValue(p: Part): Result<PropertyValue, ImportError>
    requires p.Literal? && p.Valid()
  {
    if p.datatypeUri.None? then
      var s :- GetString(p);
      Success(Text(s))
    else
      var typeUri := p.datatypeUri.value.GetUri();
      if typeUri in TEXT_TYPES then
        var s :- GetString(p);
        Success(Text(s))
      else if typeUri in CONVERTED_TYPES then
        var s :- GetString(p);
        Success(Converted(typeUri, s))
      else Failure(UnhandledPropertyType)
  }

  function PropertyWrite(vertexId: string, elementVisibility: Visibility, labelUri: string, p: Part, default_: Visibility)
    : Result<GraphWrite, ImportError>
    requires p.Literal? && p.Valid()
  {
    var (keyed, visibility) := TakeVisibility(labelUri, default_);
    var (name, key) := TakeKey(keyed);
    var value :- GetPropertyValue(p);
    Success(SaveProperty(vertexId, elementVisibility, key, name, value, visibility))
  }

  /** The edge's id keeps the label as written, decoration included. */
  function EdgeWrite(outVertexId: string, labelUri: string, inVertexId: string, default_: Visibility): GraphWrite {
    var (name, visibility) := TakeVisibility(labelUri, default_);
    SaveEdge(outVertexId + "_" + labelUri + "_" + inVertexId, outVertexId, inVertexId, name, visibility)
  }

  function GetConceptType(third: Part): Result<string, ImportError>
    requires third.Valid()
  {
    match third
    case Uri(u) => Success(u.GetUri())
    case Literal(_, _, _, _, _, _) => GetString(third)
    case Empty(_, _, _) => Failure(UnhandledPartType)
  }

  ghost predicate ValidTriple(t: RdfTriple) {
    t.first.Valid() && t.second.Valid() && t.third.Valid()
  }

  /** What one triple writes: nothing when its subject or predicate is no URI. */
  function TripleWrites(t: RdfTriple, default_: Visibility): Result<seq<GraphWrite>, ImportError>
    requires ValidTriple(t)
  {
    if !t.first.Uri? || !t.second.Uri? then Success([])
    else
      var (vertexId, visibility) := TakeVisibility(t.first.uri.GetUri(), default_);
      var labelUri := t.second.uri.GetUri();
      if labelUri == LABEL_CONCEPT_TYPE then
        var conceptType :- GetConceptType(t.third);
        Success([SaveConceptType(vertexId, visibility, conceptType)])
      else match t.third
        case Literal(_, _, _, _, _, _) =>
          var write :- PropertyWrite(vertexId, visibility, labelUri, t.third, default_);
          Success([write])
        case Uri(u) => Success([EdgeWrite(vertexId, labelUri, u.GetUri(), default_)])
        case Empty(_, _, _) => Failure(UnhandledCombination)
  }

  function LineWrites(line: string, default_: Visibility): Result<seq<GraphWrite>, ImportError> {
    if line == "" || line[0] == '#' then Success([])
    else
      match ParseLine(line)
      case Failure(e) => Failure(ParseError(e))
      case Success(t) =>
        ParsedIsTriple(line, t);
        ShapeBounds(line, t.first);
        ShapeBounds(line, t.second);
        ShapeBounds(line, t.third);
        TripleWrites(t, default_)
  }

  // ---------------------------------------------------------------- importing as the source does it

  class RdfTripleImport {
    const defaultVisibility: Visibility
    var visibilityCache: map<string, Visibility>
    /** The writes made to the graph, in order. */
    var writes: seq<GraphWrite>

    /** Whatever the cache holds is what would be made anew. */
    ghost predicate Valid()
      reads this
    {
      forall s :: s in visibilityCache ==> visibilityCache[s] == MakeVisibility(s)
    }

    constructor (defaultVisibility: Visibility)
      ensures Valid() && writes == [] && this.defaultVisibility == defaultVisibility
    {
      this.defaultVisibility := defaultVisibility;
      visibilityCache := map[];
      writes := [];
    }

    method GetVisibility(s: string) returns (v: Visibility)
      requires Valid()
      modifies this`visibilityCache
      ensures Valid() && v == MakeVisibility(s)
      ensures v.expression == if s == "" then "" else "(" + s + ")|visallo"
    {
      if s in visibilityCache {
        v := visibilityCache[s];
      } else {
        v := MakeVisibility(s);
        visibilityCache := visibilityCache[s := v];
      }
    }

    method SplitVisibility(s: string) returns (name: string, v: Visibility)
      requires Valid()
      modifies this`visibilityCache
      ensures Valid() && (name, v) == TakeVisibility(s, defaultVisibility)
    {
      name, v := s, defaultVisibility;
      var m := MatchVisibility(s);
      if m.Some? {
        name := m.value.0;
        v := GetVisibility(m.value.1);
      }
    }

    method AddEdge(outVertexId: string, labelUri: string, inVertexId: string)
      requires Valid()
      modifies this
      ensures Valid()
      ensures writes == old(writes) + [EdgeWrite(outVertexId, labelUri, inVertexId, defaultVisibility)]
    {
      var edgeId := outVertexId + "_" + labelUri + "_" + inVertexId;
      var name, visibility := SplitVisibility(labelUri);
      writes := writes + [SaveEdge(edgeId, outVertexId, inVertexId, name, visibility)];
    }

    method SetProperty(vertexId: string, elementVisibility: Visibility, labelUri: string, p: Part)
      returns (r: Result<(), ImportError>)
      requires Valid() && p.Literal? && p.Valid()
      modifies this
      ensures Valid()
      ensures match PropertyWrite(vertexId, elementVisibility, labelUri, p, defaultVisibility)
              case Failure(e) => r == Failure(e) && writes == old(writes)
              case Success(w) => r == Success(()) && writes == old(writes) + [w]
    {
      var keyed, visibility := SplitVisibility(labelUri);
      var (name, key) := TakeKey(keyed);
      var value :- GetPropertyValue(p);
      writes := writes + [SaveProperty(vertexId, elementVisibility, key, name, value, visibility)];
      r := Success(());
    }

    method ImportRdfTriple(t: RdfTriple) returns (r: Result<(), ImportError>)
      requires Valid() && ValidTriple(t)
      modifies this
      ensures Valid()
      ensures match TripleWrites(t, defaultVisibility)
              case Failure(e) => r == Failure(e) && writes == old(writes)
              case Success(ws) => r == Success(()) && writes == old(writes) + ws
    {
      if !t.first.Uri? || !t.second.Uri? {
        return Success(());
      }
      var labelUri := t.second.uri.GetUri();
      var vertexId, vertexVisibility := SplitVisibility(t.first.uri.GetUri());
      if labelUri == LABEL_CONCEPT_TYPE {
        var conceptType :- GetConceptType(t.third);
        writes := writes + [SaveConceptType(vertexId, vertexVisibility, conceptType)];
        return Success(());
      }
      match t.third
      case Literal(_, _, _, _, _, _) => r := SetProperty(vertexId, vertexVisibility, labelUri, t.third);
      case Uri(u) =>
        AddEdge(vertexId, labelUri, u.GetUri());
        r := Success(());
      case Empty(_, _, _) => r := Failure(UnhandledCombination);
    }

    /** Whatever lines came before, a line has exactly the effect it has on its own. */
    method ImportRdfLine(line: string) returns (r: Result<(), ImportError>)
      requires Valid()
      modifies this
      ensures Valid()
      ensures match LineWrites(line, defaultVisibility)
              case Failure(e) => r == Failure(e) && writes == old(writes)
              case Success(ws) => r == Success(()) && writes == old(writes) + ws
    {
      if line == "" || line[0] == '#' {
        return Success(());
      }
      var parsed := Parse(line);
      if parsed.Failure? {
        return Failure(ParseError(parsed.error));
      }
      ParsedIsTriple(line, parsed.value);
      ShapeBounds(line, parsed.value.first);
      ShapeBounds(line, parsed.value.second);
      ShapeBounds(line, parsed.value.third);
      r := ImportRdfTriple(parsed.value);
    }
  }

  // ---------------------------------------------------------------- the lines of a file

  /** Characters that trimming a line takes off its ends: the space and everything below it. */
  predicate IsTrimmed(c: char) {
    c as int <= 0x20
  }

  function TrimStart(s: string): string {
    if s != "" && IsTrimmed(s[0]) then TrimStart(s[1..]) else s
  }

  function TrimEnd(s: string): string {
    if s != "" && IsTrimmed(s[|s| - 1]) then TrimEnd(s[..|s| - 1]) else s
  }

  function Trim(line: string): string {
    TrimEnd(TrimStart(line))
  }

  lemma {:induction false} TrimStartSkips(before: string, s: string)
    requires forall c :: c in before ==> IsTrimmed(c)
    ensures TrimStart(before + s) == TrimStart(s)
  {
    if before == "" {
      assert before + s == s;
    } else {
      assert (before + s)[1..] == before[1..] + s;
      TrimStartSkips(before[1..], s);
    }
  }

  lemma {:induction false} TrimEndSkips(s: string, after: string)
    requires forall c :: c in after ==> IsTrimmed(c)
    ensures TrimEnd(s + after) == TrimEnd(s)
  {
    if after == "" {
      assert s + after == s;
    } else {
      var n := |after| - 1;
      assert (s + after)[..|s + after| - 1] == s + after[..n];
      TrimEndSkips(s, after[..n]);
    }
  }

  /** Trimming a line with blanks around a text that neither begins nor ends with one gives the text. */
  lemma TrimExactly(before: string, s: string, after: string)
    requires forall c :: c in before + after ==> c <= ' '
    requires s != "" ==> s[0] > ' ' && s[|s| - 1] > ' '
    ensures Trim(before + s + after) == s
  {
    assert before + s + after == before + (s + after);
    forall c | c in before || c in after ensures IsTrimmed(c) {
      assert c in before + after;
    }
    TrimStartSkips(before, s + after);
    if s == "" {
      assert s + after == after + "";
      TrimStartSkips(after, "");
    } else {
      assert TrimStart(s + after) == s + after;
      TrimEndSkips(s, after);
    }
  }

  /** What the lines write, each trimmed and on its own; a line that fails writes nothing. */
  function AllWrites(lines: seq<string>, default_: Visibility): seq<GraphWrite> {
    if lines == [] then []
    else AllWrites(lines[..|lines| - 1], default_) + WritesOrNone(LineWrites(Trim(lines[|lines| - 1]), default_))
  }

  function WritesOrNone(r: Result<seq<GraphWrite>, ImportError>): seq<GraphWrite> {
    if r.Success? then r.value else []
  }

  /** Empty lines and comments write nothing, without an error. */
  lemma CommentsAreSkipped(comment: string, default_: Visibility)
    ensures LineWrites("", default_) == Success([])
    ensures LineWrites("#" + comment, default_) == Success([])
  {
  }

  lemma OneLineWrites(line: string, default_: Visibility)
    ensures AllWrites([line], default_) ==
              match LineWrites(Trim(line), default_)
              case Success(writes) => writes
              case Failure(_) => []
  {
    assert [line][..0] == [];
    assert AllWrites([], default_) == [];
  }

  /** Lines write what they write one by one: a line that fails writes nothing and keeps no other from writing. */
  lemma {:induction false} AllWritesConcat(a: seq<string>, b: seq<string>, default_: Visibility)
    ensures AllWrites(a + b, default_) == AllWrites(a, default_) + AllWrites(b, default_)
  {
    if b == [] {
      assert a + b == a;
    } else {
      var n := |b| - 1;
      assert (a + b)[..|a + b| - 1] == a + b[..n];
      AllWritesConcat(a, b[..n], default_);
      Associative(AllWrites(a, default_), AllWrites(b[..n], default_), WritesOrNone(LineWrites(Trim(b[n]), default_)));
    }
  }

  lemma AllWritesNext(lines: seq<string>, i: nat, default_: Visibility)
    requires i < |lines|
    ensures AllWrites(lines[..i + 1], default_)
         == AllWrites(lines[..i], default_) + WritesOrNone(LineWrites(Trim(lines[i]), default_))
  {
    assert lines[..i + 1][..i] == lines[..i];
  }

  /** The mapper's work on one line. */
  method MapLine(importer: RdfTripleImport, line: string)
    requires importer.Valid()
    modifies importer
    ensures importer.Valid()
    ensures importer.writes == old(importer.writes) + WritesOrNone(LineWrites(Trim(line), importer.defaultVisibility))
  {
    var r := importer.ImportRdfLine(Trim(line));
  }

  /** A run over many lines, as a mapper makes it: the visibilities cached on the way change nothing. */
  method ImportLines(importer: RdfTripleImport, lines: seq<string>)
    requires importer.Valid()
    modifies importer
    ensures importer.Valid()
    ensures importer.writes == old(importer.writes) + AllWrites(lines, importer.defaultVisibility)
  {
    for i := 0 to |lines|
      invariant importer.Valid()
      invariant importer.writes == old(importer.writes) + AllWrites(lines[..i], importer.defaultVisibility)
    {
      AllWritesNext(lines, i, importer.defaultVisibility);
      Associative(old(importer.writes), AllWrites(lines[..i], importer.defaultVisibility),
                  WritesOrNone(LineWrites(Trim(lines[i]), importer.defaultVisibility)));
      MapLine(importer, lines[i]);
    }
    assert lines[..|lines|] == lines;
  }

  // ---------------------------------------------------------------- decorated names

  /** A name with an optional property key and an optional visibility. */
  datatype Decorated = Decorated(name: string, key: Option<string>, visibility: Option<string>)

  function Keyed(d: Decorated): string {
    WithKey(d.name, d.key)
  }

  function Bracketed(s: string, visibility: Option<string>): string {
    if visibility.None? then s else s + "[" + visibility.value + "]"
  }

  function Decorate(d: Decorated): string {
    Bracketed(Keyed(d), d.visibility)
  }

  function SplitBrackets(s: string): (string, Option<string>) {
    match MatchVisibility(s)
    case None => (s, None)
    case Some((before, inside)) => (before, Some(inside))
  }

  function SplitKey(s: string): (string, Option<string>) {
    match MatchPropertyKey(s)
    case None => (s, None)
    case Some((name, key)) => (name, Some(key))
  }

  /** The importer's way of taking a label apart. */
  function Undecorate(labelUri: string): Decorated {
    var (keyed, visibility) := SplitBrackets(labelUri);
    var (name, key) := SplitKey(keyed);
    Decorated(name, key, visibility)
  }

  function WithKey(name: string, key: Option<string>): string {
    if key.None? then name else name + ":" + key.value
  }

  /** A visibility holds no '['; without one the name must not look bracketed. */
  predicate PlainVisibility(s: string, visibility: Option<string>) {
    match visibility
    case None => MatchVisibility(s).None?
    case Some(v) => '[' !in v && OneLine(Bracketed(s, visibility))
  }

  /** A key holds no ':' and follows a name with '#'; without one the name must not look keyed. */
  predicate PlainKey(name: string, key: Option<string>) {
    match key
    case None => MatchPropertyKey(name).None?
    case Some(k) => ':' !in k && '#' in name && OneLine(name + ":" + k)
  }

  predicate Canonical(d: Decorated) {
    PlainVisibility(Keyed(d), d.visibility) && PlainKey(d.name, d.key)
  }

  lemma LastIndexAt(s: string, a: string, c: char, b: string)
    requires s == a + [c] + b && c !in b
    ensures LastIndex(s, c) == Some(|a|)
  {
    assert s[|a|] == c;
    forall i | |a| < i < |s| ensures s[i] != c {
      assert s[i] == b[i - |a| - 1] && s[i] in b;
    }
  }

  lemma SplitBracketsJoins(s: string)
    ensures Bracketed(SplitBrackets(s).0, SplitBrackets(s).1) == s
  {
    VisibilityMatchIsGreedy(s);
  }

  lemma SplitKeyJoins(s: string)
    ensures WithKey(SplitKey(s).0, SplitKey(s).1) == s
  {
    KeyMatchIsGreedy(s);
  }

  lemma SplitBracketsExactly(s: string, visibility: Option<string>)
    ensures SplitBrackets(Bracketed(s, visibility)) == (s, visibility) <==> PlainVisibility(s, visibility)
  {
    if visibility.Some? {
      var v := visibility.value;
      var all := Bracketed(s, visibility);
      assert all == s + "[" + (v + "]");
      if '[' !in v {
        LastIndexAt(all, s, '[', v + "]");
        assert all[..|s|] == s && all[|s| + 1..|all| - 1] == v;
      } else {
        var j :| 0 <= j < |v| && v[j] == '[';
        assert all[|s| + 1 + j] == '[';
      }
    }
  }

  lemma SplitKeyExactly(name: string, key: Option<string>)
    ensures SplitKey(WithKey(name, key)) == (name, key) <==> PlainKey(name, key)
  {
    if key.Some? {
      var k := key.value;
      var all := WithKey(name, key);
      assert all == name + ":" + k;
      if ':' !in k {
        LastIndexAt(all, name, ':', k);
        assert all[..|name|] == name && all[|name| + 1..] == k;
      } else {
        var j :| 0 <= j < |k| && k[j] == ':';
        assert all[|name| + 1 + j] == ':';
      }
    }
  }

  /** Taking a label apart loses nothing. */
  lemma DecorateAfterUndecorate(labelUri: string)
    ensures Decorate(Undecorate(labelUri)) == labelUri
  {
    SplitBracketsJoins(labelUri);
    SplitKeyJoins(SplitBrackets(labelUri).0);
  }

  /** Taking a decorated label apart gives back what was put together, exactly for canonical decorations. */
  lemma UndecorateExactly(d: Decorated)
    ensures Undecorate(Decorate(d)) == d <==> Canonical(d)
  {
    SplitBracketsExactly(Keyed(d), d.visibility);
    SplitKeyExactly(d.name, d.key);
    SplitKeyJoins(SplitBrackets(Decorate(d)).0);
  }

  // ---------------------------------------------------------------- importing printed statements

  /** What is meant by a decoration: the default without one, public for an empty one, else what it says or the super user. */
  ghost function Meant(visibility: Option<string>, default_: Visibility): Visibility {
    match visibility
    case None => default_
    case Some(s) => Visibility(if s == "" then "" else "(" + s + ")|visallo")
  }

  function VisibilityOr(visibility: Option<string>, default_: Visibility): (r: Visibility)
    ensures r == Meant(visibility, default_)
  {
    if visibility.None? then default_ else MakeVisibility(visibility.value)
  }

  lemma TakesPlainVisibility(s: string, visibility: Option<string>, default_: Visibility)
    requires PlainVisibility(s, visibility)
    ensures TakeVisibility(Bracketed(s, visibility), default_) == (s, VisibilityOr(visibility, default_))
  {
    SplitBracketsExactly(s, visibility);
  }

  lemma TakesPlainKey(name: string, key: Option<string>)
    requires PlainKey(name, key)
    ensures TakeKey(WithKey(name, key)) == (name, if key.None? then MULTI_KEY else key.value)
  {
    SplitKeyExactly(name, key);
  }

  /** The value a printed literal is imported as, when its datatype is one the importer knows. */
  function ImportedValue(value: string, a: Annotation): Option<PropertyValue> {
    match a
    case Typed(uri) =>
      if uri in TEXT_TYPES then Some(Text(value))
      else if uri in CONVERTED_TYPES then Some(Converted(uri, value))
      else None
    case _ => Some(Text(value))
  }

  /** A statement about a vertex, its id decorated with a visibility. */
  ghost predicate AboutVertex(s: Statement, id: string, visibility: Option<string>, labelUri: string) {
    && WellFormed(s) && PeriodSetOff(s)
    && s.terms.0 == UriTerm(Bracketed(id, visibility)) && PlainVisibility(id, visibility)
    && s.terms.1 == UriTerm(labelUri)
  }

  /** The triple of a printed statement, as the importer sees it. */
  lemma PrintedTriple(s: Statement, default_: Visibility) returns (t: RdfTriple)
    requires WellFormed(s) && PeriodSetOff(s) && s.terms.0.UriTerm?
    ensures ValidTriple(t)
    ensures Denotes(t.first, s.terms.0) && Denotes(t.second, s.terms.1) && Denotes(t.third, s.terms.2)
    ensures LineWrites(Print(s), default_) == TripleWrites(t, default_)
  {
    ParseAfterPrint(s);
    t := ParseLine(Print(s)).value;
    var line := Print(s);
    assert !IsWhitespace('#');
    assert line[0] == if s.before.0 == "" then '<' else s.before.0[0];
    assert s.before.0 != "" ==> s.before.0[0] in s.before.0;
  }

  lemma ImportsValue(p: Part, value: string, a: Annotation)
    requires Denotes(p, LiteralTerm(value, a))
    ensures GetPropertyValue(p) ==
            match ImportedValue(value, a)
            case None => Failure(UnhandledPropertyType)
            case Some(v) => Success(v)
  {
  }

  /** The write of a property with a decorated name. */
  lemma WritesDecorated(id: string, v: Visibility, d: Decorated, p: Part, value: string, a: Annotation, default_: Visibility)
    requires Denotes(p, LiteralTerm(value, a)) && Canonical(d)
    ensures PropertyWrite(id, v, Decorate(d), p, default_) ==
            match ImportedValue(value, a)
            case None => Failure(UnhandledPropertyType)
            case Some(imported) =>
              Success(SaveProperty(id, v, if d.key.None? then MULTI_KEY else d.key.value,
                                   d.name, imported, VisibilityOr(d.visibility, default_)))
  {
    ImportsValue(p, value, a);
    TakesPlainVisibility(Keyed(d), d.visibility, default_);
    TakesPlainKey(d.name, d.key);
  }

  /** A printed property statement performs exactly the intended property write. */
  lemma ImportsPrintedProperty(
      s: Statement, id: string, visibility: Option<string>, d: Decorated,
      value: string, a: Annotation, default_: Visibility)
    requires AboutVertex(s, id, visibility, Decorate(d)) && Canonical(d) && Decorate(d) != LABEL_CONCEPT_TYPE
    requires s.terms.2 == LiteralTerm(value, a)
    ensures LineWrites(Print(s), default_) ==
            match ImportedValue(value, a)
            case None => Failure(UnhandledPropertyType)
            case Some(v) =>
              Success([SaveProperty(id, Meant(visibility, default_),
                                    if d.key.None? then "RdfTripleImport" else d.key.value,
                                    d.name, v, Meant(d.visibility, default_))])
  {
    var t := PrintedTriple(s, default_);
    TakesPlainVisibility(id, visibility, default_);
    WritesDecorated(id, VisibilityOr(visibility, default_), d, t.third, value, a, default_);
  }

  /** A printed edge statement adds the intended edge; its id keeps the decorated label, and the other end is taken as it is. */
  lemma ImportsPrintedEdge(
      s: Statement, id: string, visibility: Option<string>, name: string, edgeVisibility: Option<string>,
      inVertexId: string, default_: Visibility)
    requires AboutVertex(s, id, visibility, Bracketed(name, edgeVisibility))
    requires PlainVisibility(name, edgeVisibility) && Bracketed(name, edgeVisibility) != LABEL_CONCEPT_TYPE
    requires s.terms.2 == UriTerm(inVertexId)
    ensures LineWrites(Print(s), default_) ==
            Success([SaveEdge(id + "_" + Bracketed(name, edgeVisibility) + "_" + inVertexId, id, inVertexId,
                              name, Meant(edgeVisibility, default_))])
  {
    var t := PrintedTriple(s, default_);
    TakesPlainVisibility(id, visibility, default_);
    TakesPlainVisibility(name, edgeVisibility, default_);
  }

  /** A printed type statement sets the concept type under the vertex's own visibility. */
  lemma ImportsPrintedConceptType(s: Statement, id: string, visibility: Option<string>, default_: Visibility)
    requires AboutVertex(s, id, visibility, LABEL_CONCEPT_TYPE)
    ensures LineWrites(Print(s), default_) ==
            Success([SaveConceptType(id, Meant(visibility, default_),
                                     if s.terms.2.UriTerm? then s.terms.2.uri else s.terms.2.value)])
  {
    var t := PrintedTriple(s, default_);
    TakesPlainVisibility(id, visibility, default_);
  }
}
