/**
 The line parser for RDF triples: RdfTripleParser.java, with the parts of RdfTriple.java
 that it produces. A line is scanned by index; each part keeps its place in the line.
 */
module RdfTripleParser {
  import opened Wrappers

  // ---------------------------------------------------------------- parts

  datatype UriPart = UriPart(line: string, start: nat, end: nat)
  {
    ghost predicate Valid() { start + 2 <= end <= |line| }

    function GetUri(): string
      requires Valid()
    {
      line[start + 1..end - 1]
    }
  }

  datatype Span = Span(start: nat, end: nat)

  datatype Part =
    | Empty(line: string, start: nat, end: nat)
    | Uri(uri: UriPart)
    | Literal(line: string, start: nat, end: nat, text: Span, language: Option<Span>, datatypeUri: Option<UriPart>)
  {
    function Start(): nat { if Uri? then uri.start else start }

    function End(): nat { if Uri? then uri.end else end }

    ghost predicate Valid() {
      match this
      case Empty(_, _, _) => true
      case Uri(u) => u.Valid()
      case Literal(l, _, _, t, lang, type_) =>
        && t.start <= t.end <= |l|
        && (lang.Some? ==> lang.value.start <= lang.value.end <= |l|)
        && (type_.Some? ==> type_.value.Valid())
    }

    /** The unescaped text of a literal; None stands for an escape outside the model. */
    function GetString(): Option<string>
      requires Literal? && Valid()
    {
      UnescapeJava(line[text.start..text.end])
    }

    function GetLanguage(): string
      requires Literal? && Valid()
    {
      if language.None? then "" else line[language.value.start..language.value.end]
    }
  }

  datatype RdfTriple = RdfTriple(first: Part, second: Part, third: Part, fourth: Option<Part>)

  datatype Error =
    | UnexpectedCharacter
    | UnexpectedEndOfUri
    | UnexpectedEndOfString
    | UnexpectedEndOfLine
    | StringIndexOutOfBounds

  // ---------------------------------------------------------------- characters and escapes

  /** Character.isWhitespace: separators other than no-break spaces, and the control separators. */
  predicate IsWhitespace(c: char) {
    var n := c as int;
    || 0x09 <= n <= 0x0D || 0x1C <= n <= 0x20
    || n == 0x1680 || n == 0x180E || 0x2000 <= n <= 0x2006 || 0x2008 <= n <= 0x200A
    || n == 0x2028 || n == 0x2029 || n == 0x205F || n == 0x3000
  }

  /** Of the characters below U+0080, the blanks and the control separators separate parts; no-break spaces do not. */
  lemma WhitespaceExactly(c: char)
    ensures c < '\U{0080}' ==>
              (IsWhitespace(c) <==> c in {'\t', '\n', '\U{000B}', '\U{000C}', '\r', ' ',
                                          '\U{001C}', '\U{001D}', '\U{001E}', '\U{001F}'})
    ensures c >= '\U{0080}' ==>
              (IsWhitespace(c) <==> ('\U{2000}' <= c <= '\U{200A}' && c != '\U{2007}')
                                    || c in {'\U{1680}', '\U{180E}', '\U{2028}', '\U{2029}', '\U{205F}', '\U{3000}'})
  {
  }

  const BACKSPACE: char := '\U{0008}'
  const FORM_FEED: char := '\U{000C}'

  /** unescapeJava on the single-letter escapes; None for a \u sequence, which the model does not cover. */
  function UnescapeJava(s: string): Option<string> {
    if s == "" then Some("")
    else if s[0] != '\\' then
      var rest :- UnescapeJava(s[1..]);
      Some([s[0]] + rest)
    else if |s| == 1 then Some("\\")
    else if s[1] == 'u' then None
    else
      var c := match s[1]
        case 'r' => '\r'
        case 'f' => FORM_FEED
        case 't' => '\t'
        case 'n' => '\n'
        case 'b' => BACKSPACE
        case other => other;
      var rest :- UnescapeJava(s[2..]);
      Some([c] + rest)
  }

  // ---------------------------------------------------------------- scanning

  function SkipWhitespace(line: string, from: nat): (i: nat)
    requires from <= |line|
    ensures from <= i <= |line|
    ensures forall j :: from <= j < i ==> IsWhitespace(line[j])
    ensures i < |line| ==> !IsWhitespace(line[i])
    decreases |line| - from
  {
    if from < |line| && IsWhitespace(line[from]) then SkipWhitespace(line, from + 1) else from
  }

  /** The end of the run without whitespace. */
  function SkipToWhitespace(line: string, from: nat): (i: nat)
    requires from <= |line|
    ensures from <= i <= |line|
    ensures forall j :: from <= j < i ==> !IsWhitespace(line[j])
    ensures i < |line| ==> IsWhitespace(line[i])
    decreases |line| - from
  {
    if from < |line| && !IsWhitespace(line[from]) then SkipToWhitespace(line, from + 1) else from
  }

  /** The first '>' at or after an index. */
  function UriClose(line: string, from: nat): (r: Option<nat>)
    requires from <= |line|
    ensures r.Some? ==> from <= r.value < |line| && line[r.value] == '>'
    ensures forall j :: from <= j < (if r.Some? then r.value else |line|) ==> line[j] != '>'
    decreases |line| - from
  {
    if from == |line| then None
    else if line[from] == '>' then Some(from)
    else UriClose(line, from + 1)
  }

  /** The quote that ends a literal: the scan steps over whatever follows a backslash. */
  function ClosingQuote(line: string, from: nat): (r: Option<nat>)
    ensures r.Some? ==> from <= r.value < |line| && line[r.value] == '"'
    decreases |line| - from
  {
    if from >= |line| then None
    else if line[from] == '\\' then ClosingQuote(line, from + 2)
    else if line[from] == '"' then Some(from)
    else ClosingQuote(line, from + 1)
  }

  // ---------------------------------------------------------------- parsing as functions

  function ReadUriPart(line: string, start: nat): Result<UriPart, Error>
    requires start < |line|
  {
    match UriClose(line, start + 1)
    case None => Failure(UnexpectedEndOfUri)
    case Some(i) => Success(UriPart(line, start, i + 1))
  }

  /** What follows the closing quote of a literal. */
  function ReadSuffix(line: string, start: nat, quote: nat): Result<Part, Error>
    requires start < quote < |line|
  {
    var text := Span(start + 1, quote);
    var i := quote + 1;
    if i < |line| && line[i] == '@' then
      var end := SkipToWhitespace(line, i);
      Success(Literal(line, start, end, text, Some(Span(i + 1, end)), None))
    else if i < |line| && line[i] == '^' && i + 1 >= |line| then Failure(StringIndexOutOfBounds)
    else if i < |line| && line[i] == '^' && line[i + 1] == '^' && i + 2 >= |line| then Failure(StringIndexOutOfBounds)
    else if i < |line| && line[i] == '^' && line[i + 1] == '^' && line[i + 2] == '<' then
      var u :- ReadUriPart(line, i + 2);
      Success(Literal(line, start, u.end, text, None, Some(u)))
    else Success(Literal(line, start, i, text, None, None))
  }

  function ReadLiteralPart(line: string, start: nat): Result<Part, Error>
    requires start < |line|
  {
    match ClosingQuote(line, start + 1)
    case None => Failure(UnexpectedEndOfString)
    case Some(quote) => ReadSuffix(line, start, quote)
  }

  function ReadPart(line: string, from: nat): (r: Result<Part, Error>)
    requires from <= |line|
    ensures r.Success? ==> from <= r.value.Start() < r.value.End() <= |line|
  {
    var i := SkipWhitespace(line, from);
    if i == |line| then Failure(StringIndexOutOfBounds)
    else if line[i] == '.' then Success(Empty(line, i, i + 1))
    else if line[i] == '<' then
      var u :- ReadUriPart(line, i);
      Success(Uri(u))
    else if line[i] == '"' then ReadLiteralPart(line, i)
    else Failure(UnexpectedCharacter)
  }

  function ParseLine(line: string): Result<RdfTriple, Error> {
    var first :- ReadPart(line, 0);
    var second :- ReadPart(line, first.End());
    var third :- ReadPart(line, second.End());
    if third.End() == |line| then Success(RdfTriple(first, second, third, None))
    else
      var fourth :- ReadPart(line, third.End());
      if fourth.End() != |line| then Failure(UnexpectedEndOfLine)
      else Success(RdfTriple(first, second, third, Some(fourth)))
  }

  // ---------------------------------------------------------------- parsing as the source does it

  method FindNonWhitespace(line: string, from: nat) returns (i: nat)
    requires from <= |line|
    ensures i == SkipWhitespace(line, from)
  {
    i := from;
    while i < |line|
      invariant from <= i <= |line|
      invariant SkipWhitespace(line, from) == SkipWhitespace(line, i)
    {
      if !IsWhitespace(line[i]) {
        return;
      }
      i := i + 1;
    }
  }

  method ScanUriPart(line: string, start: nat) returns (r: Result<UriPart, Error>)
    requires start < |line|
    ensures r == ReadUriPart(line, start)
  {
    var i := start + 1;
    while i < |line|
      invariant start < i <= |line|
      invariant UriClose(line, start + 1) == UriClose(line, i)
    {
      if line[i] == '>' {
        return Success(UriPart(line, start, i + 1));
      }
      i := i + 1;
    }
    r := Failure(UnexpectedEndOfUri);
  }

  method ScanLiteralPart(line: string, start: nat) returns (r: Result<Part, Error>)
    requires start < |line|
    ensures r == ReadLiteralPart(line, start)
  {
    var stringStart := start + 1;
    var stringEnd: Option<nat> := None;
    var langStart: Option<nat>, langEnd: Option<nat> := None, None;
    var datatypeUri: Option<UriPart> := None;
    var i := start + 1;
    while i < |line|
      invariant start < i <= |line| + 1
      invariant stringEnd.None? && ClosingQuote(line, start + 1) == ClosingQuote(line, i)
    {
      if line[i] == '\\' {
        i := i + 2;
        continue;
      }
      if line[i] == '"' {
        stringEnd := Some(i);
        i := i + 1;
        break;
      }
      i := i + 1;
    }
    if i < |line| {
      if line[i] == '@' {
        langStart := Some(i + 1);
        ghost var at := i;
        while i < |line| && !IsWhitespace(line[i])
          invariant at <= i <= |line|
          invariant SkipToWhitespace(line, at) == SkipToWhitespace(line, i)
        {
          i := i + 1;
        }
        langEnd := Some(i);
      } else if line[i] == '^' {
        if i + 1 >= |line| {
          return Failure(StringIndexOutOfBounds);
        }
        if line[i + 1] == '^' {
          if i + 2 >= |line| {
            return Failure(StringIndexOutOfBounds);
          }
          if line[i + 2] == '<' {
            var u := ScanUriPart(line, i + 2);
            if u.Failure? {
              return Failure(u.error);
            }
            datatypeUri := Some(u.value);
            i := u.value.end;
          }
        }
      }
    }
    if stringEnd.Some? {
      var language := if langStart.Some? && langEnd.Some? then Some(Span(langStart.value, langEnd.value)) else None;
      r := Success(Literal(line, start, i, Span(stringStart, stringEnd.value), language, datatypeUri));
    } else {
      r := Failure(UnexpectedEndOfString);
    }
  }

  method ScanPart(line: string, from: nat) returns (r: Result<Part, Error>)
    requires from <= |line|
    ensures r == ReadPart(line, from)
  {
    var i := FindNonWhitespace(line, from);
    if i == |line| {
      return Failure(StringIndexOutOfBounds);
    }
    var startChar := line[i];
    if startChar == '.' {
      r := Success(Empty(line, i, i + 1));
    } else if startChar == '<' {
      var u := ScanUriPart(line, i);
      r := if u.Success? then Success(Uri(u.value)) else Failure(u.error);
    } else if startChar == '"' {
      r := ScanLiteralPart(line, i);
    } else {
      r := Failure(UnexpectedCharacter);
    }
  }

  method Parse(line: string) returns (r: Result<RdfTriple, Error>)
    ensures r == ParseLine(line)
  {
    var first :- ScanPart(line, 0);
    var second :- ScanPart(line, first.End());
    var third :- ScanPart(line, second.End());
    var fourth: Option<Part> := None;
    if third.End() != |line| {
      var last :- ScanPart(line, third.End());
      fourth := Some(last);
      if last.End() != |line| {
        return Failure(UnexpectedEndOfLine);
      }
    }
    r := Success(RdfTriple(first, second, third, fourth));
  }

  // ---------------------------------------------------------------- the closing quote

  /** The number of backslashes that stand immediately before an index, counted back to a bound. */
  function BackslashRun(line: string, from: nat, q: nat): nat
    requires from <= q <= |line|
    decreases q
  {
    if q > from && line[q - 1] == '\\' then 1 + BackslashRun(line, from, q - 1) else 0
  }

  /** An unescaped quote: one preceded by an even run of backslashes. */
  ghost predicate Unescaped(line: string, from: nat, q: nat) {
    from <= q < |line| && line[q] == '"' && BackslashRun(line, from, q) % 2 == 0
  }

  /** The first unescaped quote at or after an index. */
  ghost predicate FirstUnescaped(line: string, from: nat, q: nat) {
    Unescaped(line, from, q) && forall p :: from <= p < q ==> !Unescaped(line, from, p)
  }

  lemma {:induction false} QuoteScan(line: string, from: nat, i: nat)
    requires from <= i
    requires i <= |line| ==> BackslashRun(line, from, i) % 2 == 0
    ensures match ClosingQuote(line, i)
            case None => forall q :: i <= q < |line| ==> !Unescaped(line, from, q)
            case Some(q) => Unescaped(line, from, q) && forall p :: i <= p < q ==> !Unescaped(line, from, p)
    decreases |line| - i
  {
    if i >= |line| {
    } else {
      if line[i] == '\\' {
        assert BackslashRun(line, from, i + 1) == BackslashRun(line, from, i) + 1;
        assert !Unescaped(line, from, i + 1);
        QuoteScan(line, from, i + 2);
      } else if line[i] != '"' {
        QuoteScan(line, from, i + 1);
      }
    }
  }

  /** The scan closes a literal at its first unescaped quote, and fails when there is none. */
  lemma ClosesAtFirstUnescapedQuote(line: string, from: nat, q: nat)
    requires from <= |line|
    ensures ClosingQuote(line, from) == Some(q) <==> FirstUnescaped(line, from, q)
    ensures ClosingQuote(line, from) == None <==> forall p :: from <= p < |line| ==> !Unescaped(line, from, p)
  {
    QuoteScan(line, from, from);
  }

  // ---------------------------------------------------------------- what the parser accepts

  ghost predicate Blank(line: string, from: nat, to: nat) {
    from <= to <= |line| && forall j :: from <= j < to ==> IsWhitespace(line[j])
  }

  ghost predicate UriShape(line: string, u: UriPart) {
    && u.line == line && u.start + 2 <= u.end <= |line|
    && line[u.start] == '<' && line[u.end - 1] == '>'
    && forall j :: u.start < j < u.end - 1 ==> line[j] != '>'
  }

  /** Language to the next blank, a datatype after "^^", or neither. */
  ghost predicate SuffixShape(line: string, quote: nat, p: Part)
    requires p.Literal? && quote < |line|
  {
    var i := quote + 1;
    match (p.language, p.datatypeUri)
    case (Some(lang), None) =>
      && i < |line| && line[i] == '@' && lang == Span(i + 1, p.end)
      && i < p.end <= |line| && (forall j :: i <= j < p.end ==> !IsWhitespace(line[j]))
      && (p.end < |line| ==> IsWhitespace(line[p.end]))
    case (None, Some(u)) =>
      && u.start == i + 2 && UriShape(line, u) && u.end == p.end && line[i] == '^' && line[i + 1] == '^'
    case (None, None) =>
      && p.end == i && (i < |line| ==> line[i] != '@' && line[i] != '^')
    case _ => false
  }

  /** The grammar of one part. */
  ghost predicate PartShape(line: string, p: Part) {
    match p
    case Empty(l, start, end) => l == line && end == start + 1 <= |line| && line[start] == '.'
    case Uri(u) => UriShape(line, u)
    case Literal(l, start, end, text, _, _) =>
      && l == line && start < |line| && line[start] == '"'
      && text.start == start + 1 && ClosingQuote(line, text.start) == Some(text.end)
      && SuffixShape(line, text.end, p)
  }

  /** A line that is three parts and possibly a fourth, separated by nothing but whitespace, to its end. */
  ghost predicate IsTriple(line: string, t: RdfTriple) {
    && PartShape(line, t.first) && PartShape(line, t.second) && PartShape(line, t.third)
    && Blank(line, 0, t.first.Start())
    && Blank(line, t.first.End(), t.second.Start())
    && Blank(line, t.second.End(), t.third.Start())
    && match t.fourth
       case None => t.third.End() == |line|
       case Some(p) => PartShape(line, p) && Blank(line, t.third.End(), p.Start()) && p.End() == |line|
  }

  lemma {:induction false} SkipBlank(line: string, from: nat, to: nat)
    requires Blank(line, from, to) && (to < |line| ==> !IsWhitespace(line[to]))
    ensures SkipWhitespace(line, from) == to
    decreases |line| - from
  {
    if from == to {
    } else {
      SkipBlank(line, from + 1, to);
    }
  }

  lemma ReadsUri(line: string, u: UriPart)
    requires UriShape(line, u)
    ensures ReadUriPart(line, u.start) == Success(u)
  {
    var r := UriClose(line, u.start + 1);
    assert line[u.end - 1] == '>';
    assert r.Some? && r.value == u.end - 1;
  }

  lemma ReadsSuffix(line: string, start: nat, quote: nat, p: Part)
    requires start < quote < |line| && p.Literal? && SuffixShape(line, quote, p)
    requires p.line == line && p.start == start && p.text == Span(start + 1, quote)
    ensures ReadSuffix(line, start, quote) == Success(p)
  {
    var i := quote + 1;
    if p.language.Some? {
      assert SkipToWhitespace(line, i) == p.end;
    } else if p.datatypeUri.Some? {
      ReadsUri(line, p.datatypeUri.value);
    }
  }

  lemma ReadsLiteral(line: string, p: Part)
    requires p.Literal? && PartShape(line, p)
    ensures p.start < |line| && line[p.start] == '"' && ReadLiteralPart(line, p.start) == Success(p)
  {
    ReadsSuffix(line, p.start, p.text.end, p);
  }

  lemma ReadsShape(line: string, from: nat, p: Part)
    requires from <= |line| && PartShape(line, p) && Blank(line, from, p.Start())
    ensures ReadPart(line, from) == Success(p)
  {
    SkipBlank(line, from, p.Start());
    match p
    case Empty(_, _, _) =>
    case Uri(u) => ReadsUri(line, u);
    case Literal(_, _, _, _, _, _) => ReadsLiteral(line, p);
  }

  /** A part that is read as a URI has the shape of one. */
  lemma UriReadHasShape(line: string, start: nat)
    requires start < |line| && line[start] == '<' && ReadUriPart(line, start).Success?
    ensures UriShape(line, ReadUriPart(line, start).value) && ReadUriPart(line, start).value.start == start
  {
  }

  lemma LiteralReadHasShape(line: string, start: nat)
    requires start < |line| && line[start] == '"' && ReadLiteralPart(line, start).Success?
    ensures var p := ReadLiteralPart(line, start).value;
            && p.Literal? && p.start == start < p.end <= |line|
            && (p.end == |line| || line[p.end] != '^' ==> PartShape(line, p))
  {
    var quote := ClosingQuote(line, start + 1).value;
    var i := quote + 1;
    var p := ReadLiteralPart(line, start).value;
    if p.language.Some? {
      assert SuffixShape(line, quote, p);
    } else if p.datatypeUri.Some? {
      UriReadHasShape(line, i + 2);
      assert SuffixShape(line, quote, p);
    } else {
      assert p.end == i;
    }
  }

  /** A part that is read has the shape of a part, provided no '^' follows it. */
  lemma ReadHasShape(line: string, from: nat, p: Part)
    requires from <= |line| && ReadPart(line, from) == Success(p)
    ensures Blank(line, from, p.Start()) && p.End() <= |line|
    ensures p.End() == |line| || line[p.End()] != '^' ==> PartShape(line, p)
  {
    var i := SkipWhitespace(line, from);
    if line[i] == '<' {
      UriReadHasShape(line, i);
    } else if line[i] == '"' {
      LiteralReadHasShape(line, i);
    }
  }

  /** No part starts with '^'. */
  lemma NoPartAtCaret(line: string, from: nat)
    requires from <= |line|
    ensures from < |line| && line[from] == '^' ==> ReadPart(line, from).Failure?
  {
    assert !IsWhitespace('^');
  }

  lemma ShapeBounds(line: string, p: Part)
    requires PartShape(line, p)
    ensures p.Start() < p.End() <= |line| && p.Valid()
  {
  }

  lemma TripleIsParsed(line: string, t: RdfTriple)
    requires IsTriple(line, t)
    ensures ParseLine(line) == Success(t)
  {
    ShapeBounds(line, t.first);
    ReadsShape(line, 0, t.first);
    ShapeBounds(line, t.second);
    ReadsShape(line, t.first.End(), t.second);
    ShapeBounds(line, t.third);
    ReadsShape(line, t.second.End(), t.third);
    if t.fourth.Some? {
      ShapeBounds(line, t.fourth.value);
      ReadsShape(line, t.third.End(), t.fourth.value);
    }
  }

  lemma ParsedIsTriple(line: string, t: RdfTriple)
    requires ParseLine(line) == Success(t)
    ensures IsTriple(line, t)
  {
    ReadHasShape(line, 0, t.first);
    NoPartAtCaret(line, t.first.End());
    ReadHasShape(line, t.first.End(), t.second);
    NoPartAtCaret(line, t.second.End());
    ReadHasShape(line, t.second.End(), t.third);
    if t.fourth.Some? {
      NoPartAtCaret(line, t.third.End());
      ReadHasShape(line, t.third.End(), t.fourth.value);
    }
  }

  /** The parser accepts exactly the lines of this grammar, and returns exactly their parts. */
  lemma AcceptsExactlyTriples(line: string, t: RdfTriple)
    ensures ParseLine(line) == Success(t) <==> IsTriple(line, t)
  {
    if IsTriple(line, t) {
      TripleIsParsed(line, t);
    }
    if ParseLine(line) == Success(t) {
      ParsedIsTriple(line, t);
    }
  }
}
