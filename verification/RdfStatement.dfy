/**
 Statements as other tools print them, and the round trip through the line parser:
 a printed statement parses to parts whose getters return what was printed.
 */
module RdfStatement {
  import opened Wrappers
  import opened RdfTripleParser

  datatype Annotation = Plain | Language(tag: string) | Typed(uri: string)

  datatype Term = UriTerm(uri: string) | LiteralTerm(value: string, annotation: Annotation)

  /** Three terms, the whitespace before each, and whether and after what whitespace a '.' ends the line. */
  datatype Statement = Statement(
    before: (string, string, string), terms: (Term, Term, Term), period: Option<string>)

  // ---------------------------------------------------------------- printing

  function EscapeLiteral(s: string): string {
    if s == "" then "" else EscapeLiteralChar(s[0]) + EscapeLiteral(s[1..])
  }

  function EscapeLiteralChar(c: char): string {
    match c
    case '\\' => "\\\\"
    case '"' => "\\\""
    case '\n' => "\\n"
    case '\r' => "\\r"
    case '\t' => "\\t"
    case _ => if c == BACKSPACE then "\\b" else if c == FORM_FEED then "\\f" else [c]
  }

  function PrintUri(uri: string): string {
    "<" + uri + ">"
  }

  function PrintAnnotation(a: Annotation): string {
    match a
    case Plain => ""
    case Language(tag) => "@" + tag
    case Typed(uri) => "^^" + PrintUri(uri)
  }

  function PrintTerm(t: Term): string {
    match t
    case UriTerm(uri) => PrintUri(uri)
    case LiteralTerm(value, a) => "\"" + EscapeLiteral(value) + "\"" + PrintAnnotation(a)
  }

  function PrintPeriod(period: Option<string>): string {
    if period.None? then "" else period.value + "."
  }

  function PrintFrom2(s: Statement): string {
    s.before.2 + (PrintTerm(s.terms.2) + PrintPeriod(s.period))
  }

  function PrintFrom1(s: Statement): string {
    s.before.1 + (PrintTerm(s.terms.1) + PrintFrom2(s))
  }

  function Print(s: Statement): string {
    s.before.0 + (PrintTerm(s.terms.0) + PrintFrom1(s))
  }

  // ---------------------------------------------------------------- what can be printed

  ghost predicate AllBlank(s: string) {
    forall c :: c in s ==> IsWhitespace(c)
  }

  /** URIs are free of '>' and language tags of whitespace. */
  ghost predicate Printable(t: Term) {
    match t
    case UriTerm(uri) => '>' !in uri
    case LiteralTerm(_, Plain) => true
    case LiteralTerm(_, Language(tag)) => forall c :: c in tag ==> !IsWhitespace(c)
    case LiteralTerm(_, Typed(uri)) => '>' !in uri
  }

  predicate IsLanguage(t: Term) {
    t.LiteralTerm? && t.annotation.Language?
  }

  ghost predicate WellFormed(s: Statement) {
    && AllBlank(s.before.0) && AllBlank(s.before.1) && AllBlank(s.before.2)
    && (s.period.Some? ==> AllBlank(s.period.value))
    && Printable(s.terms.0) && Printable(s.terms.1) && Printable(s.terms.2)
    && (IsLanguage(s.terms.0) ==> s.before.1 != "")
    && (IsLanguage(s.terms.1) ==> s.before.2 != "")
  }

  /** A tagged literal is set off from the final '.', if there is one. */
  predicate PeriodSetOff(s: Statement) {
    IsLanguage(s.terms.2) ==> s.period != Some("")
  }

  // ---------------------------------------------------------------- reading back

  /** The getters of a part return the term. */
  ghost predicate Denotes(p: Part, t: Term) {
    p.Valid() &&
    match t
    case UriTerm(uri) => p.Uri? && p.uri.GetUri() == uri
    case LiteralTerm(value, a) =>
      && p.Literal? && p.GetString() == Some(value)
      && p.GetLanguage() == (if a.Language? then a.tag else "")
      && (p.datatypeUri.Some? <==> a.Typed?)
      && (a.Typed? ==> p.datatypeUri.value.GetUri() == a.uri)
  }

  lemma {:induction false} UnescapeAfterEscape(s: string)
    ensures UnescapeJava(EscapeLiteral(s)) == Some(s)
  {
    if s == "" {
    } else {
      var e, rest := EscapeLiteralChar(s[0]), EscapeLiteral(s[1..]);
      UnescapeAfterEscape(s[1..]);
      assert EscapeLiteral(s) == e + rest;
      assert (e + rest)[|e|..] == rest;
      assert s == [s[0]] + s[1..];
    }
  }

  /** The text at an index of a line. */
  ghost predicate At(line: string, i: nat, s: string) {
    i + |s| <= |line| && line[i..i + |s|] == s
  }

  lemma AtSplit(line: string, i: nat, a: string, b: string)
    requires At(line, i, a + b)
    ensures At(line, i, a) && At(line, i + |a|, b)
  {
    var s := line[i..i + |a + b|];
    assert line[i..i + |a|] == s[..|a|] == a;
    assert line[i + |a|..i + |a| + |b|] == s[|a|..] == b;
  }

  lemma CharAt(line: string, i: nat, c: char)
    requires At(line, i, [c])
    ensures line[i] == c
  {
    assert line[i] == line[i..i + 1][0];
  }

  /** A text between two characters. */
  lemma SurroundedAt(line: string, i: nat, c: char, s: string, d: char)
    requires At(line, i, [c] + s + [d])
    ensures line[i] == c && At(line, i + 1, s) && i + 1 + |s| < |line| && line[i + 1 + |s|] == d
  {
    AtSplit(line, i, [c] + s, [d]);
    AtSplit(line, i, [c], s);
    CharAt(line, i, c);
    CharAt(line, i + 1 + |s|, d);
  }

  lemma EscapedChar(c: char)
    ensures var e := EscapeLiteralChar(c);
            if |e| == 1 then e[0] != '"' && e[0] != '\\' else |e| == 2 && e[0] == '\\'
  {
  }

  /** The scan takes one escaped character in one step. */
  lemma StepsOverEscaped(line: string, from: nat, c: char)
    requires At(line, from, EscapeLiteralChar(c)) && from + |EscapeLiteralChar(c)| < |line|
    ensures ClosingQuote(line, from) == ClosingQuote(line, from + |EscapeLiteralChar(c)|)
  {
    var e := EscapeLiteralChar(c);
    EscapedChar(c);
    assert line[from] == line[from..from + |e|][0];
  }

  lemma StepsOverFirst(line: string, from: nat, s: string)
    requires s != "" && At(line, from, EscapeLiteral(s)) && from + |EscapeLiteral(s)| < |line|
    ensures var e, rest := EscapeLiteralChar(s[0]), EscapeLiteral(s[1..]);
            && |EscapeLiteral(s)| == |e| + |rest| && At(line, from + |e|, rest)
            && ClosingQuote(line, from) == ClosingQuote(line, from + |e|)
  {
    var e, rest := EscapeLiteralChar(s[0]), EscapeLiteral(s[1..]);
    assert EscapeLiteral(s) == e + rest;
    AtSplit(line, from, e, rest);
    StepsOverEscaped(line, from, s[0]);
  }

  /** The scan runs over an escaped text to the quote that follows it. */
  lemma {:induction false} ClosesAfterEscaped(line: string, from: nat, s: string)
    requires At(line, from, EscapeLiteral(s))
    requires from + |EscapeLiteral(s)| < |line| && line[from + |EscapeLiteral(s)|] == '"'
    ensures ClosingQuote(line, from) == Some(from + |EscapeLiteral(s)|)
    decreases |s|
  {
    if s == "" {
    } else {
      StepsOverFirst(line, from, s);
      ClosesAfterEscaped(line, from + |EscapeLiteralChar(s[0])|, s[1..]);
    }
  }

  lemma UriAt(line: string, i: nat, uri: string)
    requires At(line, i, PrintUri(uri)) && '>' !in uri
    ensures var u := UriPart(line, i, i + |PrintUri(uri)|);
            UriShape(line, u) && u.GetUri() == uri
  {
    var end := i + |PrintUri(uri)|;
    SurroundedAt(line, i, '<', uri, '>');
    forall j | i < j < end - 1 ensures line[j] != '>' {
      assert line[j] == line[i + 1..end - 1][j - i - 1] == uri[j - i - 1];
    }
  }

  /** May the text after a term follow it directly? */
  ghost predicate MayFollow(line: string, end: nat, t: Term) {
    && (IsLanguage(t) && end < |line| ==> IsWhitespace(line[end]))
    && (t.LiteralTerm? && t.annotation.Plain? && end < |line| ==> line[end] != '@' && line[end] != '^')
  }

  lemma {:induction false} QuotedAt(line: string, i: nat, value: string)
    requires At(line, i, "\"" + EscapeLiteral(value) + "\"")
    ensures var quote := i + 1 + |EscapeLiteral(value)|;
            && quote < |line| && line[i] == '"'
            && ClosingQuote(line, i + 1) == Some(quote)
            && UnescapeJava(line[i + 1..quote]) == Some(value)
  {
    SurroundedAt(line, i, '"', EscapeLiteral(value), '"');
    ClosesAfterEscaped(line, i + 1, value);
    UnescapeAfterEscape(value);
  }

  lemma TagAt(line: string, i: nat, tag: string)
    requires At(line, i, "@" + tag) && forall c :: c in tag ==> !IsWhitespace(c)
    ensures line[i] == '@' && line[i + 1..i + 1 + |tag|] == tag
    ensures forall j :: i <= j < i + 1 + |tag| ==> !IsWhitespace(line[j])
  {
    AtSplit(line, i, "@", tag);
    assert line[i] == line[i..i + 1][0];
    assert !IsWhitespace('@');
    forall j | i < j < i + 1 + |tag| ensures !IsWhitespace(line[j]) {
      assert line[j] == line[i + 1..i + 1 + |tag|][j - (i + 1)];
    }
  }

  lemma TypeAt(line: string, i: nat, uri: string)
    requires At(line, i, "^^" + PrintUri(uri)) && '>' !in uri
    ensures line[i] == '^' && line[i + 1] == '^'
    ensures var u := UriPart(line, i + 2, i + |"^^" + PrintUri(uri)|);
            UriShape(line, u) && u.GetUri() == uri
  {
    AtSplit(line, i, "^^", PrintUri(uri));
    assert line[i] == line[i..i + 2][0] && line[i + 1] == line[i..i + 2][1];
    UriAt(line, i + 2, uri);
  }

  lemma UriTermAt(line: string, i: nat, uri: string) returns (p: Part)
    requires At(line, i, PrintUri(uri)) && '>' !in uri
    ensures PartShape(line, p) && Denotes(p, UriTerm(uri))
    ensures p.Start() == i && p.End() == i + |PrintUri(uri)|
  {
    UriAt(line, i, uri);
    p := Uri(UriPart(line, i, i + |PrintUri(uri)|));
  }

  lemma PlainAt(line: string, i: nat, value: string) returns (p: Part)
    requires At(line, i, "\"" + EscapeLiteral(value) + "\"")
    requires var end := i + |"\"" + EscapeLiteral(value) + "\""|;
             end < |line| ==> line[end] != '@' && line[end] != '^'
    ensures PartShape(line, p) && Denotes(p, LiteralTerm(value, Plain))
    ensures p.Start() == i && p.End() == i + |"\"" + EscapeLiteral(value) + "\""|
  {
    var quote := i + 1 + |EscapeLiteral(value)|;
    p := Literal(line, i, quote + 1, Span(i + 1, quote), None, None);
    LiteralShape(line, i, value, p);
  }

  lemma TaggedAt(line: string, i: nat, value: string, tag: string) returns (p: Part)
    requires At(line, i, "\"" + EscapeLiteral(value) + "\"")
    requires At(line, i + |"\"" + EscapeLiteral(value) + "\""|, "@" + tag)
    requires forall c :: c in tag ==> !IsWhitespace(c)
    requires var end := i + |"\"" + EscapeLiteral(value) + "\""| + |"@" + tag|;
             end < |line| ==> IsWhitespace(line[end])
    ensures PartShape(line, p) && Denotes(p, LiteralTerm(value, Language(tag)))
    ensures p.Start() == i && p.End() == i + |"\"" + EscapeLiteral(value) + "\""| + |"@" + tag|
  {
    var quote := i + 1 + |EscapeLiteral(value)|;
    var end := quote + 1 + |"@" + tag|;
    p := Literal(line, i, end, Span(i + 1, quote), Some(Span(quote + 2, end)), None);
    assert SuffixShape(line, quote, p) && line[quote + 2..end] == tag by { TagAt(line, quote + 1, tag); }
    LiteralShape(line, i, value, p);
  }

  /** A literal from its quotes and its suffix. */
  lemma {:induction false} LiteralShape(line: string, i: nat, value: string, p: Part)
    requires At(line, i, "\"" + EscapeLiteral(value) + "\"")
    requires p.Literal? && p.line == line && p.start == i && p.text == Span(i + 1, i + 1 + |EscapeLiteral(value)|)
    requires p.text.end < |line| && SuffixShape(line, p.text.end, p)
    ensures PartShape(line, p) && UnescapeJava(line[p.text.start..p.text.end]) == Some(value)
  {
    QuotedAt(line, i, value);
  }

  lemma TypedAt(line: string, i: nat, value: string, uri: string) returns (p: Part)
    requires At(line, i, "\"" + EscapeLiteral(value) + "\"")
    requires At(line, i + |"\"" + EscapeLiteral(value) + "\""|, "^^" + PrintUri(uri))
    requires '>' !in uri
    ensures PartShape(line, p) && Denotes(p, LiteralTerm(value, Typed(uri)))
    ensures p.Start() == i && p.End() == i + |"\"" + EscapeLiteral(value) + "\""| + |"^^" + PrintUri(uri)|
  {
    var quote := i + 1 + |EscapeLiteral(value)|;
    var end := quote + 1 + |"^^" + PrintUri(uri)|;
    TypeAt(line, quote + 1, uri);
    p := Literal(line, i, end, Span(i + 1, quote), None, Some(UriPart(line, quote + 3, end)));
    LiteralShape(line, i, value, p);
  }

  lemma TermAt(line: string, i: nat, t: Term) returns (p: Part)
    requires At(line, i, PrintTerm(t)) && Printable(t) && MayFollow(line, i + |PrintTerm(t)|, t)
    ensures PartShape(line, p) && Denotes(p, t) && p.Start() == i && p.End() == i + |PrintTerm(t)|
  {
    match t
    case UriTerm(uri) => p := UriTermAt(line, i, uri);
    case LiteralTerm(value, a) =>
      var quoted := "\"" + EscapeLiteral(value) + "\"";
      AtSplit(line, i, quoted, PrintAnnotation(a));
      match a
      case Plain => p := PlainAt(line, i, value);
      case Language(tag) => p := TaggedAt(line, i, value, tag);
      case Typed(uri) => p := TypedAt(line, i, value, uri);
  }

  lemma BlankAt(line: string, i: nat, w: string)
    requires At(line, i, w) && AllBlank(w)
    ensures Blank(line, i, i + |w|)
  {
    forall j | i <= j < i + |w| ensures IsWhitespace(line[j]) {
      assert line[j] == w[j - i] && w[j - i] in w;
    }
  }

  /** The rest of a line from an index. */
  ghost predicate Tail(line: string, i: nat, s: string) {
    i <= |line| && line[i..] == s
  }

  lemma TailSplit(line: string, i: nat, a: string, b: string)
    requires Tail(line, i, a + b)
    ensures At(line, i, a) && Tail(line, i + |a|, b)
  {
    var s := line[i..];
    assert line[i..i + |a|] == s[..|a|] == a;
    assert line[i + |a|..] == s[|a|..] == b;
  }

  /** May the rest of the line follow the term? */
  ghost predicate Allows(t: Term, rest: string) {
    rest != "" ==>
      && (IsLanguage(t) ==> IsWhitespace(rest[0]))
      && (t.LiteralTerm? && t.annotation.Plain? ==> rest[0] != '@' && rest[0] != '^')
  }

  /** One term with the whitespace before it is read as a part that denotes it. */
  lemma TermStep(line: string, i: nat, w: string, t: Term, rest: string) returns (p: Part)
    requires Tail(line, i, w + (PrintTerm(t) + rest))
    requires AllBlank(w) && Printable(t) && Allows(t, rest)
    ensures ReadPart(line, i) == Success(p)
    ensures Denotes(p, t) && Tail(line, p.End(), rest)
  {
    TailSplit(line, i, w, PrintTerm(t) + rest);
    BlankAt(line, i, w);
    p := TermTail(line, i + |w|, t, rest);
    ReadsShape(line, i, p);
  }

  lemma TermTail(line: string, i: nat, t: Term, rest: string) returns (p: Part)
    requires Tail(line, i, PrintTerm(t) + rest) && Printable(t) && Allows(t, rest)
    ensures PartShape(line, p) && p.Start() == i
    ensures Denotes(p, t) && Tail(line, p.End(), rest)
  {
    var end := i + |PrintTerm(t)|;
    TailSplit(line, i, PrintTerm(t), rest);
    assert MayFollow(line, end, t) by { FollowTail(line, end, t, rest); }
    p := TermAt(line, i, t);
    assert p.End() == end;
  }

  lemma FollowTail(line: string, end: nat, t: Term, rest: string)
    requires Tail(line, end, rest) && Allows(t, rest)
    ensures MayFollow(line, end, t)
  {
    assert end < |line| ==> rest != "" && line[end] == rest[0];
  }

  /** What comes after a term in a printed statement may follow it. */
  lemma AllowsNext(t: Term, w: string, next: Term, rest: string)
    requires AllBlank(w) && (IsLanguage(t) ==> w != "")
    ensures Allows(t, w + (PrintTerm(next) + rest))
  {
    var all := w + (PrintTerm(next) + rest);
    assert !IsWhitespace('@') && !IsWhitespace('^');
    if w == "" {
      assert all[0] == PrintTerm(next)[0];
    } else {
      assert all[0] == w[0] && w[0] in w;
    }
  }

  /** The final '.' with the whitespace before it. */
  lemma PeriodStep(line: string, i: nat, w: string)
    requires Tail(line, i, w + ".") && AllBlank(w)
    ensures ReadPart(line, i).Success? && ReadPart(line, i).value.End() == |line|
  {
    TailSplit(line, i, w, ".");
    BlankAt(line, i, w);
    assert line[i + |w|] == line[i + |w|..][0];
    ReadsShape(line, i, Empty(line, i + |w|, i + |w| + 1));
  }

  lemma AllowsPeriod(s: Statement)
    requires WellFormed(s) && PeriodSetOff(s)
    ensures Allows(s.terms.2, PrintPeriod(s.period))
  {
    if s.period.Some? && s.period.value != "" {
      var w := s.period.value;
      assert (w + ".")[0] == w[0] && w[0] in w;
      assert !IsWhitespace('@') && !IsWhitespace('^');
    }
  }

  /** The parts denote the three terms, and there is a fourth one exactly when a '.' was printed. */
  ghost predicate ReadsAs(r: Result<RdfTriple, Error>, terms: (Term, Term, Term), period: bool) {
    && r.Success?
    && Denotes(r.value.first, terms.0) && Denotes(r.value.second, terms.1) && Denotes(r.value.third, terms.2)
    && (r.value.fourth.Some? <==> period)
  }

  /** The last term and the final '.', if there is one. */
  lemma LastStep(line: string, i: nat, s: Statement) returns (p: Part)
    requires WellFormed(s) && PeriodSetOff(s) && Tail(line, i, PrintFrom2(s))
    ensures ReadPart(line, i) == Success(p) && Denotes(p, s.terms.2)
    ensures if s.period.None? then p.End() == |line|
            else p.End() < |line| && ReadPart(line, p.End()).Success? && ReadPart(line, p.End()).value.End() == |line|
  {
    AllowsPeriod(s);
    p := TermStep(line, i, s.before.2, s.terms.2, PrintPeriod(s.period));
    if s.period.Some? {
      PeriodStep(line, p.End(), s.period.value);
    }
  }

  /** Parsing a printed statement is the identity. */
  lemma ParseAfterPrint(s: Statement)
    requires WellFormed(s) && PeriodSetOff(s)
    ensures ReadsAs(ParseLine(Print(s)), s.terms, s.period.Some?)
  {
    var line := Print(s);
    assert line[0..] == line;
    AllowsNext(s.terms.0, s.before.1, s.terms.1, PrintFrom2(s));
    var p := TermStep(line, 0, s.before.0, s.terms.0, PrintFrom1(s));
    AllowsNext(s.terms.1, s.before.2, s.terms.2, PrintPeriod(s.period));
    var q := TermStep(line, p.End(), s.before.1, s.terms.1, PrintFrom2(s));
    var r := LastStep(line, q.End(), s);
  }

  /** What the last term becomes when the '.' directly follows its language tag. */
  function Swallowed(s: Statement): Term
    requires !PeriodSetOff(s)
  {
    LiteralTerm(s.terms.2.value, Language(s.terms.2.annotation.tag + "."))
  }

  /** A '.' written directly after a language tag is read as part of the tag, and there is no fourth part. */
  lemma PeriodAfterTagIsSwallowed(s: Statement)
    requires WellFormed(s) && !PeriodSetOff(s)
    ensures ReadsAs(ParseLine(Print(s)), (s.terms.0, s.terms.1, Swallowed(s)), false)
  {
    var s' := s.(terms := (s.terms.0, s.terms.1, Swallowed(s)), period := None);
    SwallowedPrint(s);
    assert WellFormed(s') && PeriodSetOff(s') by {
      assert !IsWhitespace('.');
    }
    ParseAfterPrint(s');
    assert PrintFrom2(s) == PrintFrom2(s') && Print(s) == Print(s');
  }

  lemma SwallowedPrint(s: Statement)
    requires !PeriodSetOff(s)
    ensures PrintTerm(s.terms.2) + PrintPeriod(s.period) == PrintTerm(Swallowed(s)) + PrintPeriod(None)
  {
    var quoted, tag := "\"" + EscapeLiteral(s.terms.2.value) + "\"", s.terms.2.annotation.tag;
    assert PrintTerm(s.terms.2) == quoted + ("@" + tag);
    assert PrintTerm(Swallowed(s)) == quoted + ("@" + (tag + "."));
    assert quoted + ("@" + tag) + "." == quoted + ("@" + (tag + ".")) + "";
  }

  /** The round trip holds exactly for the statements whose final '.' is set off from a language tag. */
  lemma RoundTripExactly(s: Statement)
    requires WellFormed(s)
    ensures PeriodSetOff(s) <==> ReadsAs(ParseLine(Print(s)), s.terms, s.period.Some?)
  {
    if PeriodSetOff(s) {
      ParseAfterPrint(s);
    } else {
      PeriodAfterTagIsSwallowed(s);
    }
  }
}
