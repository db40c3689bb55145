/**
 HTML text as the highlighter writes it: per-character escaping, the replacement
 of "&nbsp;" by a space over the whole string, and the removal of tags that a
 reader of the page performs.
 */
module Html {
  import opened Wrappers

  const NBSP: char := '\U{00A0}'

  function Decimal(n: nat): (s: string)
    ensures s != [] && forall c :: c in s ==> '0' <= c <= '9'
  {
    var digit := ['0' + (n % 10) as char];
    if n < 10 then digit else Decimal(n / 10) + digit
  }

  /** The escape of one character: a character that needs none, or an entity "&...;". */
  function EscapeChar(c: char): string {
    match c
    case '"' => "&quot;"
    case '&' => "&amp;"
    case '<' => "&lt;"
    case '>' => "&gt;"
    case _ =>
      if c == NBSP then "&nbsp;"
      else if c as int > 0x7F then "&#" + Decimal(c as int) + ";"
      else [c]
  }

  function Escape(s: string): string {
    if s == "" then "" else EscapeChar(s[0]) + Escape(s[1..])
  }

  /** Every "&nbsp;" replaced by a space, scanning from the left. */
  function ReplaceNbsp(s: string): string {
    if s == "" then ""
    else if "&nbsp;" <= s then " " + ReplaceNbsp(s[6..])
    else [s[0]] + ReplaceNbsp(s[1..])
  }

  /** What follows the first '>' of s. */
  function AfterTag(s: string): (r: string)
    ensures |r| <= |s|
    ensures s != "" ==> |r| < |s|
  {
    if s == "" then ""
    else if s[0] == '>' then s[1..]
    else AfterTag(s[1..])
  }

  /** The string without its tags. */
  function EraseTags(s: string): string
    decreases |s|
  {
    if s == "" then ""
    else if s[0] == '<' then EraseTags(AfterTag(s))
    else [s[0]] + EraseTags(s[1..])
  }

  /** Per-character escape of a text in which a no-break space shows as a space. */
  function DisplayText(s: string): string {
    if s == "" then ""
    else (if s[0] == NBSP then " " else EscapeChar(s[0])) + DisplayText(s[1..])
  }

  // ---------------------------------------------------------------- what a browser reads

  function Value(digits: string): (n: nat) {
    if digits == "" then 0
    else Value(digits[..|digits| - 1]) * 10 + (if '0' <= digits[|digits| - 1] <= '9' then (digits[|digits| - 1] - '0') as int else 0)
  }

  /** The character that a named or numbered entity stands for. */
  function EntityChar(name: string): Option<char> {
    if name == "quot" then Some('"')
    else if name == "amp" then Some('&')
    else if name == "lt" then Some('<')
    else if name == "gt" then Some('>')
    else if name == "nbsp" then Some('\U{00A0}')
    else if |name| > 1 && name[0] == '#' then
      var n := Value(name[1..]);
      if n < 0xD800 || 0xE000 <= n < 0x11_0000 then Some(n as char) else None
    else None
  }

  function IndexOf(s: string, c: char): (i: nat)
    ensures i <= |s| && forall j :: 0 <= j < i ==> s[j] != c
    ensures i < |s| ==> s[i] == c
  {
    if s == "" || s[0] == c then 0 else 1 + IndexOf(s[1..], c)
  }

  /** A string without tags as the browser shows it: every entity it knows is replaced by its character. */
  function Decode(s: string): string
    decreases |s|
  {
    if s == "" then ""
    else
      var i := IndexOf(s, ';');
      if s[0] == '&' && i < |s| && EntityChar(s[1..i]).Some?
      then [EntityChar(s[1..i]).value] + Decode(s[i + 1..])
      else [s[0]] + Decode(s[1..])
  }

  lemma {:induction false} ValueOfDecimal(n: nat)
    ensures Value(Decimal(n)) == n
  {
    var digits := Decimal(n);
    var last := '0' + (n % 10) as char;
    assert (last - '0') as int == n % 10;
    if n < 10 {
      assert digits == [last] && digits[..0] == "";
    } else {
      ValueOfDecimal(n / 10);
      assert digits[..|digits| - 1] == Decimal(n / 10);
    }
  }

  lemma EntityOf(c: char)
    requires EscapeChar(c) != [c]
    ensures var e := EscapeChar(c);
            && |e| >= 2 && e[0] == '&' && e[|e| - 1] == ';' && EntityChar(e[1..|e| - 1]) == Some(c)
  {
    var e := EscapeChar(c);
    if c != NBSP && c as int > 0x7F {
      var digits := Decimal(c as int);
      assert e[1..|e| - 1] == "#" + digits;
      ValueOfDecimal(c as int);
      assert e[1..|e| - 1][0] == '#' && e[1..|e| - 1][1..] == digits;
    } else {
      assert "&quot;"[1..5] == "quot" && "&amp;"[1..4] == "amp" && "&lt;"[1..3] == "lt";
      assert "&gt;"[1..3] == "gt" && "&nbsp;"[1..5] == "nbsp";
    }
  }

  /** The browser reads the escape of a character as that character. */
  lemma DecodeEscapedChar(c: char, rest: string)
    ensures Decode(EscapeChar(c) + rest) == [c] + Decode(rest)
  {
    var e := EscapeChar(c);
    var s := e + rest;
    EscapeCharShape(c);
    if e == [c] {
      assert s[0] == c && s[1..] == rest;
    } else {
      EntityOf(c);
      var i := IndexOf(s, ';');
      assert s[|e| - 1] == ';' && forall j :: 0 <= j < |e| ==> s[j] == e[j];
      assert i == |e| - 1;
      assert s[1..i] == e[1..|e| - 1] && s[i + 1..] == rest;
    }
  }

  /** The browser reads an escaped text as the text. */
  lemma {:induction false} DecodeAfterEscape(s: string)
    ensures Decode(Escape(s)) == s
  {
    if s == "" {
    } else {
      DecodeEscapedChar(s[0], Escape(s[1..]));
      DecodeAfterEscape(s[1..]);
    }
  }

  /** The browser reads what is displayed as the text, with a space for every no-break space. */
  lemma {:induction false} DecodeAfterDisplay(s: string)
    ensures |Decode(DisplayText(s))| == |s|
    ensures forall i :: 0 <= i < |s| ==> Decode(DisplayText(s))[i] == if s[i] == '\U{00A0}' then ' ' else s[i]
  {
    if s == "" {
    } else {
      var rest := DisplayText(s[1..]);
      DecodeAfterDisplay(s[1..]);
      if s[0] == NBSP {
        assert (" " + rest)[1..] == rest;
        assert Decode(DisplayText(s)) == " " + Decode(rest);
      } else {
        DecodeEscapedChar(s[0], rest);
        assert Decode(DisplayText(s)) == [s[0]] + Decode(rest);
      }
    }
  }

  /** What stands before and behind the first c. */
  function SplitAt(s: string, c: char): (r: Option<(string, string)>)
    ensures r.Some? ==> |r.value.1| < |s|
  {
    var i := IndexOf(s, c);
    if i < |s| then Some((s[..i], s[i + 1..])) else None
  }

  lemma SplitsAt(a: string, c: char, b: string)
    requires c !in a
    ensures SplitAt(a + [c] + b, c) == Some((a, b))
  {
    var s := a + [c] + b;
    assert s[|a|] == c && forall j :: 0 <= j < |a| ==> s[j] == a[j];
    assert IndexOf(s, c) == |a|;
    assert s[..|a|] == a && s[|a| + 1..] == b;
  }

  /** The attributes of a tag, from behind its name, as the browser reads them. */
  function ReadAttributes(s: string): seq<(string, string)>
    decreases |s|
  {
    if s == "" || s[0] != ' ' then []
    else
      match SplitAt(s[1..], '=')
      case None => []
      case Some((name, quoted)) =>
        if quoted == "" || quoted[0] != '"' then []
        else
          match SplitAt(quoted[1..], '"')
          case None => []
          case Some((value, rest)) => [(name, Decode(value))] + ReadAttributes(rest)
  }

  function Attribute(name: string, value: string): string {
    " " + (name + ['='] + ("\"" + (value + ['"'])))
  }

  lemma ReadsAttribute(name: string, value: string, rest: string)
    requires '=' !in name && '"' !in value
    ensures ReadAttributes(Attribute(name, value) + rest) == [(name, Decode(value))] + ReadAttributes(rest)
  {
    var quoted := "\"" + (value + ['"'] + rest);
    var s := Attribute(name, value) + rest;
    assert s == " " + (name + ['='] + quoted);
    assert s[1..] == name + ['='] + quoted;
    SplitsAt(name, '=', quoted);
    assert quoted[1..] == value + ['"'] + rest;
    SplitsAt(value, '"', rest);
  }

  /** Text without '&' is read as it is. */
  lemma {:induction false} DecodePlain(s: string)
    requires '&' !in s
    ensures Decode(s) == s
  {
    if s == "" {
    } else {
      DecodePlain(s[1..]);
      assert s == [s[0]] + s[1..];
    }
  }

  // ---------------------------------------------------------------- escapes and tags

  lemma EscapeCharShape(c: char)
    ensures EscapeChar(c) != ""
    ensures forall d :: d in EscapeChar(c) ==> d != '<' && d != '>' && d != '"'
    ensures |EscapeChar(c)| == 1 ==> EscapeChar(c)[0] != '&'
    ensures |EscapeChar(c)| > 1 ==>
              && EscapeChar(c)[|EscapeChar(c)| - 1] == ';'
              && forall i :: 1 <= i < |EscapeChar(c)| - 1 ==> EscapeChar(c)[i] != '&' && EscapeChar(c)[i] != ';'
    ensures EscapeChar(c) == "&nbsp;" <==> c == NBSP
  {
    if c != NBSP && c as int > 0x7F {
      var digits := Decimal(c as int);
      var e := EscapeChar(c);
      assert e == "&#" + digits + ";";
      forall i | 2 <= i < |e| - 1 ensures '0' <= e[i] <= '9' {
        assert e[i] == digits[i - 2] && digits[i - 2] in digits;
      }
      assert "&nbsp;"[1] == 'n' && e[1] == '#';
    }
  }

  lemma {:induction false} EscapeHasNoMarkup(s: string)
    ensures forall d :: d in Escape(s) ==> d != '<' && d != '>' && d != '"'
  {
    if s == "" {
    } else {
      EscapeCharShape(s[0]);
      EscapeHasNoMarkup(s[1..]);
    }
  }

  lemma {:induction false} DisplayHasNoMarkup(s: string)
    ensures forall d :: d in DisplayText(s) ==> d != '<' && d != '>'
  {
    if s == "" {
    } else {
      EscapeCharShape(s[0]);
      DisplayHasNoMarkup(s[1..]);
    }
  }

  lemma {:induction false} DisplayConcat(a: string, b: string)
    ensures DisplayText(a + b) == DisplayText(a) + DisplayText(b)
  {
    if a == "" {
      assert a + b == b;
    } else {
      assert (a + b)[1..] == a[1..] + b;
      DisplayConcat(a[1..], b);
    }
  }

  /** No "&nbsp;" begins before the end of a prefix free of '&'. */
  lemma {:induction false} ReplaceAfterPlain(a: string, b: string)
    requires '&' !in a
    ensures ReplaceNbsp(a + b) == a + ReplaceNbsp(b)
  {
    if a == "" {
      assert a + b == b;
    } else {
      assert (a + b)[0] == a[0] && (a + b)[1..] == a[1..] + b;
      ReplaceAfterPlain(a[1..], b);
    }
  }

  /** Only the escape of a no-break space starts an occurrence of "&nbsp;". */
  lemma NbspStarts(c: char, rest: string)
    ensures "&nbsp;" <= EscapeChar(c) + rest ==> c == NBSP
  {
    EscapeCharShape(c);
    var e := EscapeChar(c);
    var n := |e| - 1;
    if "&nbsp;" <= e + rest {
      assert forall i :: 0 <= i < 6 ==> (e + rest)[i] == "&nbsp;"[i];
      assert forall i :: 0 <= i < 6 && i <= n ==> e[i] == (e + rest)[i];
      assert (e + rest)[0] == '&' && (e + rest)[5] == ';';
      assert forall i :: 0 <= i < 6 ==> ("&nbsp;"[i] == ';' <==> i == 5);
      assert n == 5;
      assert e == (e + rest)[..6];
    }
  }

  /** Apart from "&nbsp;", an escape is copied. */
  lemma ReplaceAfterOther(c: char, rest: string)
    requires c != NBSP
    ensures ReplaceNbsp(EscapeChar(c) + rest) == EscapeChar(c) + ReplaceNbsp(rest)
  {
    EscapeCharShape(c);
    NbspStarts(c, rest);
    var e := EscapeChar(c);
    var body := e[1..];
    assert (e + rest)[1..] == body + rest;
    assert '&' !in body by {
      assert forall i :: 0 <= i < |body| ==> body[i] == e[i + 1];
    }
    ReplaceAfterPlain(body, rest);
    assert [e[0]] + (body + ReplaceNbsp(rest)) == e + ReplaceNbsp(rest);
  }

  lemma ReplaceAfterChar(c: char, rest: string)
    ensures ReplaceNbsp(EscapeChar(c) + rest)
         == (if c == NBSP then " " else EscapeChar(c)) + ReplaceNbsp(rest)
  {
    if c == NBSP {
      assert ("&nbsp;" + rest)[6..] == rest;
    } else {
      ReplaceAfterOther(c, rest);
    }
  }

  lemma {:induction false} ReplaceAfterEscape(s: string, rest: string)
    ensures ReplaceNbsp(Escape(s) + rest) == DisplayText(s) + ReplaceNbsp(rest)
  {
    if s == "" {
      assert Escape(s) + rest == rest;
    } else {
      assert Escape(s) + rest == EscapeChar(s[0]) + (Escape(s[1..]) + rest);
      ReplaceAfterChar(s[0], Escape(s[1..]) + rest);
      ReplaceAfterEscape(s[1..], rest);
    }
  }

  /** A tag: '<', then no further '>' before the closing one. */
  predicate IsTag(s: string) {
    |s| >= 2 && s[0] == '<' && EndsTag(s)
  }

  /** A string that ends in its only '>'. */
  predicate EndsTag(s: string) {
    s != "" && s[|s| - 1] == '>' && forall i :: 0 <= i < |s| - 1 ==> s[i] != '>'
  }

  /** An occurrence of "&nbsp;" at the front of a tag does not reach beyond the tag. */
  lemma NbspWithinTag(tag: string, rest: string)
    requires EndsTag(tag)
    ensures "&nbsp;" <= tag + rest <==> "&nbsp;" <= tag && |tag| > 6
  {
    var s := tag + rest;
    if "&nbsp;" <= s {
      assert forall i :: 0 <= i < 6 ==> s[i] == "&nbsp;"[i] != '>';
      assert s[|tag| - 1] == '>';
      assert s[..6] == tag[..6];
    }
    assert tag <= s;
  }

  lemma EndsTagTail(tag: string, k: nat)
    requires EndsTag(tag) && k < |tag|
    ensures EndsTag(tag[k..])
  {
    assert forall i :: 0 <= i < |tag[k..]| ==> tag[k..][i] == tag[i + k];
  }

  /** Replacing in a string that ends in its only '>' yields such a string, and nothing straddles that end. */
  lemma {:induction false} ReplaceAfterTag(tag: string, rest: string)
    requires EndsTag(tag)
    ensures ReplaceNbsp(tag + rest) == ReplaceNbsp(tag) + ReplaceNbsp(rest)
    ensures EndsTag(ReplaceNbsp(tag))
    decreases |tag|
  {
    var s := tag + rest;
    NbspWithinTag(tag, rest);
    NbspWithinTag(tag, "");
    assert tag + "" == tag;
    if |tag| == 1 {
      assert s[1..] == rest && tag == ">" && ReplaceNbsp(tag) == ">";
    } else {
      var k := if "&nbsp;" <= tag then 6 else 1;
      var head := if "&nbsp;" <= tag then " " else [tag[0]];
      assert s[k..] == tag[k..] + rest;
      EndsTagTail(tag, k);
      ReplaceAfterTag(tag[k..], rest);
      assert ReplaceNbsp(tag) == head + ReplaceNbsp(tag[k..]);
      ConsEndsTag(head, ReplaceNbsp(tag[k..]));
    }
  }

  lemma ConsEndsTag(head: string, tail: string)
    requires '>' !in head && EndsTag(tail)
    ensures EndsTag(head + tail)
  {
    var s := head + tail;
    forall i | 0 <= i < |s| - 1 ensures s[i] != '>' {
      if i < |head| {
        assert s[i] in head;
      }
    }
  }

  lemma ReplacedTagIsTag(tag: string, rest: string)
    requires IsTag(tag)
    ensures IsTag(ReplaceNbsp(tag))
    ensures ReplaceNbsp(tag + rest) == ReplaceNbsp(tag) + ReplaceNbsp(rest)
  {
    ReplaceAfterTag(tag, rest);
    assert ReplaceNbsp(tag)[0] == '<';
  }

  lemma {:induction false} AfterTagEnd(tag: string, rest: string)
    requires EndsTag(tag)
    ensures AfterTag(tag + rest) == rest
  {
    var s := tag + rest;
    if |tag| == 1 {
      assert s[1..] == rest;
    } else {
      assert s[0] == tag[0] && s[1..] == tag[1..] + rest;
      EndsTagTail(tag, 1);
      AfterTagEnd(tag[1..], rest);
    }
  }

  lemma EraseTag(tag: string, rest: string)
    requires IsTag(tag)
    ensures EraseTags(tag + rest) == EraseTags(rest)
  {
    assert (tag + rest)[0] == '<';
    AfterTagEnd(tag, rest);
  }

  lemma {:induction false} EraseKeepsPlain(s: string, rest: string)
    requires '<' !in s
    ensures EraseTags(s + rest) == s + EraseTags(rest)
  {
    if s == "" {
      assert s + rest == rest;
    } else {
      assert (s + rest)[0] == s[0] && (s + rest)[1..] == s[1..] + rest;
      EraseKeepsPlain(s[1..], rest);
    }
  }
}
