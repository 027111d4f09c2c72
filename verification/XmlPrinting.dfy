/**
 Documents and their text.  A document is a flat list of tokens, each followed by its text;
 an element tree is a special document.
 */
module XmlPrinting {
  import opened MiniXml

  datatype Attr = Attr(pad: string, name: string, quote: char, value: string)

  datatype Token =
    | Open(prefix: string, name: string, attrs: seq<Attr>, text: string)
    | OpenCData(prefix: string, name: string, attrs: seq<Attr>, pad: string, data: string, text: string)
    | Empty(prefix: string, name: string, attrs: seq<Attr>, text: string)
    | Close(name: string, text: string)
    | Comment(body: string, text: string)
    | Instruction(body: string, text: string)

  predicate Avoids(s: string, chars: set<char>) {
    forall i :: 0 <= i < |s| ==> s[i] !in chars
  }

  predicate CleanName(s: string) {
    s != "" && Avoids(s, NAME_END + {':'})
  }

  predicate CleanTag(prefix: string, name: string) {
    && CleanName(name) && (prefix == "" || CleanName(prefix))
    && QName(prefix, name)[0] !in {'!', '?'}
  }

  predicate CleanAttr(a: Attr) {
    && a.pad != "" && (forall i :: 0 <= i < |a.pad| ==> a.pad[i] in WHITE)
    && a.name != "" && a.name[0] !in {'/', '>'} && Avoids(a.name, WHITE + {'='})
    && a.quote in {'\'', '"'} && Avoids(a.value, {a.quote})
  }

  predicate CleanAttrs(attrs: seq<Attr>) {
    forall i :: 0 <= i < |attrs| ==> CleanAttr(attrs[i])
  }

  /** `mark` does not occur in body + mark before the end of body. */
  predicate EndsAtFirst(body: string, mark: string) {
    forall i :: 0 <= i < |body| ==> !(mark <= (body + mark)[i..])
  }

  lemma MarkBehind(body: string, mark: string, after: string)
    requires body != "" && EndsAtFirst(body, mark)
    ensures !(mark <= body + (mark + after)) && EndsAtFirst(body[1..], mark)
    ensures (body + (mark + after))[1..] == body[1..] + (mark + after)
  {
    var b := body + mark;
    assert b[0..] == b && body + (mark + after) == b + after;
    assert mark <= b + after ==> mark <= b;
    forall i | 0 <= i < |body[1..]| ensures !(mark <= (body[1..] + mark)[i..]) {
      assert (body[1..] + mark)[i..] == b[i + 1..];
    }
  }

  predicate CleanToken(t: Token) {
    && Avoids(t.text, {'<'})
    && match t
       case Open(prefix, name, attrs, _) => CleanTag(prefix, name) && CleanAttrs(attrs)
       case OpenCData(prefix, name, attrs, pad, data, _) =>
         && CleanTag(prefix, name) && CleanAttrs(attrs) && EndsAtFirst(data, CDATA_CLOSE)
         && (forall i :: 0 <= i < |pad| ==> pad[i] in WHITE)
       case Empty(prefix, name, attrs, _) => CleanTag(prefix, name) && CleanAttrs(attrs)
       case Close(name, _) => Avoids(name, {'>'})
       case Comment(body, _) => EndsAtFirst(body, COMMENT_CLOSE)
       case Instruction(body, _) => Avoids(body, {'<'})
  }

  predicate CleanTokens(ts: seq<Token>) {
    forall i :: 0 <= i < |ts| ==> CleanToken(ts[i])
  }

  function QName(prefix: string, name: string): string {
    if prefix == "" then name else prefix + ":" + name
  }

  function PrintAttrs(attrs: seq<Attr>): string {
    if attrs == [] then ""
    else
      var a := attrs[0];
      a.pad + (a.name + ("=" + ([a.quote] + (a.value + ([a.quote] + PrintAttrs(attrs[1..]))))))
  }

  /** A token, then `rest`. */
  function PrintToken(t: Token, rest: string): string {
    match t
    case Open(prefix, name, attrs, text) => "<" + (QName(prefix, name) + (PrintAttrs(attrs) + (">" + (text + rest))))
    case OpenCData(prefix, name, attrs, pad, data, text) =>
      "<" + (QName(prefix, name) +
          (PrintAttrs(attrs) + (">" + (pad + (CDATA_OPEN + (data + (CDATA_CLOSE + (text + rest))))))))
    case Empty(prefix, name, attrs, text) => "<" + (QName(prefix, name) + (PrintAttrs(attrs) + ("/>" + (text + rest))))
    case Close(name, text) => "</" + (name + (">" + (text + rest)))
    case Comment(body, text) => COMMENT_OPEN + (body + (COMMENT_CLOSE + (text + rest)))
    case Instruction(body, text) => "<?" + (body + (text + rest))
  }

  function Print(ts: seq<Token>): string {
    if ts == [] then "" else PrintToken(ts[0], Print(ts[1..]))
  }

  function AttEvents(attrs: seq<Attr>): seq<Event> {
    if attrs == [] then [] else [Att(attrs[0].name, attrs[0].value)] + AttEvents(attrs[1..])
  }

  /**
   What a document means: text is reported only between an opening and a closing tag and with
   its white space; CDATA is reported wherever it stands, except at the very end of the buffer.
   */
  function Events(ts: seq<Token>): seq<Event> {
    if ts == [] then []
    else
      var rest := ts[1..];
      TokenEvents(ts[0], rest) + Events(rest)
  }

  function TokenEvents(t: Token, rest: seq<Token>): seq<Event> {
    match t
    case Open(_, name, attrs, text) =>
      [StartElt(name)] + (AttEvents(attrs) + (if text != "" && rest != [] && rest[0].Close? then [Data(text)] else []))
    case OpenCData(_, name, attrs, _, data, text) =>
      [StartElt(name)] + (AttEvents(attrs) + (if data != "" && (text != "" || rest != []) then [Data(data)] else []))
    case Empty(_, name, attrs, _) => [StartElt(name)] + AttEvents(attrs)
    case Close(name, _) => [EndElt(name)]
    case Comment(_, _) => []
    case Instruction(_, _) => []
  }

  // ---------------------------------------------------------------- scanning lemmas

  lemma {:induction false} SpanOver(u: string, v: string, stops: set<char>)
    requires Avoids(u, stops) && (v == "" || v[0] in stops)
    ensures Span(u + v, stops) == |u|
    decreases |u|
  {
    if u == "" {
      assert u + v == v;
    } else {
      assert (u + v)[0] == u[0] && (u + v)[1..] == u[1..] + v;
      SpanOver(u[1..], v, stops);
    }
  }

  lemma {:induction false} WhiteOver(u: string, v: string)
    requires (forall i :: 0 <= i < |u| ==> u[i] in WHITE) && (v == "" || v[0] !in WHITE)
    ensures SpanWhite(u + v) == |u|
    decreases |u|
  {
    if u == "" {
      assert u + v == v;
    } else {
      assert (u + v)[0] == u[0] && (u + v)[1..] == u[1..] + v;
      WhiteOver(u[1..], v);
    }
  }

  lemma {:induction false} AttPad(pad: string, s: string)
    requires forall i :: 0 <= i < |pad| ==> pad[i] in WHITE
    ensures AttList(pad + s) == AttList(s).After(|pad|, [])
    decreases |pad|
  {
    if pad == "" {
      assert pad + s == s;
      assert AttList(s).After(0, []) == AttList(s) by {
        assert [] + AttList(s).events == AttList(s).events;
      }
    } else {
      assert (pad + s)[0] == pad[0] && (pad + s)[1..] == pad[1..] + s;
      AttPad(pad[1..], s);
      AfterTwice(AttList(s), 1, |pad| - 1, [], []);
    }
  }

  lemma SpanNothing(s: string, stops: set<char>)
    requires s != "" && s[0] in stops
    ensures Span(s, stops) == 0
  {
  }

  lemma WhiteNothing(s: string)
    requires s != "" && s[0] !in WHITE
    ensures SpanWhite(s) == 0
  {
  }

  lemma QuotedValue(quote: char, value: string, s: string)
    requires quote in {'\'', '"'} && Avoids(value, {quote})
    ensures AttValue([quote] + (value + ([quote] + s))) == Attribute(|value| + 2, "", value)
  {
    hide Span, SpanWhite;
    var tail := value + ([quote] + s);
    var all := [quote] + tail;
    WhiteNothing(all);
    SpanOver(value, [quote] + s, {quote});
    assert all[1..] == tail && all[1..1 + |value|] == value;
  }

  lemma NameAndValue(name: string, s: string)
    requires Avoids(name, WHITE + {'='})
    ensures OneAttribute(name + ("=" + s)) ==
            match AttValue(s)
            case Unfinished => Unfinished
            case Attribute(n, _, value) => Attribute(|name| + 1 + n, name, value)
  {
    hide Span, AttValue;
    var all := name + ("=" + s);
    SpanOver(name, "=" + s, WHITE + {'='});
    assert all[|name|..] == "=" + s && all[..|name|] == name && all[|name| + 1..] == s;
    SpanNothing("=" + s, {'='});
  }

  /** White space around the '=' makes no difference. */
  lemma SpacedAttribute(name: string, gap: string, space: string, quote: char, value: string, s: string)
    requires Avoids(name, WHITE + {'='}) && quote in {'\'', '"'} && Avoids(value, {quote})
    requires Avoids(gap, {'='}) && (gap != "" ==> gap[0] in WHITE)
    requires forall i :: 0 <= i < |space| ==> space[i] in WHITE
    ensures OneAttribute(name + (gap + ("=" + (space + ([quote] + (value + ([quote] + s))))))) ==
            Attribute(|name| + |gap| + |space| + |value| + 3, name, value)
  {
    hide Span, AttValue;
    var v := space + ([quote] + (value + ([quote] + s)));
    var t := gap + ("=" + v);
    var whole := name + t;
    SpanOver(name, t, WHITE + {'='});
    SpanOver(gap, "=" + v, {'='});
    assert whole[|name|..] == t && whole[..|name|] == name && whole[|name| + |gap| + 1..] == v;
    SpacedValue(space, [quote] + (value + ([quote] + s)));
    QuotedValue(quote, value, s);
  }

  lemma SpacedValue(space: string, s: string)
    requires (forall i :: 0 <= i < |space| ==> space[i] in WHITE) && s != "" && s[0] !in WHITE
    ensures AttValue(space + s) ==
            match AttValue(s)
            case Unfinished => Unfinished
            case Attribute(n, name, value) => Attribute(|space| + n, name, value)
  {
    hide Span, SpanWhite;
    var t := space + s;
    WhiteOver(space, s);
    WhiteNothing(s);
    var k, quoted := |space|, s[0] in {'\'', '"'};
    var q := if quoted then 1 else 0;
    assert t[k] == s[0] && t[k + q..] == s[q..];
    var n := q + Span(s[q..], if quoted then {s[0]} else NAME_END);
    assert t[k + q..k + n] == s[q..n];
  }

  /** A value without quotes, and the character behind it, which is skipped whatever it is. */
  lemma BareValue(value: string, end: char, s: string)
    requires value != "" && Avoids(value, NAME_END + {'\'', '"'}) && end in NAME_END
    ensures AttValue(value + ([end] + s)) == Attribute(|value| + 1, "", value)
  {
    hide Span, SpanWhite;
    var t := value + ([end] + s);
    assert t[0] == value[0] && t[0] in value;
    WhiteNothing(t);
    SpanOver(value, [end] + s, NAME_END);
    assert t[0..] == t && t[0..|value|] == value;
  }

  /** So the '>' behind such a value does not end the tag. */
  lemma BareValueSwallows(name: string, value: string, s: string)
    requires name != "" && name[0] !in {'/', '>'} && Avoids(name, WHITE + {'='})
    requires value != "" && Avoids(value, NAME_END + {'\'', '"'})
    ensures AttList(name + ("=" + (value + (">" + s)))) == AttList(s).After(|name| + |value| + 2, [Att(name, value)])
  {
    hide AttList, OneAttribute, AttValue;
    var t := name + ("=" + (value + (">" + s)));
    BareValue(value, '>', s);
    assert [ '>' ] + s == ">" + s;
    NameAndValue(name, value + (">" + s));
    assert t[0] == name[0] && name[0] in name;
    AttListOne(t);
    assert t[|name| + |value| + 2..] == s;
  }

  lemma AttOne(a: Attr, s: string)
    requires CleanAttr(a)
    ensures AttList(a.name + ("=" + ([a.quote] + (a.value + ([a.quote] + s))))) ==
            AttList(s).After(|a.name| + |a.value| + 3, [Att(a.name, a.value)])
  {
    hide OneAttribute, AttList;
    var value := [a.quote] + (a.value + ([a.quote] + s));
    var all := a.name + ("=" + value);
    QuotedValue(a.quote, a.value, s);
    NameAndValue(a.name, value);
    assert all[0] == a.name[0];
    AttListOne(all);
    AttrTail(a, s);
  }

  lemma AttListOne(s: string)
    requires s != "" && s[0] !in WHITE && s[0] !in {'/', '>'} && OneAttribute(s).Attribute?
    ensures var a := OneAttribute(s); AttList(s) == AttList(s[a.n..]).After(a.n, [Att(a.name, a.value)])
  {
    hide OneAttribute;
  }

  lemma AttrTail(a: Attr, s: string)
    ensures (a.name + ("=" + ([a.quote] + (a.value + ([a.quote] + s)))))[|a.name| + |a.value| + 3..] == s
  {
  }

  lemma {:induction false} AttListPrinted(attrs: seq<Attr>, s: string)
    requires CleanAttrs(attrs) && s != "" && s[0] in {'/', '>'}
    ensures AttList(PrintAttrs(attrs) + s) == Go(|PrintAttrs(attrs)|, AttEvents(attrs))
    decreases |attrs|
  {
    hide AttList;
    if attrs == [] {
      assert PrintAttrs(attrs) + s == s;
      AttStop(s);
    } else {
      var a := attrs[0];
      var more := PrintAttrs(attrs[1..]);
      AttListPrinted(attrs[1..], s);
      var one := a.name + ("=" + ([a.quote] + (a.value + ([a.quote] + (more + s)))));
      AttrAssoc(a, more, s);
      AttPad(a.pad, one);
      AttOne(a, more + s);
      AfterTwice(AttList(more + s), |a.pad|, |a.name| + |a.value| + 3, [], [Att(a.name, a.value)]);
    }
  }

  lemma AttStop(s: string)
    requires s != "" && s[0] in {'/', '>'}
    ensures AttList(s) == Go(0, [])
  {
  }

  lemma AttrAssoc(a: Attr, more: string, s: string)
    ensures (a.pad + (a.name + ("=" + ([a.quote] + (a.value + ([a.quote] + more)))))) + s ==
            a.pad + (a.name + ("=" + ([a.quote] + (a.value + ([a.quote] + (more + s))))))
  {
  }

  lemma {:induction false} LocalStartNoColon(name: string, q: nat, start: nat)
    requires start <= q <= |name| && forall i :: q < i < |name| ==> name[i] != ':'
    ensures LocalStart(name, q, start) == start
    decreases |name| - q
  {
    if q == |name| {
    } else {
      LocalStartNoColon(name, q + 1, start);
    }
  }

  lemma {:induction false} LocalStartColon(name: string, q: nat, start: nat, c: nat)
    requires start <= q < c < |name| && name[c] == ':' && forall i :: q < i < |name| && i != c ==> name[i] != ':'
    ensures LocalStart(name, q, start) == c + 1
    decreases c - q
  {
    if q + 1 == c {
      LocalStartNoColon(name, c + 1, c + 1);
    } else {
      LocalStartColon(name, q + 1, start, c);
    }
  }

  /** The last colon counts, if no two stand side by side and none comes first. */
  lemma {:induction false} LastColonCounts(prefix: string, name: string, q: nat, start: nat)
    requires start <= q < |prefix| && prefix[q] != ':'
    requires forall i :: q < i < |prefix| && prefix[i] == ':' ==> i + 1 < |prefix| && prefix[i + 1] != ':'
    requires name != "" && Avoids(name, {':'})
    ensures LocalStart(prefix + (":" + name), q, start) == |prefix| + 1
    decreases |prefix| - q
  {
    var s := prefix + (":" + name);
    assert s[q + 1] == if q + 1 < |prefix| then prefix[q + 1] else ':';
    if q + 1 == |prefix| {
      assert forall i :: |prefix| + 1 <= i < |s| ==> s[i] == name[i - |prefix| - 1];
      LocalStartNoColon(s, q + 2, q + 2);
    } else if prefix[q + 1] == ':' {
      LastColonCounts(prefix, name, q + 2, q + 2);
    } else {
      LastColonCounts(prefix, name, q + 1, start);
    }
  }

  /** The reported name is the local one. */
  lemma LocalNameOfQName(prefix: string, name: string)
    requires CleanTag(prefix, name)
    ensures LocalName(QName(prefix, name)) == name && Avoids(QName(prefix, name), NAME_END)
  {
    var q := QName(prefix, name);
    if prefix == "" {
      LocalStartNoColon(q, 0, 0);
    } else {
      var c := |prefix|;
      assert forall i :: 0 <= i < |q| ==> q[i] == if i < c then prefix[i] else if i == c then ':' else name[i - c - 1];
      LocalStartColon(q, 0, 0, c);
      assert q[c + 1..] == name;
    }
  }

  // ---------------------------------------------------------------- one token

  /** An opening tag up to the '/' or '>' that ends it. */
  lemma TagPrinted(prefix: string, name: string, attrs: seq<Attr>, s: string)
    requires CleanTag(prefix, name) && CleanAttrs(attrs) && s != "" && s[0] in {'/', '>'}
    ensures var all := QName(prefix, name) + (PrintAttrs(attrs) + s);
            var n := |QName(prefix, name) + PrintAttrs(attrs)|;
            var events := [StartElt(name)] + AttEvents(attrs);
            && all != ""
            && Tag(all) == if s[0] == '/' then Go(n, events) else ElementData(s[1..]).After(n + 1, events)
  {
    hide Span, StartTag, ElementData, LocalName, AttEvents;
    var q, p := QName(prefix, name), PrintAttrs(attrs);
    var all := q + (p + s);
    LocalNameOfQName(prefix, name);
    AttrsStart(attrs, s);
    SpanOver(q, p + s, NAME_END);
    assert all[..|q|] == q && all[|q|..] == p + s;
    StartTagPrinted(attrs, s);
    AfterTwice(ElementData(s[1..]), |q|, |p| + 1, [StartElt(name)], AttEvents(attrs));
  }

  lemma StartTagPrinted(attrs: seq<Attr>, s: string)
    requires CleanAttrs(attrs) && s != "" && s[0] in {'/', '>'}
    ensures var n := |PrintAttrs(attrs)|;
            StartTag(PrintAttrs(attrs) + s) ==
            if s[0] == '/' then Go(n, AttEvents(attrs)) else ElementData(s[1..]).After(n + 1, AttEvents(attrs))
  {
    hide AttList, ElementData, AttEvents, PrintAttrs, CleanAttrs;
    var p := PrintAttrs(attrs);
    AttListPrinted(attrs, s);
    assert (p + s)[|p|] == s[0] && (p + s)[|p| + 1..] == s[1..];
  }

  lemma AttrsStart(attrs: seq<Attr>, s: string)
    requires CleanAttrs(attrs) && s != "" && s[0] in {'/', '>'}
    ensures (PrintAttrs(attrs) + s)[0] in NAME_END
  {
    if attrs == [] {
      assert PrintAttrs(attrs) + s == s;
    } else {
      assert PrintAttrs(attrs)[0] == attrs[0].pad[0];
    }
  }

  /** Text up to the next tag or the end. */
  lemma TextPrinted(text: string, rest: string)
    requires Avoids(text, {'<'}) && (rest == "" || (|rest| >= 2 && rest[0] == '<' && !(CDATA_OPEN <= rest)))
    ensures ElementData(text + rest) ==
            if rest == "" then Stop([])
            else Go(|text|, if text != "" && rest[1] == '/' then [Data(text)] else [])
  {
    hide SpanWhite, Span;
    var s := text + rest;
    var w := SpanWhite(s);
    WhiteWithin(text, rest);
    if w < |s| {
      var t := text[w..];
      assert s[w..] == t + rest;
      SpanOver(t, rest, {'<'});
      if t == "" {
        assert t + rest == rest;
      } else {
        assert s[w..][0] == t[0] != '<' == CDATA_OPEN[0];
      }
      assert s[..|text|] == text;
    }
  }

  lemma WhiteWithin(text: string, rest: string)
    requires rest == "" || rest[0] == '<'
    ensures SpanWhite(text + rest) <= |text|
  {
    assert rest != "" ==> (text + rest)[|text|] == '<';
  }

  /** Outside of tags everything up to the next '<' is skipped. */
  lemma {:induction false} SkipText(text: string, rest: string)
    requires Avoids(text, {'<'}) && (rest == "" || rest[0] == '<')
    ensures Parse(text + rest) == Parse(rest)
    decreases |text|
  {
    var s := text + rest;
    if text == "" {
      assert s == rest;
    } else {
      assert s[0] == text[0] != '<' && s[1..] == text[1..] + rest;
      SkipText(text[1..], rest);
      if |s| >= 2 {
        assert Step(s) == Go(1, []);
        assert [] + Parse(s[1..]) == Parse(s[1..]);
      }
    }
  }

  /** Parsing goes on after a step. */
  lemma ParseStep(s: string, r: Result)
    requires |s| >= 2 && Step(s) == r
    ensures r.Go? ==> r.n <= |s|
    ensures Parse(s) == r.events + if r.Go? then Parse(s[r.n..]) else []
  {
    hide Step;
    assert r.events + [] == r.events;
  }

  lemma ParseTag(s: string, r: Result)
    requires s != "" && s[0] !in {'!', '?'} && Tag(s) == r
    ensures Parse("<" + s) == r.events + if r.Go? then Parse(s[r.n..]) else []
  {
    hide Tag, CommentEnd, Parse;
    var all := "<" + s;
    assert all[1..] == s && all[1] == s[0];
    assert [] + r.events == r.events;
    ParseStep(all, r.After(1, []));
    if r.Go? {
      assert all[1 + r.n..] == s[r.n..];
    }
  }

  ghost function OpenEvents(t: Token, rest: string): seq<Event>
    requires t.Open? && (rest == "" || |rest| >= 2)
  {
    [StartElt(t.name)] + (AttEvents(t.attrs) +
        (if t.text != "" && rest != "" && rest[1] == '/' then [Data(t.text)] else []))
  }

  ghost predicate Continues(rest: string) {
    rest == "" || (|rest| >= 2 && rest[0] == '<' && !(CDATA_OPEN <= rest))
  }

  lemma OpenTag(t: Token, rest: string)
    requires CleanToken(t) && t.Open? && Continues(rest)
    ensures var q, p := QName(t.prefix, t.name), PrintAttrs(t.attrs); var s := q + (p + (">" + (t.text + rest)));
            && s != "" && s[0] == q[0]
            && Tag(s) == if rest == "" then Stop(OpenEvents(t, rest))
                else Go(|q + p| + 1 + |t.text|, OpenEvents(t, rest))
  {
    hide Tag, ElementData, Avoids, PrintAttrs, AttEvents, CleanAttrs;
    var after := ">" + (t.text + rest);
    TagPrinted(t.prefix, t.name, t.attrs, after);
    assert after[1..] == t.text + rest;
    TextPrinted(t.text, rest);
    assert [StartElt(t.name)] + AttEvents(t.attrs) + ElementData(after[1..]).events == OpenEvents(t, rest);
  }

  lemma OpenPrinted(t: Token, rest: string)
    requires CleanToken(t) && t.Open? && Continues(rest)
    ensures Parse(PrintToken(t, rest)) == OpenEvents(t, rest) + Parse(rest)
  {
    hide Tag, Parse, Avoids, PrintAttrs, OpenEvents, CleanAttrs, QName;
    var q, p := QName(t.prefix, t.name), PrintAttrs(t.attrs);
    var s := q + (p + (">" + (t.text + rest)));
    OpenTag(t, rest);
    assert CleanTag(t.prefix, t.name);
    ParseTag(s, Tag(s));
    if rest != "" {
      assert s[|q + p| + 1 + |t.text|..] == rest;
    } else {
      ParseNothing();
    }
  }

  lemma ParseNothing()
    ensures Parse("") == []
  {
  }

  lemma EmptyPrinted(t: Token, rest: string)
    requires CleanToken(t) && t.Empty? && (rest == "" || rest[0] == '<')
    ensures Parse(PrintToken(t, rest)) == [StartElt(t.name)] + AttEvents(t.attrs) + Parse(rest)
  {
    hide Tag, Parse, Avoids, PrintAttrs, AttEvents, CleanAttrs;
    var q, p := QName(t.prefix, t.name), PrintAttrs(t.attrs);
    var after := "/>" + (t.text + rest);
    var s := q + (p + after);
    TagPrinted(t.prefix, t.name, t.attrs, after);
    assert s[0] == q[0];
    ParseTag(s, Tag(s));
    assert s[|q + p|..] == after;
    SkipSlash(t.text, rest);
  }

  lemma SkipSlash(text: string, rest: string)
    requires Avoids(text, {'<'}) && (rest == "" || rest[0] == '<')
    ensures Parse("/>" + (text + rest)) == Parse(rest)
  {
    assert "/>" + (text + rest) == ("/>" + text) + rest;
    SkipText("/>" + text, rest);
  }

  lemma ClosePrinted(t: Token, rest: string)
    requires CleanToken(t) && t.Close? && (rest == "" || rest[0] == '<')
    ensures Parse(PrintToken(t, rest)) == [EndElt(t.name)] + Parse(rest)
  {
    hide Parse, Tag;
    var after := t.text + rest;
    var s := "/" + (t.name + (">" + after));
    assert "</" + (t.name + (">" + after)) == "<" + s;
    CloseTag(t.name, after);
    ParseTag(s, Tag(s));
    assert s[|t.name| + 2..] == after;
    SkipText(t.text, rest);
  }

  lemma CloseTag(name: string, after: string)
    requires Avoids(name, {'>'})
    ensures Tag("/" + (name + (">" + after))) == Go(|name| + 2, [EndElt(name)])
  {
    var s := "/" + (name + (">" + after));
    assert s[1..] == name + (">" + after) && s[..0] == "";
    SpanOver(name, ">" + after, {'>'});
    assert s[1..1 + |name|] == name;
  }

  lemma {:induction false} CommentOver(body: string, after: string)
    requires EndsAtFirst(body, COMMENT_CLOSE)
    ensures CommentEnd(body + (COMMENT_CLOSE + after)) == if after == "" then Stop([]) else Go(|body| + 3, [])
    decreases |body|
  {
    hide EndsAtFirst;
    if body == "" {
      assert body + (COMMENT_CLOSE + after) == COMMENT_CLOSE + after;
    } else {
      MarkBehind(body, COMMENT_CLOSE, after);
      CommentOver(body[1..], after);
    }
  }

  lemma CommentPrinted(t: Token, rest: string)
    requires CleanToken(t) && t.Comment? && (rest == "" || rest[0] == '<')
    ensures Parse(PrintToken(t, rest)) == Parse(rest)
  {
    hide CommentEnd, Avoids;
    var after := t.text + rest;
    var inner := t.body + (COMMENT_CLOSE + after);
    var s := COMMENT_OPEN + inner;
    assert s[4..] == inner;
    CommentOver(t.body, after);
    if after == "" {
      assert rest == "";
    } else {
      var n := 4 + |t.body| + 3;
      assert Step(s) == Go(n, []);
      assert s[n..] == after;
      SkipText(t.text, rest);
      assert [] + Parse(after) == Parse(after);
    }
  }

  /** A '<' that no name follows is skipped like text. */
  lemma NamelessTag(c: char, s: string)
    requires c in WHITE + {'>'}
    ensures Parse("<" + ([c] + s)) == Parse([c] + s)
  {
    hide Tag, CommentEnd;
    var t, u := "<" + ([c] + s), [c] + s;
    assert t[0] == '<' && t[1] == c && t[1..] == u && COMMENT_OPEN[1] == '!';
    NoName(u);
    assert Step(t) == Go(1, []);
    assert [] + Parse(u) == Parse(u);
  }

  lemma NoName(u: string)
    requires u != "" && u[0] in WHITE + {'>'}
    ensures Tag(u) == Go(0, [])
  {
    hide StartTag, EndTag, Span, LocalName;
    assert Span(u, NAME_END) == 0;
    NoLocalName(u[..0]);
  }

  lemma NoLocalName(name: string)
    requires name == ""
    ensures LocalName(name) == ""
  {
  }

  lemma InstructionPrinted(t: Token, rest: string)
    requires CleanToken(t) && t.Instruction? && (rest == "" || rest[0] == '<')
    ensures Parse(PrintToken(t, rest)) == Parse(rest)
  {
    hide Parse, Tag, CommentEnd;
    var skipped := "?" + t.body + t.text;
    var s := "<?" + (t.body + (t.text + rest));
    assert s[1..] == skipped + rest && s[1] == '?';
    ParseStep(s, Go(1, []));
    SkipText(skipped, rest);
    assert [] + Parse(rest) == Parse(rest);
  }

  lemma {:induction false} CDataOver(data: string, after: string)
    requires EndsAtFirst(data, CDATA_CLOSE)
    ensures CDataEnd(data + (CDATA_CLOSE + after)) == if data != "" && after == "" then |data| + 3 else |data|
    decreases |data|
  {
    hide EndsAtFirst;
    if data == "" {
      assert data + (CDATA_CLOSE + after) == CDATA_CLOSE + after;
    } else {
      MarkBehind(data, CDATA_CLOSE, after);
      CDataOver(data[1..], after);
    }
  }

  ghost function CDataEvents(data: string, after: string): seq<Event> {
    if data != "" && after != "" then [Data(data)] else []
  }

  lemma CDataElement(pad: string, data: string, text: string, rest: string)
    requires EndsAtFirst(data, CDATA_CLOSE) && (forall i :: 0 <= i < |pad| ==> pad[i] in WHITE)
    requires Avoids(text, {'<'}) && (rest == "" || rest[0] == '<')
    ensures var events := CDataEvents(data, text + rest);
            ElementData(pad + (CDATA_OPEN + (data + (CDATA_CLOSE + (text + rest))))) ==
            if rest == "" then Stop(events) else Go(|pad| + 9 + |data| + 3 + |text|, events)
  {
    hide SpanWhite, CDataSection, EndsAtFirst, Avoids, CDataEvents;
    var inner := data + (CDATA_CLOSE + (text + rest));
    var s := pad + (CDATA_OPEN + inner);
    WhiteOver(pad, CDATA_OPEN + inner);
    assert s[|pad|..] == CDATA_OPEN + inner && s[|pad| + 9..] == inner;
    CDataSectionPrinted(data, text, rest);
    assert [] + CDataEvents(data, text + rest) == CDataEvents(data, text + rest);
  }

  lemma CDataSectionPrinted(data: string, text: string, rest: string)
    requires EndsAtFirst(data, CDATA_CLOSE)
    requires Avoids(text, {'<'}) && (rest == "" || rest[0] == '<')
    ensures var events := CDataEvents(data, text + rest);
            CDataSection(data + (CDATA_CLOSE + (text + rest))) ==
            if rest == "" then Stop(events) else Go(|data| + 3 + |text|, events)
  {
    hide Span, CDataEnd, EndsAtFirst, Avoids;
    var tail := CDATA_CLOSE + (text + rest);
    var s := data + tail;
    CDataOver(data, text + rest);
    assert s[|data|..] == tail && s[..|data|] == data;
    CloseThenText(text, rest);
  }

  lemma CloseThenText(text: string, rest: string)
    requires Avoids(text, {'<'}) && (rest == "" || rest[0] == '<')
    ensures Span(CDATA_CLOSE + (text + rest), {'<'}) == 3 + |text|
  {
    assert CDATA_CLOSE + (text + rest) == (CDATA_CLOSE + text) + rest;
    SpanOver(CDATA_CLOSE + text, rest, {'<'});
  }

  lemma CDataTag(t: Token, rest: string)
    requires CleanToken(t) && t.OpenCData? && (rest == "" || rest[0] == '<')
    ensures var head := QName(t.prefix, t.name) + PrintAttrs(t.attrs) + ">";
            var s := head + (t.pad + (CDATA_OPEN + (t.data + (CDATA_CLOSE + (t.text + rest)))));
            var events := [StartElt(t.name)] + (AttEvents(t.attrs) + CDataEvents(t.data, t.text + rest));
            && s[0] !in {'!', '?'}
            && Tag(s) == if rest == "" then Stop(events)
                else Go(|head| + (|t.pad| + 9 + |t.data| + 3 + |t.text|), events)
  {
    hide Tag, Avoids, PrintAttrs, ElementData, AttEvents, CleanAttrs, EndsAtFirst, CDataEvents;
    var q, p := QName(t.prefix, t.name), PrintAttrs(t.attrs);
    var content := t.pad + (CDATA_OPEN + (t.data + (CDATA_CLOSE + (t.text + rest))));
    TagPrinted(t.prefix, t.name, t.attrs, ">" + content);
    assert (">" + content)[1..] == content;
    assert q + (p + (">" + content)) == (q + p + ">") + content;
    CDataElement(t.pad, t.data, t.text, rest);
    var e := CDataEvents(t.data, t.text + rest);
    assert [StartElt(t.name)] + AttEvents(t.attrs) + e == [StartElt(t.name)] + (AttEvents(t.attrs) + e);
  }

  lemma CDataPrinted(t: Token, rest: string)
    requires CleanToken(t) && t.OpenCData? && (rest == "" || rest[0] == '<')
    ensures Parse(PrintToken(t, rest)) ==
            [StartElt(t.name)] + (AttEvents(t.attrs) + CDataEvents(t.data, t.text + rest)) + Parse(rest)
  {
    hide Tag, Parse, CleanToken, PrintAttrs, AttEvents, CDataEvents, QName;
    var q, p := QName(t.prefix, t.name), PrintAttrs(t.attrs);
    var content := t.pad + (CDATA_OPEN + (t.data + (CDATA_CLOSE + (t.text + rest))));
    var s := (q + p + ">") + content;
    assert "<" + (q + (p + (">" + content))) == "<" + s;
    CDataTag(t, rest);
    ParseTag(s, Tag(s));
    if rest != "" {
      CDataTail(q + p + ">", t.pad, t.data, t.text, rest);
    } else {
      ParseNothing();
    }
  }

  lemma CDataTail(head: string, pad: string, data: string, text: string, rest: string)
    ensures var s := head + (pad + (CDATA_OPEN + (data + (CDATA_CLOSE + (text + rest)))));
            var n := |head| + (|pad| + 9 + |data| + 3 + |text|);
            n <= |s| && s[n..] == rest
  {
    assert head + (pad + (CDATA_OPEN + (data + (CDATA_CLOSE + (text + rest))))) ==
           (head + pad + CDATA_OPEN + data + CDATA_CLOSE + text) + rest;
  }

  // ---------------------------------------------------------------- main results

  lemma SecondChar(q: string, x: string)
    requires q != ""
    ensures var s := "<" + (q + x); |s| >= 2 && s[0] == '<' && s[1] == q[0] && (q[0] != '!' ==> !(CDATA_OPEN <= s))
  {
  }

  lemma TokenStarts(t: Token, rest: string)
    requires CleanToken(t)
    ensures var s := PrintToken(t, rest); Continues(s) && s != "" && (s[1] == '/' <==> t.Close?)
  {
    hide PrintAttrs, CleanAttrs, EndsAtFirst;
    match t {
      case Open(prefix, name, attrs, text) => SecondChar(QName(prefix, name),
          PrintAttrs(attrs) + (">" + (text + rest)));
      case OpenCData(prefix, name, attrs, pad, data, text) =>
        SecondChar(QName(prefix, name),
            PrintAttrs(attrs) + (">" + (pad + (CDATA_OPEN + (data + (CDATA_CLOSE + (text + rest)))))));
      case Empty(prefix, name, attrs, text) => SecondChar(QName(prefix, name),
          PrintAttrs(attrs) + ("/>" + (text + rest)));
      case Close(_, _) => assert PrintToken(t, rest)[1] == '/' != CDATA_OPEN[1];
      case Comment(_, _) => assert PrintToken(t, rest)[2] == '-' != CDATA_OPEN[2];
      case Instruction(_, _) => assert PrintToken(t, rest)[1] == '?' != CDATA_OPEN[1];
    }
    NotSlash(t);
  }

  lemma NotSlash(t: Token)
    requires CleanToken(t)
    ensures t.Open? || t.OpenCData? || t.Empty? ==> QName(t.prefix, t.name)[0] != '/'
  {
    if t.Open? || t.OpenCData? || t.Empty? {
      LocalNameOfQName(t.prefix, t.name);
      assert QName(t.prefix, t.name)[0] !in NAME_END;
    }
  }

  lemma PrintStarts(ts: seq<Token>)
    requires CleanTokens(ts)
    ensures Continues(Print(ts)) && (Print(ts) == "" <==> ts == [])
    ensures ts != [] ==> (Print(ts)[1] == '/' <==> ts[0].Close?)
  {
    hide PrintToken, CleanToken;
    if ts != [] {
      TokenStarts(ts[0], Print(ts[1..]));
    }
  }

  lemma TokenPrinted(t: Token, rest: seq<Token>)
    requires CleanToken(t) && CleanTokens(rest)
    ensures Parse(PrintToken(t, Print(rest))) == TokenEvents(t, rest) + Parse(Print(rest))
  {
    hide Parse, Print, PrintToken, CleanToken;
    PrintStarts(rest);
    var r := Print(rest);
    match t {
      case Open(_, _, _, _) => OpenPrinted(t, r);
      case OpenCData(_, _, _, _, _, _) => CDataPrinted(t, r);
      case Empty(_, _, _, _) => EmptyPrinted(t, r);
      case Close(_, _) => ClosePrinted(t, r);
      case Comment(_, _) =>
        CommentPrinted(t, r);
        assert [] + Parse(r) == Parse(r);
      case Instruction(_, _) =>
        InstructionPrinted(t, r);
        assert [] + Parse(r) == Parse(r);
    }
  }

  lemma EventsCons(t: Token, ts: seq<Token>)
    ensures Events([t] + ts) == TokenEvents(t, ts) + Events(ts)
  {
    assert ([t] + ts)[1..] == ts;
  }

  /** The parser reports exactly what a printed document means. */
  lemma {:induction false} ParsePrinted(ts: seq<Token>)
    requires CleanTokens(ts)
    ensures Parse(Print(ts)) == Events(ts)
    decreases |ts|
  {
    hide Parse, PrintToken, TokenEvents, CleanToken;
    if ts == [] {
      ParseNothing();
    } else {
      TokenPrinted(ts[0], ts[1..]);
      ParsePrinted(ts[1..]);
    }
  }

  /** An element with its text, its children, and the text after its closing tag. */
  datatype Tree = Element(prefix: string, name: string, attrs: seq<Attr>, text: string, children: seq<Tree>,
      tail: string)

  predicate CleanTree(t: Tree)
    decreases t
  {
    && CleanTag(t.prefix, t.name) && CleanAttrs(t.attrs) && Avoids(t.text, {'<'}) && Avoids(t.tail, {'<'})
    && forall i :: 0 <= i < |t.children| ==> CleanTree(t.children[i])
  }

  function Flatten(t: Tree): seq<Token>
    decreases t, 0
  {
    [Open(t.prefix, t.name, t.attrs, t.text)] + FlattenAll(t.children) + [Close(QName(t.prefix, t.name), t.tail)]
  }

  function FlattenAll(ts: seq<Tree>): seq<Token>
    decreases ts
  {
    if ts == [] then [] else Flatten(ts[0]) + FlattenAll(ts[1..])
  }

  /** The start/data/end traversal of a tree. */
  function TreeEvents(t: Tree): seq<Event>
    decreases t, 0
  {
    [StartElt(t.name)] + AttEvents(t.attrs) +
    (if t.text != "" && t.children == [] then [Data(t.text)] else []) +
    ForestEvents(t.children) + [EndElt(QName(t.prefix, t.name))]
  }

  function ForestEvents(ts: seq<Tree>): seq<Event>
    decreases ts
  {
    if ts == [] then [] else TreeEvents(ts[0]) + ForestEvents(ts[1..])
  }

  lemma {:induction false} FlattenEvents(t: Tree, rest: seq<Token>)
    ensures Events(Flatten(t) + rest) == TreeEvents(t) + Events(rest)
    decreases t, 0
  {
    var open, close := Open(t.prefix, t.name, t.attrs, t.text), Close(QName(t.prefix, t.name), t.tail);
    var more := FlattenAll(t.children) + ([close] + rest);
    assert Flatten(t) + rest == [open] + more;
    assert ([open] + more)[1..] == more && ([close] + rest)[1..] == rest;
    FlattenAllEvents(t.children, [close] + rest);
    FlattenAllStarts(t.children);
    assert more[0].Close? <==> t.children == [];
    EventsAssoc(t.name, AttEvents(t.attrs), if t.text != "" && t.children == [] then [Data(t.text)] else [],
      ForestEvents(t.children), [EndElt(QName(t.prefix, t.name))], Events(rest));
  }

  lemma EventsAssoc(name: string, a: seq<Event>, d: seq<Event>, f: seq<Event>, e: seq<Event>, r: seq<Event>)
    ensures ([StartElt(name)] + (a + d)) + (f + (e + r)) == ([StartElt(name)] + a + d + f + e) + r
  {
  }

  lemma FlattenAllStarts(ts: seq<Tree>)
    ensures ts == [] <==> FlattenAll(ts) == []
    ensures ts != [] ==> FlattenAll(ts)[0].Open?
  {
  }

  lemma {:induction false} FlattenAllEvents(ts: seq<Tree>, rest: seq<Token>)
    ensures Events(FlattenAll(ts) + rest) == ForestEvents(ts) + Events(rest)
    decreases ts
  {
    hide Events, TreeEvents, Flatten;
    if ts == [] {
      assert FlattenAll(ts) + rest == rest;
    } else {
      FlattenAllEvents(ts[1..], rest);
      FlattenEvents(ts[0], FlattenAll(ts[1..]) + rest);
      assert FlattenAll(ts) + rest == Flatten(ts[0]) + (FlattenAll(ts[1..]) + rest);
      assert TreeEvents(ts[0]) + (ForestEvents(ts[1..]) + Events(rest)) == ForestEvents(ts) + Events(rest);
    }
  }

  lemma {:induction false} CleanFlatten(t: Tree)
    requires CleanTree(t)
    ensures CleanTokens(Flatten(t))
    decreases t, 0
  {
    LocalNameOfQName(t.prefix, t.name);
    CleanFlattenAll(t.children);
  }

  lemma {:induction false} CleanFlattenAll(ts: seq<Tree>)
    requires forall i :: 0 <= i < |ts| ==> CleanTree(ts[i])
    ensures CleanTokens(FlattenAll(ts))
    decreases ts
  {
    if ts == [] {
    } else {
      CleanFlatten(ts[0]);
      CleanFlattenAll(ts[1..]);
    }
  }

  /** Print a tree, parse it: exactly its traversal. */
  lemma ParsePrintedTree(t: Tree)
    requires CleanTree(t)
    ensures Parse(Print(Flatten(t))) == TreeEvents(t)
  {
    hide Print, Parse, TreeEvents, Flatten;
    CleanFlatten(t);
    ParsePrinted(Flatten(t));
    assert Flatten(t) + [] == Flatten(t);
    FlattenEvents(t, []);
    assert TreeEvents(t) + [] == TreeEvents(t);
  }
}
