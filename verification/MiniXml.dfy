/**
 What minixml.c reports for a text: a function on the text still to be read.  A read at the
 end of the buffer yields NUL, as it does for a NUL-terminated buffer.
 */
module MiniXml {

  /** The callbacks of the parser, in the order they fire. */
  datatype Event =
    | StartElt(name: string)
    | EndElt(name: string)
    | Data(text: string)
    | Att(name: string, value: string)

  /** How a parsing step ends: after n characters, or with the end of the buffer. */
  datatype Result = Go(n: nat, events: seq<Event>) | Stop(events: seq<Event>) {
    function After(k: nat, before: seq<Event>): Result {
      match this
      case Go(n, events) => Go(k + n, before + events)
      case Stop(events) => Stop(before + events)
    }
  }

  const WHITE: set<char> := {' ', '\t', '\r', '\n'}
  const NAME_END: set<char> := WHITE + {'>', '/'}

  /** The number of characters before the first one in `stops`. */
  function Span(s: string, stops: set<char>): (n: nat)
    ensures n <= |s|
    ensures forall i :: 0 <= i < n ==> s[i] !in stops
    ensures n < |s| ==> s[n] in stops
  {
    if s == "" || s[0] in stops then 0 else 1 + Span(s[1..], stops)
  }

  function SpanWhite(s: string): (n: nat)
    ensures n <= |s|
    ensures forall i :: 0 <= i < n ==> s[i] in WHITE
    ensures n < |s| ==> s[n] !in WHITE
  {
    if s == "" || s[0] !in WHITE then 0 else 1 + SpanWhite(s[1..])
  }

  datatype Attribute = Unfinished | Attribute(n: nat, name: string, value: string)

  /** The value after '=' and its length, including the character that ends it; Unfinished if the buffer ends first. */
  function AttValue(s: string): (a: Attribute)
    ensures a.Attribute? ==> a.n <= |s| && a.name == ""
  {
    var v := SpanWhite(s);
    if v >= |s| then Unfinished
    else
      var quoted := s[v] in {'\'', '"'};
      var q := if quoted then v + 1 else v;
      var w := q + Span(s[q..], if quoted then {s[v]} else NAME_END);
      if w >= |s| then Unfinished else Attribute(w + 1, "", s[q..w])
  }

  /** One attribute. */
  function OneAttribute(s: string): (a: Attribute)
    ensures a.Attribute? ==> 0 < a.n <= |s|
  {
    var nameEnd := Span(s, WHITE + {'='});
    var eq := nameEnd + Span(s[nameEnd..], {'='});
    if eq >= |s| then Unfinished
    else match AttValue(s[eq + 1..])
      case Unfinished => Unfinished
      case Attribute(n, _, value) => Attribute(eq + 1 + n, s[..nameEnd], value)
  }

  /** parseatt: up to the '/' or '>' that ends the attribute list. */
  function AttList(s: string): (r: Result)
    ensures r.Go? ==> r.n < |s| && s[r.n] in {'/', '>'}
    decreases |s|
  {
    if s == "" then Stop([])
    else if s[0] in {'/', '>'} then Go(0, [])
    else if s[0] in WHITE then
      var r := AttList(s[1..]);
      assert r.Go? ==> s[1..][r.n] == s[1 + r.n];
      r.After(1, [])
    else match OneAttribute(s)
      case Unfinished => Stop([])
      case Attribute(n, name, value) =>
        var r := AttList(s[n..]);
        assert r.Go? ==> s[n..][r.n] == s[n + r.n];
        r.After(n, [Att(name, value)])
  }

  /** Where the local part of a name starts: a ':' after the first character drops what precedes it. */
  function LocalStart(name: string, q: nat, start: nat): (r: nat)
    requires start <= q <= |name|
    ensures r <= |name|
    decreases |name| - q
  {
    if q >= |name| then start
    else if q + 1 < |name| && name[q + 1] == ':' then LocalStart(name, q + 2, q + 2)
    else LocalStart(name, q + 1, start)
  }

  function LocalName(name: string): string {
    name[LocalStart(name, 0, 0)..]
  }

  const CDATA_OPEN := "<![CDATA["
  const CDATA_CLOSE := "]]>"
  const COMMENT_OPEN := "<!--"
  const COMMENT_CLOSE := "-->"

  /** The offset of the CDATA terminator; the search gives up when it would touch the end of the buffer. */
  function CDataEnd(s: string): (n: nat)
    ensures n <= |s|
    decreases |s|
  {
    if CDATA_CLOSE <= s then 0
    else if |s| <= 4 then |s|
    else 1 + CDataEnd(s[1..])
  }

  /** A CDATA section after its opening, and what follows it up to the next '<'. */
  function CDataSection(s: string): (r: Result)
    ensures r.Go? ==> r.n <= |s|
  {
    var n := CDataEnd(s);
    if n >= |s| then Stop([]) else
      var events := if n > 0 then [Data(s[..n])] else [];
      var f := n + Span(s[n..], {'<'});
      if f >= |s| then Stop(events) else Go(f, events)
  }

  /** Text whose white space takes its first w characters, up to the next '<'. */
  function PlainText(s: string, w: nat): (r: Result)
    requires w < |s|
    ensures r.Go? ==> r.n <= |s|
  {
    var f := w + Span(s[w..], {'<'});
    if f > w && f + 1 >= |s| then Stop([])
    else Go(f, if f > 0 && f + 1 < |s| && s[f + 1] == '/' then [Data(s[..f])] else [])
  }

  /** What follows the '>' of an opening tag, up to the next '<'. */
  function ElementData(s: string): (r: Result)
    ensures r.Go? ==> r.n <= |s|
  {
    var w := SpanWhite(s);
    if w >= |s| then Stop([])
    else if CDATA_OPEN <= s[w..] then CDataSection(s[w + 9..]).After(w + 9, [])
    else PlainText(s, w)
  }

  /** The offset after a comment, from the characters after its opening on. */
  function CommentEnd(s: string): (r: Result)
    ensures r.Go? ==> r.n <= |s|
    decreases |s|
  {
    if |s| <= 3 then Stop([])
    else if COMMENT_CLOSE <= s then Go(3, [])
    else CommentEnd(s[1..]).After(1, [])
  }

  /** An opening tag after its name. */
  function StartTag(s: string): (r: Result)
    ensures r.Go? ==> r.n <= |s|
  {
    match AttList(s)
    case Stop(atts) => Stop(atts)
    case Go(a, atts) =>
      if s[a] == '/' then Go(a, atts) else ElementData(s[a + 1..]).After(a + 1, atts)
  }

  /** A closing tag after its '/'. */
  function EndTag(s: string): (r: Result)
    ensures r.Go? ==> r.n <= |s|
  {
    var n := Span(s, {'>'});
    if n >= |s| then Stop([]) else Go(n + 1, [EndElt(s[..n])])
  }

  /** A tag, from the character after its '<' on. */
  function Tag(s: string): (r: Result)
    requires s != ""
    ensures r.Go? ==> r.n <= |s|
  {
    var e := Span(s, NAME_END);
    if e >= |s| then Stop([]) else
      var name := LocalName(s[..e]);
      if name != "" then StartTag(s[e..]).After(e, [StartElt(name)])
      else if s[e] == '/' then EndTag(s[e + 1..]).After(e + 1, [])
      else Go(e, [])
  }

  /** One turn of the main loop. */
  function Step(s: string): (r: Result)
    requires |s| >= 2
    ensures r.Go? ==> 0 < r.n <= |s|
  {
    if COMMENT_OPEN <= s then CommentEnd(s[4..]).After(4, [])
    else if s[0] == '<' && s[1] != '?' then Tag(s[1..]).After(1, [])
    else Go(1, [])
  }

  /** All events of a text. */
  function Parse(s: string): seq<Event>
    decreases |s|
  {
    if |s| < 2 then []
    else match Step(s)
      case Stop(events) => events
      case Go(n, events) => events + Parse(s[n..])
  }

  lemma AfterTwice(r: Result, j: nat, k: nat, a: seq<Event>, b: seq<Event>)
    ensures r.After(k, b).After(j, a) == r.After(j + k, a + b)
  {
    assert r.Go? ==> a + (b + r.events) == a + b + r.events;
    assert r.Stop? ==> a + (b + r.events) == a + b + r.events;
  }
}
