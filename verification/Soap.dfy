/**
 The SOAP request writer inside simpleUPnPcommand2 (miniupnpc.c), and what the reply parser
 makes of the body it writes.
 */
module Soap {
  import opened Common
  import opened MiniXml
  import opened XmlPrinting
  import opened NameValues

  datatype Arg = Arg(elt: string, val: Option<string>)

  const BODY_SIZE: nat := 2048
  const MARGIN: nat := 100
  const SOAP_HOST := "http://" + "schemas.xmlsoap.org"
  const ENVELOPE_NS := SOAP_HOST + "/soap/envelope/"
  const ENCODING_NS := SOAP_HOST + "/soap/encoding/"

  function ArgValue(a: Arg): string {
    if a.val.Some? then a.val.value else ""
  }

  predicate CleanArg(a: Arg) {
    && CleanTag("", a.elt) && '\0' !in a.elt && Avoids(ArgValue(a), {'<'})
  }

  predicate CleanRequest(action: string, service: string, args: seq<Arg>) {
    && CleanName(action) && '\0' !in action && Avoids(service, {'"'})
    && forall i :: 0 <= i < |args| ==> CleanArg(args[i])
  }

  // ---------------------------------------------------------------- the document

  function Opening(action: string, service: string): seq<Token> {
    [Instruction("xml version=\"1.0\"?>", "\r\n"),
     Open("s", "Envelope",
          [Attr(" ", "xmlns:s", '"', ENVELOPE_NS), Attr(" ", "s:encodingStyle", '"', ENCODING_NS)], ""),
     Open("s", "Body", [], ""),
     Open("u", action, [Attr(" ", "xmlns:u", '"', service)], "")]
  }

  function Closing(action: string): seq<Token> {
    [Close("u:" + action, ""), Close("s:Body", ""), Close("s:Envelope", "\r\n")]
  }

  function ArgTokens(args: seq<Arg>): seq<Token> {
    if args == [] then []
    else [Open("", args[0].elt, [], ArgValue(args[0])), Close(args[0].elt, "")] + ArgTokens(args[1..])
  }

  function Document(action: string, service: string, args: seq<Arg>): seq<Token> {
    Opening(action, service) + (ArgTokens(args) + Closing(action))
  }

  // ---------------------------------------------------------------- the text

  function AttText(name: string, value: string): string {
    " " + name + "=\"" + value + "\""
  }

  /** The printf format of the opening. */
  function Head(action: string, service: string): string {
    "<?xml version=\"1.0\"?>\r\n" +
    ("<s:Envelope" + AttText("xmlns:s", ENVELOPE_NS) + AttText("s:encodingStyle", ENCODING_NS) + ">") +
    "<s:Body>" +
    ("<u:" + action + AttText("xmlns:u", service) + ">")
  }

  function ArgText(a: Arg): string {
    "<" + a.elt + ">" + ArgValue(a) + "</" + a.elt + ">"
  }

  function ArgTexts(args: seq<Arg>): string {
    if args == [] then "" else ArgText(args[0]) + ArgTexts(args[1..])
  }

  /** What the writer copies after the arguments without looking at the buffer. */
  function CloseAction(action: string): string { "</u:" + action }

  /** What it copies last, by strncpy. */
  const LAST := ">" + "</s:Body></s:Envelope>\r\n"

  function Foot(action: string): string { CloseAction(action) + LAST }

  lemma PrintInstruction(rest: string)
    ensures PrintToken(Instruction("xml version=\"1.0\"?>", "\r\n"), rest) == "<?xml version=\"1.0\"?>\r\n" + rest
  {
    var a, b := "xml version=\"1.0\"?>", "\r\n";
    assert "<?" + (a + (b + rest)) == ("<?" + a + b) + rest;
    assert "<?" + a + b == "<?xml version=\"1.0\"?>\r\n";
  }

  lemma PrintAttText(name: string, value: string, more: seq<Attr>)
    ensures PrintAttrs([Attr(" ", name, '"', value)] + more) == AttText(name, value) + PrintAttrs(more)
  {
    var all := [Attr(" ", name, '"', value)] + more;
    assert all[1..] == more;
    AttAssoc(name, value, PrintAttrs(more));
  }

  lemma AttAssoc(name: string, value: string, p: string)
    ensures " " + (name + ("=" + (['"'] + (value + (['"'] + p))))) == AttText(name, value) + p
  {
  }

  lemma PrintOpen(prefix: string, name: string, attrs: seq<Attr>, rest: string)
    requires prefix != ""
    ensures PrintToken(Open(prefix, name, attrs, ""), rest) ==
            ("<" + (prefix + ":" + name) + PrintAttrs(attrs) + ">") + rest
  {
    assert "<" + ((prefix + ":" + name) + (PrintAttrs(attrs) + (">" + ("" + rest)))) ==
           ("<" + (prefix + ":" + name) + PrintAttrs(attrs) + ">") + rest;
  }

  lemma PrintEnvelope(ns: string, enc: string, rest: string)
    ensures PrintToken(Open("s", "Envelope",
                            [Attr(" ", "xmlns:s", '"', ns), Attr(" ", "s:encodingStyle", '"', enc)], ""), rest) ==
            ("<s:Envelope" + AttText("xmlns:s", ns) + AttText("s:encodingStyle", enc) + ">") + rest
  {
    hide PrintToken, AttText, PrintAttrs;
    var a, b := Attr(" ", "xmlns:s", '"', ns), Attr(" ", "s:encodingStyle", '"', enc);
    PrintOpen("s", "Envelope", [a, b], rest);
    PrintAttText("xmlns:s", ns, [b]);
    PrintAttText("s:encodingStyle", enc, []);
    assert [a] + [b] == [a, b] && [b] + [] == [b];
    NoAttrs();
    assert "<" + ("s" + ":" + "Envelope") == "<s:Envelope";
  }

  lemma NoAttrs()
    ensures PrintAttrs([]) == ""
  {
  }

  lemma PrintBody(rest: string)
    ensures PrintToken(Open("s", "Body", [], ""), rest) == "<s:Body>" + rest
  {
    hide PrintToken;
    PrintOpen("s", "Body", [], rest);
    assert "<" + ("s" + ":" + "Body") + "" + ">" == "<s:Body>";
  }

  lemma PrintAction(action: string, service: string, rest: string)
    ensures PrintToken(Open("u", action, [Attr(" ", "xmlns:u", '"', service)], ""), rest) ==
            ("<u:" + action + AttText("xmlns:u", service) + ">") + rest
  {
    hide PrintToken, AttText, PrintAttrs;
    PrintOpen("u", action, [Attr(" ", "xmlns:u", '"', service)], rest);
    PrintAttText("xmlns:u", service, []);
    assert [Attr(" ", "xmlns:u", '"', service)] + [] == [Attr(" ", "xmlns:u", '"', service)];
    NoAttrs();
    assert "<" + ("u" + ":" + action) == "<u:" + action;
  }

  lemma PrintCons(t: Token, ts: seq<Token>)
    ensures Print([t] + ts) == PrintToken(t, Print(ts))
  {
    assert ([t] + ts)[1..] == ts;
  }

  lemma PrintOpening(action: string, service: string, ts: seq<Token>)
    ensures Print(Opening(action, service) + ts) == Head(action, service) + Print(ts)
  {
    hide Print, PrintToken, AttText;
    var o, r := Opening(action, service), Print(ts);
    var t3 := [o[3]] + ts;
    var t2 := [o[2]] + t3;
    var t1 := [o[1]] + t2;
    assert o + ts == [o[0]] + t1;
    PrintCons(o[3], ts);
    PrintCons(o[2], t3);
    PrintCons(o[1], t2);
    PrintCons(o[0], t1);
    PrintAction(action, service, r);
    PrintBody(Print(t3));
    PrintEnvelope(ENVELOPE_NS, ENCODING_NS, Print(t2));
    PrintInstruction(Print(t1));
  }

  lemma PrintArg(a: Arg, rest: string)
    ensures PrintToken(Open("", a.elt, [], ArgValue(a)), PrintToken(Close(a.elt, ""), rest)) == ArgText(a) + rest
  {
    var close := "</" + (a.elt + (">" + ("" + rest)));
    assert close == "</" + a.elt + ">" + rest;
    assert "<" + (a.elt + ("" + (">" + (ArgValue(a) + close)))) == "<" + a.elt + ">" + ArgValue(a) + close;
    assert "<" + a.elt + ">" + ArgValue(a) + ("</" + a.elt + ">" + rest) == ArgText(a) + rest;
  }

  lemma {:induction false} PrintArgs(args: seq<Arg>, ts: seq<Token>)
    ensures Print(ArgTokens(args) + ts) == ArgTexts(args) + Print(ts)
    decreases |args|
  {
    hide Print, PrintToken, ArgText;
    if args == [] {
      assert ArgTokens(args) + ts == ts;
    } else {
      var more := ArgTokens(args[1..]) + ts;
      var open, close := Open("", args[0].elt, [], ArgValue(args[0])), Close(args[0].elt, "");
      assert ArgTokens(args) + ts == [open] + ([close] + more);
      PrintCons(close, more);
      PrintCons(open, [close] + more);
      PrintArg(args[0], Print(more));
      PrintArgs(args[1..], ts);
    }
  }

  lemma FootTail()
    ensures "</" + ("s:Envelope" + (">" + ("\r\n" + ""))) == "</s:Envelope>\r\n"
    ensures "</" + ("s:Body" + (">" + ("" + "</s:Envelope>\r\n"))) == "</s:Body></s:Envelope>\r\n"
  {
  }

  lemma FootStart(action: string, tail: string)
    ensures "</" + (("u:" + action) + (">" + ("" + tail))) == "</u:" + action + (">" + tail)
  {
  }

  lemma PrintClosing(action: string)
    ensures Print(Closing(action)) == Foot(action)
  {
    hide Print, PrintToken;
    var c := Closing(action);
    assert c == [c[0]] + ([c[1]] + ([c[2]] + []));
    PrintCons(c[0], [c[1]] + ([c[2]] + []));
    PrintCons(c[1], [c[2]] + []);
    PrintCons(c[2], []);
    NoTokens();
    var last, body := "</s:Envelope>\r\n", "</s:Body></s:Envelope>\r\n";
    PrintClose("s:Envelope", "\r\n", "");
    PrintClose("s:Body", "", last);
    PrintClose("u:" + action, "", body);
    FootTail();
    FootStart(action, body);
  }

  lemma PrintClose(name: string, text: string, rest: string)
    ensures PrintToken(Close(name, text), rest) == "</" + (name + (">" + (text + rest)))
  {
  }

  lemma NoTokens()
    ensures Print([]) == ""
  {
  }

  /** The text of a request is the printed document. */
  lemma RequestIsDocument(action: string, service: string, args: seq<Arg>)
    ensures Print(Document(action, service, args)) == Head(action, service) + (ArgTexts(args) + Foot(action))
  {
    hide Print, Head, Foot, Opening, Closing;
    PrintOpening(action, service, ArgTokens(args) + Closing(action));
    PrintArgs(args, Closing(action));
    PrintClosing(action);
  }

  // ---------------------------------------------------------------- what the reply parser makes of it

  lemma DocumentIsClean(action: string, service: string, args: seq<Arg>)
    requires CleanRequest(action, service, args)
    ensures CleanTokens(Document(action, service, args))
  {
    OpeningIsClean(action, service);
    ArgsAreClean(args);
    ClosingIsClean(action);
  }

  lemma SoapAttr(name: string, value: string)
    requires name in {"xmlns:s", "s:encodingStyle", "xmlns:u"} && Avoids(value, {'"'})
    ensures CleanAttr(Attr(" ", name, '"', value))
  {
    assert Avoids(name, WHITE + {'='});
  }

  lemma SoapTag(prefix: string, name: string, attrs: seq<Attr>)
    requires prefix in {"s", "u"} && CleanName(name) && CleanAttrs(attrs)
    ensures CleanToken(Open(prefix, name, attrs, ""))
  {
    assert QName(prefix, name)[0] == prefix[0];
  }

  lemma Namespaces()
    ensures Avoids(ENVELOPE_NS, {'"'}) && Avoids(ENCODING_NS, {'"'})
  {
    assert Avoids("http://", {'"'}) && Avoids("schemas.xmlsoap.org", {'"'});
    assert Avoids("/soap/envelope/", {'"'}) && Avoids("/soap/encoding/", {'"'});
  }

  lemma OpeningIsClean(action: string, service: string)
    requires CleanName(action) && Avoids(service, {'"'})
    ensures CleanTokens(Opening(action, service))
  {
    hide CleanToken, CleanAttr, Avoids;
    Namespaces();
    SoapAttr("xmlns:s", ENVELOPE_NS);
    SoapAttr("s:encodingStyle", ENCODING_NS);
    SoapAttr("xmlns:u", service);
    EnvelopeNames();
    SoapTag("s", "Envelope", [Attr(" ", "xmlns:s", '"', ENVELOPE_NS), Attr(" ", "s:encodingStyle", '"', ENCODING_NS)]);
    SoapTag("s", "Body", []);
    SoapTag("u", action, [Attr(" ", "xmlns:u", '"', service)]);
  }

  lemma EnvelopeNames()
    ensures CleanName("Envelope") && CleanName("Body") && CleanToken(Instruction("xml version=\"1.0\"?>", "\r\n"))
  {
  }

  lemma ClosingIsClean(action: string)
    requires CleanName(action)
    ensures CleanTokens(Closing(action))
  {
  }

  lemma {:induction false} ArgsAreClean(args: seq<Arg>)
    requires forall i :: 0 <= i < |args| ==> CleanArg(args[i])
    ensures CleanTokens(ArgTokens(args))
    decreases |args|
  {
    hide CleanToken, CleanArg;
    if args == [] {
    } else {
      ArgIsClean(args[0]);
      ArgsAreClean(args[1..]);
    }
  }

  lemma ArgIsClean(a: Arg)
    requires CleanArg(a)
    ensures CleanToken(Open("", a.elt, [], ArgValue(a))) && CleanToken(Close(a.elt, ""))
  {
    LocalNameOfQName("", a.elt);
  }

  function ArgEvents(args: seq<Arg>): seq<Event> {
    if args == [] then []
    else
      [StartElt(args[0].elt)] + (if ArgValue(args[0]) != "" then [Data(ArgValue(args[0]))] else []) +
          [EndElt(args[0].elt)] + ArgEvents(args[1..])
  }

  lemma {:induction false} ArgTokenEvents(args: seq<Arg>, ts: seq<Token>)
    ensures Events(ArgTokens(args) + ts) == ArgEvents(args) + Events(ts)
    decreases |args|
  {
    hide Events, TokenEvents, ArgValue;
    if args == [] {
      assert ArgTokens(args) + ts == ts;
    } else {
      var more := ArgTokens(args[1..]) + ts;
      var open, close := Open("", args[0].elt, [], ArgValue(args[0])), Close(args[0].elt, "");
      assert ArgTokens(args) + ts == [open] + ([close] + more);
      EventsCons(close, more);
      EventsCons(open, [close] + more);
      ArgTokenEvents(args[1..], ts);
      ArgTagEvents(args[0], more);
      var d := if ArgValue(args[0]) != "" then [Data(ArgValue(args[0]))] else [];
      Regroup([StartElt(args[0].elt)], d, [EndElt(args[0].elt)], ArgEvents(args[1..]), Events(ts));
    }
  }

  lemma Regroup(a: seq<Event>, b: seq<Event>, c: seq<Event>, d: seq<Event>, e: seq<Event>)
    ensures (a + b) + (c + (d + e)) == (a + b + c + d) + e
  {
  }

  lemma ArgTagEvents(a: Arg, more: seq<Token>)
    ensures TokenEvents(Close(a.elt, ""), more) == [EndElt(a.elt)]
    ensures TokenEvents(Open("", a.elt, [], ArgValue(a)), [Close(a.elt, "")] + more) ==
            [StartElt(a.elt)] + (if ArgValue(a) != "" then [Data(ArgValue(a))] else [])
  {
  }

  /** What one argument adds to the list. */
  function Entry(a: Arg): seq<NameValue> {
    var name := NameValues.Cut(a.elt, 63);
    if name == PORT_LISTING then [] else [NameValue(name, NameValues.Cut(ArgValue(a), 127))]
  }

  /** The list after all arguments: the last one first. */
  function Entries(args: seq<Arg>): seq<NameValue> {
    if args == [] then [] else Entries(args[1..]) + Entry(args[0])
  }

  /** The port listing after all arguments: the last non-empty one. */
  function Listing(args: seq<Arg>, before: Option<string>): Option<string> {
    if args == [] then before
    else
      var given := NameValues.Cut(args[0].elt, 63) == PORT_LISTING && ArgValue(args[0]) != "";
      Listing(args[1..], if given then Some(ArgValue(args[0])) else before)
  }

  lemma OneArg(st: State, a: Arg)
    requires '\0' !in a.elt
    ensures var d := if ArgValue(a) != "" then [Data(ArgValue(a))] else [];
            var st' := OnAll(st, [StartElt(a.elt)] + d + [EndElt(a.elt)]);
            && st'.head == Entry(a) + st.head && !st'.topelt && st'.portListing == Listing([a], st.portListing)
  {
    var d := if ArgValue(a) != "" then [Data(ArgValue(a))] else [];
    var es := [StartElt(a.elt)] + d + [EndElt(a.elt)];
    assert [a][1..] == [];
    var st1 := On(st, StartElt(a.elt));
    assert '\0' !in st1.curelt;
    assert es[1..] == d + [EndElt(a.elt)];
    var last := [EndElt(a.elt)];
    OnAllSplit(st1, d, last);
    assert last[1..] == [] && (d != [] ==> d[1..] == []);
    var st2 := OnAll(st1, d);
    assert st2 == if d == [] then st1 else On(st1, d[0]);
    assert OnAll(st, es) == OnAll(st1, es[1..]) == OnAll(st2, last) == On(st2, last[0]);
  }

  lemma {:induction false} AllArgs(st: State, args: seq<Arg>)
    requires forall i :: 0 <= i < |args| ==> '\0' !in args[i].elt
    ensures var st' := OnAll(st, ArgEvents(args));
            && st'.head == Entries(args) + st.head && st'.portListing == Listing(args, st.portListing)
            && (args == [] ==> st' == st) && (args != [] ==> !st'.topelt)
    decreases |args|
  {
    hide On, Entry;
    if args == [] {
      assert Entries(args) + st.head == st.head;
    } else {
      var a := args[0];
      var d := if ArgValue(a) != "" then [Data(ArgValue(a))] else [];
      var es := [StartElt(a.elt)] + d + [EndElt(a.elt)];
      OneArg(st, a);
      assert [a][1..] == [];
      OnAllSplit(st, es, ArgEvents(args[1..]));
      AllArgs(OnAll(st, es), args[1..]);
      assert Entries(args[1..]) + (Entry(a) + st.head) == (Entries(args[1..]) + Entry(a)) + st.head;
    }
  }

  function OpeningEvents(action: string, service: string): seq<Event> {
    [StartElt("Envelope"), Att("xmlns:s", ENVELOPE_NS), Att("s:encodingStyle", ENCODING_NS), StartElt("Body"),
        StartElt(action), Att("xmlns:u", service)]
  }

  lemma OpeningTokenEvents(action: string, service: string, ts: seq<Token>)
    ensures Events(Opening(action, service) + ts) == OpeningEvents(action, service) + Events(ts)
  {
    hide Events, TokenEvents;
    var o := Opening(action, service);
    var t3 := [o[3]] + ts;
    var t2 := [o[2]] + t3;
    var t1 := [o[1]] + t2;
    assert o + ts == [o[0]] + t1;
    EventsCons(o[3], ts);
    EventsCons(o[2], t3);
    EventsCons(o[1], t2);
    EventsCons(o[0], t1);
    EnvelopeEvents(t1, t2, t3);
    ActionEvents(action, service, ts);
  }

  lemma EnvelopeEvents(t1: seq<Token>, t2: seq<Token>, t3: seq<Token>)
    ensures TokenEvents(Opening("", "")[0], t1) == [] && TokenEvents(Opening("", "")[2], t3) == [StartElt("Body")]
    ensures TokenEvents(Opening("", "")[1], t2) ==
            [StartElt("Envelope"), Att("xmlns:s", ENVELOPE_NS), Att("s:encodingStyle", ENCODING_NS)]
  {
    var attrs := Opening("", "")[1].attrs;
    var last := [attrs[1]];
    assert attrs[1..] == last && last[1..] == [];
    assert AttEvents(last) == [Att("s:encodingStyle", ENCODING_NS)];
    assert AttEvents(attrs) == [Att("xmlns:s", ENVELOPE_NS), Att("s:encodingStyle", ENCODING_NS)];
  }

  lemma ActionEvents(action: string, service: string, ts: seq<Token>)
    ensures TokenEvents(Opening(action, service)[3], ts) == [StartElt(action), Att("xmlns:u", service)]
  {
    var attrs := Opening(action, service)[3].attrs;
    assert attrs[1..] == [];
    assert AttEvents(attrs) == [Att("xmlns:u", service)];
  }

  /** After the opening the current element is the action. */
  lemma AfterOpening(st: State, action: string, service: string)
    ensures OnAll(st, OpeningEvents(action, service)) ==
            st.(topelt := true, curelt := NameValues.Cut(action, 63), cdata := None)
  {
    var es := OpeningEvents(action, service);
    var a, b := es[..3], es[3..];
    assert es == a + b;
    OnAllSplit(st, a, b);
    var st1 := On(st, a[0]);
    assert a[1..] == [a[1], a[2]] && a[1..][1..] == [a[2]] && a[1..][1..][1..] == [];
    assert OnAll(st, a) == OnAll(st1, a[1..]) == OnAll(st1, a[1..][1..]) == st1;
    assert b[1..] == [b[1], b[2]] && b[1..][1..] == [b[2]] && b[1..][1..][1..] == [];
    var st2 := On(st1, b[0]);
    var st3 := On(st2, b[1]);
    assert OnAll(st1, b) == OnAll(st2, b[1..]) == OnAll(st3, b[1..][1..]) == st3;
  }

  lemma AfterClosing(st: State, action: string)
    ensures var st' := OnAll(st, Events(Closing(action)));
            && st'.portListing == st.portListing && (!st.topelt ==> st' == st)
            && (st.topelt ==> st'.head == On(st, EndElt("")).head)
  {
    var c := Closing(action);
    assert c == [c[0]] + ([c[1]] + ([c[2]] + []));
    EventsCons(c[0], [c[1]] + ([c[2]] + []));
    EventsCons(c[1], [c[2]] + []);
    EventsCons(c[2], []);
    var es := [EndElt("u:" + action), EndElt("s:Body"), EndElt("s:Envelope")];
    assert Events(c) == es;
    var st1 := On(st, es[0]);
    assert es[1..] == [es[1], es[2]] && es[1..][1..] == [es[2]] && es[1..][1..][1..] == [];
    assert OnAll(st, es) == OnAll(st1, es[1..]) == OnAll(st1, es[1..][1..]) == st1;
  }

  /**
   Write a request, parse it as a reply: the list holds the arguments, last one first, each
   name cut to 63 and each value to 127 characters; the port listing is the last one given.
   Without arguments the action itself is the only entry.  Nothing depends on what the parser
   structure held before.
   */
  lemma RequestParsed(action: string, service: string, args: seq<Arg>, garbage: State)
    requires CleanRequest(action, service, args)
    ensures var st := OnAll(garbage.(head := [], portListing := None),
            MiniXml.Parse(Print(Document(action, service, args))));
            && st.head == (if args == [] then Entry(Arg(action, None)) else Entries(args))
            && st.portListing == Listing(args, None)
  {
    hide Print, MiniXml.Parse, Opening, Closing, OpeningEvents, CleanTokens;
    var st0 := garbage.(head := [], portListing := None);
    DocumentIsClean(action, service, args);
    ParsePrinted(Document(action, service, args));
    OpeningTokenEvents(action, service, ArgTokens(args) + Closing(action));
    ArgTokenEvents(args, Closing(action));
    OnAllSplit(st0, OpeningEvents(action, service), ArgEvents(args) + Events(Closing(action)));
    AfterOpening(st0, action, service);
    var st1 := OnAll(st0, OpeningEvents(action, service));
    OnAllSplit(st1, ArgEvents(args), Events(Closing(action)));
    ArgNames(args);
    AllArgs(st1, args);
    var st2 := OnAll(st1, ArgEvents(args));
    assert Entries(args) + [] == Entries(args);
    AfterClosing(st2, action);
  }

  lemma ArgNames(args: seq<Arg>)
    requires forall i :: 0 <= i < |args| ==> CleanArg(args[i])
    ensures forall i :: 0 <= i < |args| ==> '\0' !in args[i].elt
  {
  }

  // ---------------------------------------------------------------- lookup

  /** The argument is kept under this name: its own, or the first 63 characters of it. */
  predicate Named(a: Arg, name: string) {
    FirstPart(a.elt, 63, name) && name != "NewPortListing"
  }

  /** The argument is a port listing. */
  predicate GivesListing(a: Arg) {
    a.elt == "NewPortListing" && ArgValue(a) != ""
  }

  lemma CutIs(s: string, n: nat, r: string)
    ensures FirstPart(s, n, r) <==> r == NameValues.Cut(s, n)
  {
    hide NameValues.Cut;
    var c := NameValues.Cut(s, n);
    if FirstPart(s, n, r) {
      assert r == s[..|r|] && c == s[..|c|];
    }
  }

  lemma ListingName(a: Arg)
    ensures NameValues.Cut(a.elt, 63) == PORT_LISTING <==> a.elt == "NewPortListing"
  {
    assert |PORT_LISTING| == 14;
  }

  /** The records are those of the arguments, last one first, port listings left out. */
  lemma {:induction false} EntriesBackwards(args: seq<Arg>)
    requires forall i :: 0 <= i < |args| ==> args[i].elt != "NewPortListing"
    ensures |Entries(args)| == |args|
    ensures forall i :: 0 <= i < |args| ==>
              && FirstPart(args[i].elt, 63, Entries(args)[|args| - 1 - i].name)
              && FirstPart(ArgValue(args[i]), 127, Entries(args)[|args| - 1 - i].value)
    decreases |args|
  {
    hide NameValues.Cut;
    if args == [] {
    } else {
      ListingName(args[0]);
      EntriesBackwards(args[1..]);
      assert forall i :: 1 <= i < |args| ==> args[i] == args[1..][i - 1];
    }
  }

  /** A port listing, and nothing else, leaves no record. */
  lemma ListingEntry(a: Arg)
    ensures Entry(a) == [] <==> a.elt == "NewPortListing"
  {
    ListingName(a);
  }

  lemma {:induction false} EntriesSplit(a: seq<Arg>, b: seq<Arg>)
    ensures Entries(a + b) == Entries(b) + Entries(a)
    decreases |a|
  {
    hide Entry;
    if a == [] {
      assert a + b == b && Entries(b) + [] == Entries(b);
    } else {
      assert (a + b)[0] == a[0] && (a + b)[1..] == a[1..] + b;
      EntriesSplit(a[1..], b);
    }
  }

  /** The port listing is the last one given, whole; none if none was given. */
  lemma {:induction false} ListingIsLast(args: seq<Arg>, before: Option<string>)
    ensures (forall i :: 0 <= i < |args| ==> !GivesListing(args[i])) ==> Listing(args, before) == before
    ensures forall i ::
              0 <= i < |args| && GivesListing(args[i]) &&
              (forall j :: i < j < |args| ==> !GivesListing(args[j])) ==>
                Listing(args, before) == Some(ArgValue(args[i]))
    decreases |args|
  {
    hide NameValues.Cut;
    if args == [] {
    } else {
      var more := args[1..];
      ListingName(args[0]);
      assert forall i :: 0 <= i < |more| ==> more[i] == args[i + 1];
      var before' := if GivesListing(args[0]) then Some(ArgValue(args[0])) else before;
      ListingIsLast(more, before');
      forall i | 0 <= i < |args| && GivesListing(args[i]) && (forall j :: i < j < |args| ==> !GivesListing(args[j]))
        ensures Listing(args, before) == Some(ArgValue(args[i]))
      {
        if i > 0 {
          assert more[i - 1] == args[i];
          assert forall j :: i - 1 < j < |more| ==> !GivesListing(more[j]);
        }
      }
    }
  }

  lemma {:induction false} LookupSplit(a: seq<NameValue>, b: seq<NameValue>, name: string)
    ensures Lookup(a + b, name) == if Lookup(a, name).Some? then Lookup(a, name) else Lookup(b, name)
    decreases |a|
  {
    if a == [] {
      assert a + b == b;
    } else {
      assert (a + b)[0] == a[0] && (a + b)[1..] == a[1..] + b;
      LookupSplit(a[1..], b, name);
    }
  }

  lemma NothingFound(name: string)
    ensures Lookup([], name) == None
  {
  }

  lemma EntryLookup(a: Arg, name: string)
    ensures Lookup(Entry(a), name) == if Named(a, name) then Some(NameValues.Cut(ArgValue(a), 127)) else None
  {
    CutIs(a.elt, 63, name);
    if Entry(a) != [] {
      assert Entry(a)[1..] == [];
    }
  }

  /** A lookup finds the last argument of that name, and nothing if there is none. */
  lemma {:induction false} LookupIsLast(args: seq<Arg>, name: string)
    ensures Lookup(Entries(args), name).None? <==> forall i :: 0 <= i < |args| ==> !Named(args[i], name)
    ensures forall i ::
              0 <= i < |args| && Named(args[i], name) && (forall j :: i < j < |args| ==> !Named(args[j], name)) ==>
              Lookup(Entries(args), name).Some? && FirstPart(ArgValue(args[i]), 127, Lookup(Entries(args), name).value)
    decreases |args|
  {
    hide Named, Lookup, Entry;
    if args == [] {
      NothingFound(name);
    } else {
      var a, more := args[0], args[1..];
      LookupIsLast(more, name);
      LookupSplit(Entries(more), Entry(a), name);
      assert forall i :: 0 <= i < |more| ==> more[i] == args[i + 1];
      EntryLookup(a, name);
      assert (forall i :: 0 <= i < |more| ==> !Named(more[i], name)) <==>
          (forall i :: 1 <= i < |args| ==> !Named(args[i], name)) by {
        if forall i :: 0 <= i < |more| ==> !Named(more[i], name) {
          forall i | 1 <= i < |args| ensures !Named(args[i], name) {
            assert more[i - 1] == args[i];
          }
        }
      }
      forall i | 0 <= i < |args| && Named(args[i], name) && (forall j :: i < j < |args| ==> !Named(args[j], name))
        ensures Lookup(Entries(args), name).Some?
        ensures FirstPart(ArgValue(args[i]), 127, Lookup(Entries(args), name).value)
      {
        if i > 0 {
          assert more[i - 1] == args[i];
          assert forall j :: i - 1 < j < |more| ==> !Named(more[j], name);
        }
      }
    }
  }

  // ---------------------------------------------------------------- the writer

  /**
   A request fits with its terminator; fills its buffer, cut off and without a terminator; is
   refused for lack of room; or is written past its buffer.
   */
  datatype Fate = Fits | Truncated | Refused | Overflows

  /** What becomes of a request of which p characters are written. */
  function FateOf(p: nat, args: seq<Arg>, action: string): Fate
    decreases |args|
  {
    if args == [] then
      if p + |CloseAction(action)| > BODY_SIZE then Overflows
      else if p + |Foot(action)| < BODY_SIZE then Fits
      else Truncated
    else if BODY_SIZE <= p + MARGIN then Refused
    else if p + |ArgText(args[0])| > BODY_SIZE then Overflows
    else FateOf(p + |ArgText(args[0])|, args[1..], action)
  }

  /** A request is written exactly when it fits 2048 bytes with its terminator and every argument starts 100 before. */
  lemma {:induction false} FitsExactly(p: nat, args: seq<Arg>, action: string)
    ensures FateOf(p, args, action) == Fits <==>
            && p + |ArgTexts(args) + Foot(action)| < 2048
            && (args != [] ==> p + |ArgTexts(args[..|args| - 1])| + 100 < 2048)
    decreases |args|
  {
    hide ArgText, CloseAction;
    if args == [] {
    } else {
      var a, more := args[0], args[1..];
      FitsExactly(p + |ArgText(a)|, more, action);
      if more != [] {
        var init := args[..|args| - 1];
        assert init[0] == a && init[1..] == more[..|more| - 1];
      } else {
        assert args[..|args| - 1] == [];
      }
    }
  }

  /** Where the i-th argument starts. */
  function StartOf(p: nat, args: seq<Arg>, i: nat): nat
    requires i <= |args|
  {
    p + |ArgTexts(args[..i])|
  }

  /** Some argument starts before the margin and ends behind the buffer. */
  ghost predicate RunsOver(p: nat, args: seq<Arg>) {
    exists i :: 0 <= i < |args| && StartOf(p, args, i) + MARGIN < BODY_SIZE < StartOf(p, args, i + 1)
  }

  ghost predicate AllInTime(p: nat, args: seq<Arg>) {
    forall i :: 0 <= i < |args| ==> StartOf(p, args, i) + MARGIN < BODY_SIZE
  }

  lemma StartShift(p: nat, args: seq<Arg>, i: nat)
    requires args != [] && i < |args|
    ensures StartOf(p, args, 0) == p && StartOf(p, args, i + 1) == StartOf(p + |ArgText(args[0])|, args[1..], i)
  {
    assert args[..0] == [];
    assert args[..i + 1][0] == args[0] && args[..i + 1][1..] == args[1..][..i];
  }

  lemma PredicatesShift(p: nat, args: seq<Arg>)
    requires args != [] && p + MARGIN < BODY_SIZE && p + |ArgText(args[0])| <= BODY_SIZE
    ensures var p1, more := p + |ArgText(args[0])|, args[1..];
            (RunsOver(p, args) <==> RunsOver(p1, more)) && (AllInTime(p, args) <==> AllInTime(p1, more))
  {
    hide StartOf, ArgText;
    var p1, more := p + |ArgText(args[0])|, args[1..];
    StartShift(p, args, 0);
    assert StartOf(p, args, 1) == p1 by {
      StartAt(p1, more);
    }
    forall i | 0 <= i < |args| ensures StartOf(p, args, i + 1) == StartOf(p1, more, i) {
      StartShift(p, args, i);
    }
    if RunsOver(p, args) {
      var i :| 0 <= i < |args| && StartOf(p, args, i) + MARGIN < BODY_SIZE < StartOf(p, args, i + 1);
      assert i > 0;
      assert StartOf(p1, more, i - 1) + MARGIN < BODY_SIZE < StartOf(p1, more, i - 1 + 1);
    }
    if RunsOver(p1, more) {
      var i :| 0 <= i < |more| && StartOf(p1, more, i) + MARGIN < BODY_SIZE < StartOf(p1, more, i + 1);
      assert StartOf(p, args, i + 1) + MARGIN < BODY_SIZE < StartOf(p, args, i + 1 + 1);
    }
    if AllInTime(p1, more) {
      forall i | 0 <= i < |args| ensures StartOf(p, args, i) + MARGIN < BODY_SIZE {
        if i > 0 {
          assert StartOf(p, args, i - 1 + 1) == StartOf(p1, more, i - 1);
        }
      }
    }
  }

  lemma StartAt(p: nat, args: seq<Arg>)
    ensures StartOf(p, args, 0) == p
  {
    assert args[..0] == [];
  }

  lemma StartIsLate(p: nat, args: seq<Arg>, i: nat)
    requires i <= |args|
    ensures StartOf(p, args, i) >= p
  {
  }

  /**
   The other fates.  A request is written past its buffer exactly when some argument that starts
   before the margin ends behind the buffer, or all start before the margin and the name of the
   action ends behind it.
   */
  lemma {:induction false} OverflowsExactly(p: nat, args: seq<Arg>, action: string)
    ensures FateOf(p, args, action) == Overflows <==>
            RunsOver(p, args) || (AllInTime(p, args) && p + |ArgTexts(args) + CloseAction(action)| > BODY_SIZE)
    decreases |args|
  {
    hide ArgText, CloseAction, RunsOver, AllInTime, StartOf;
    if args == [] {
      NothingRunsOver(p);
    } else if BODY_SIZE <= p + MARGIN {
      TooLate(p, args);
    } else if p + |ArgText(args[0])| > BODY_SIZE {
      FirstRunsOver(p, args);
    } else {
      PredicatesShift(p, args);
      OverflowsExactly(p + |ArgText(args[0])|, args[1..], action);
    }
  }

  /** It is cut off exactly when all start before the margin and the buffer ends in the part that strncpy copies. */
  lemma {:induction false} TruncatedExactly(p: nat, args: seq<Arg>, action: string)
    ensures FateOf(p, args, action) == Truncated <==>
            && AllInTime(p, args)
            && p + |ArgTexts(args) + CloseAction(action)| <= BODY_SIZE <= p + |ArgTexts(args) + Foot(action)|
    decreases |args|
  {
    hide ArgText, CloseAction, RunsOver, AllInTime, StartOf;
    if args == [] {
      NothingRunsOver(p);
    } else if BODY_SIZE <= p + MARGIN {
      TooLate(p, args);
    } else if p + |ArgText(args[0])| > BODY_SIZE {
      FirstRunsOver(p, args);
    } else {
      PredicatesShift(p, args);
      TruncatedExactly(p + |ArgText(args[0])|, args[1..], action);
    }
  }

  /** It is refused exactly when some argument starts behind the margin and none runs over. */
  lemma {:induction false} RefusedExactly(p: nat, args: seq<Arg>, action: string)
    ensures FateOf(p, args, action) == Refused <==> !AllInTime(p, args) && !RunsOver(p, args)
    decreases |args|
  {
    hide ArgText, CloseAction, RunsOver, AllInTime, StartOf;
    if args == [] {
      NothingRunsOver(p);
    } else if BODY_SIZE <= p + MARGIN {
      TooLate(p, args);
    } else if p + |ArgText(args[0])| > BODY_SIZE {
      FirstRunsOver(p, args);
    } else {
      PredicatesShift(p, args);
      RefusedExactly(p + |ArgText(args[0])|, args[1..], action);
    }
  }

  lemma NothingRunsOver(p: nat)
    ensures !RunsOver(p, []) && AllInTime(p, [])
  {
  }

  lemma TooLate(p: nat, args: seq<Arg>)
    requires args != [] && BODY_SIZE <= p + MARGIN
    ensures !RunsOver(p, args) && !AllInTime(p, args)
  {
    hide StartOf;
    forall i | 0 <= i <= |args| ensures StartOf(p, args, i) >= p {
      StartIsLate(p, args, i);
    }
    assert StartOf(p, args, 0) >= p;
  }

  lemma FirstRunsOver(p: nat, args: seq<Arg>)
    requires args != [] && p + MARGIN < BODY_SIZE < p + |ArgText(args[0])|
    ensures RunsOver(p, args)
  {
    hide StartOf, ArgText;
    StartShift(p, args, 0);
    StartAt(p + |ArgText(args[0])|, args[1..]);
    assert StartOf(p, args, 0) + MARGIN < BODY_SIZE < StartOf(p, args, 0 + 1);
  }

  /** For instance: one value as long as the buffer. */
  lemma LongValue()
    ensures FateOf(|Head("A", "S")|, [Arg("N", Some(seq(BODY_SIZE, _ => 'x')))], "A") == Overflows
  {
    hide Head, CloseAction, AllInTime, FateOf;
    var args := [Arg("N", Some(seq(BODY_SIZE, _ => 'x')))];
    HeadIsShort();
    FirstRunsOver(|Head("A", "S")|, args);
    OverflowsExactly(|Head("A", "S")|, args, "A");
  }

  /** For instance: one value that brings the name of the action to the end of the buffer. */
  lemma CutValue()
    ensures var n := BODY_SIZE - |Head("A", "S")| - 12;
            n >= 0 && FateOf(|Head("A", "S")|, [Arg("N", Some(seq(n, _ => 'x')))], "A") == Truncated
  {
    hide Head;
    HeadIsShort();
    var n := BODY_SIZE - |Head("A", "S")| - 12;
    var a := Arg("N", Some(seq(n, _ => 'x')));
    assert |ArgText(a)| == n + 7 && |CloseAction("A")| == 5 && [a][1..] == [];
  }

  lemma HeadIsShort()
    ensures |Head("A", "S")| + MARGIN < BODY_SIZE
  {
  }

  /** Copy a string through the moving pointer; false when it would leave the buffer. */
  method Copy(buffer: array<char>, p0: nat, s: string) returns (p: nat, ok: bool)
    requires p0 <= buffer.Length
    modifies buffer
    ensures ok == (p0 + |s| <= buffer.Length)
    ensures ok ==> p == p0 + |s| && buffer[..p] == old(buffer[..p0]) + s
  {
    p := p0;
    var k := 0;
    while k < |s|
      invariant k <= |s| && p == p0 + k <= buffer.Length
      invariant buffer[..p] == old(buffer[..p0]) + s[..k]
    {
      if p >= buffer.Length {
        return p, false;
      }
      buffer[p] := s[k];
      p, k := p + 1, k + 1;
      assert buffer[..p] == buffer[..p - 1] + [s[k - 1]];
    }
    return p, true;
  }

  /** One argument, element by element as the writer emits it. */
  method WriteArg(buffer: array<char>, p0: nat, a: Arg) returns (p: nat, ok: bool)
    requires p0 <= buffer.Length
    modifies buffer
    ensures ok == (p0 + |ArgText(a)| <= buffer.Length)
    ensures ok ==> p == p0 + |ArgText(a)| && buffer[..p] == old(buffer[..p0]) + ArgText(a)
  {
    ghost var before := buffer[..p0];
    p, ok := Copy(buffer, p0, "<" + a.elt + ">");
    if ok && a.val.Some? {
      p, ok := Copy(buffer, p, a.val.value);
    }
    if ok {
      p, ok := Copy(buffer, p, "</" + a.elt + ">");
    }
    assert ArgText(a) == ("<" + a.elt + ">") + (ArgValue(a) + ("</" + a.elt + ">"));
    assert before + ("<" + a.elt + ">") + ArgValue(a) + ("</" + a.elt + ">") == before + ArgText(a);
    assert before + ("<" + a.elt + ">") + "" == before + ("<" + a.elt + ">");
  }

  /** The next argument: its text, and what it makes of the request. */
  lemma NextArg(before: string, written: string, p: nat, args: seq<Arg>, k: nat, action: string)
    requires k < |args|
    ensures var a := ArgText(args[k]);
            && written + ArgTexts(args[k..]) == (written + a) + ArgTexts(args[k + 1..])
            && (before + written) + a == before + (written + a)
            && FateOf(p, args[k..], action) == if BODY_SIZE <= p + MARGIN then Refused
                                               else if p + |a| > BODY_SIZE then Overflows
                                               else FateOf(p + |a|, args[k + 1..], action)
  {
    hide ArgText, CloseAction;
    assert args[k..][1..] == args[k + 1..];
    var a, more := ArgText(args[k]), ArgTexts(args[k + 1..]);
    assert written + (a + more) == (written + a) + more;
  }

  lemma NoMoreArgs(p: nat, action: string)
    ensures ArgTexts([]) == "" && CloseAction(action) != ""
    ensures FateOf(p, [], action) == if p + |CloseAction(action)| > BODY_SIZE then Overflows
                                     else if p + |CloseAction(action)| + |LAST| < BODY_SIZE then Fits
                                     else Truncated
  {
  }

  /** The loop over the arguments. */
  method WriteArgs(soapbody: array<char>, p0: nat, args: seq<Arg>, ghost action: string) returns (p: nat, fate: Fate)
    requires soapbody.Length == BODY_SIZE && (args == [] ==> p0 <= BODY_SIZE)
    modifies soapbody
    ensures fate == Fits ==>
              && FateOf(p0, args, action) == FateOf(p, [], action)
              && p0 <= p <= BODY_SIZE && soapbody[..p] == old(soapbody[..p0]) + ArgTexts(args)
    ensures fate != Fits ==> FateOf(p0, args, action) == fate && fate in {Refused, Overflows}
  {
    hide ArgText, CloseAction, FateOf, ArgTexts;
    p := p0;
    var k := 0;
    ghost var before, written := if p0 <= BODY_SIZE then soapbody[..p0] else "", "";
    assert args[0..] == args && "" + ArgTexts(args) == ArgTexts(args) && before + "" == before;
    while k < |args|
      invariant k <= |args| && p0 <= p
      invariant p <= BODY_SIZE || (k == 0 && p == p0)
      invariant p <= BODY_SIZE ==> soapbody[..p] == before + written
      invariant written + ArgTexts(args[k..]) == ArgTexts(args)
      invariant FateOf(p0, args, action) == FateOf(p, args[k..], action)
    {
      NextArg(before, written, p, args, k, action);
      if BODY_SIZE <= p + MARGIN {
        return p, Refused;
      }
      var ok;
      p, ok := WriteArg(soapbody, p, args[k]);
      if !ok {
        return p, Overflows;
      }
      written := written + ArgText(args[k]);
      k := k + 1;
    }
    NoMoreArgs(p, action);
    assert args[k..] == [] && written + "" == written;
    return p, Fits;
  }

  /** n characters of which s are the first, with NUL behind it, or as many as there are of s. */
  function Padded(s: string, n: nat): (r: string)
    ensures |r| == n
  {
    if n <= |s| then s[..n] else s + seq(n - |s|, _ => '\0')
  }

  /** strncpy to the end of the buffer. */
  method CopyBounded(buffer: array<char>, p: nat, s: string)
    requires p <= buffer.Length
    modifies buffer
    ensures buffer[..] == old(buffer[..p]) + Padded(s, buffer.Length - p)
  {
    ghost var n := buffer.Length - p;
    var k := 0;
    while p + k < buffer.Length
      invariant k <= n && buffer[..p] == old(buffer[..p])
      invariant forall j :: 0 <= j < k ==> buffer[p + j] == Padded(s, n)[j]
    {
      buffer[p + k] := if k < |s| then s[k] else '\0';
      k := k + 1;
    }
    assert buffer[p..] == Padded(s, n);
  }

  /** The whole text of a request. */
  function Text(action: string, service: string, args: seq<Arg>): string {
    Head(action, service) + (ArgTexts(args) + Foot(action))
  }

  /** The request writer: what becomes of the request, and what the buffer holds. */
  method WriteRequest(action: string, service: string, args: seq<Arg>) returns (fate: Fate, body: string)
    ensures fate == FateOf(|Head(action, service)|, args, action)
    ensures fate == Fits ==> |body| == BODY_SIZE && Text(action, service, args) + ['\0'] <= body
    ensures fate == Truncated ==> |Text(action, service, args)| >= BODY_SIZE
    ensures fate == Truncated ==> body == Text(action, service, args)[..BODY_SIZE]
  {
    hide Head, CloseAction, ArgTexts, FateOf;
    var soapbody := new char[BODY_SIZE];
    var head, close := Head(action, service), CloseAction(action);
    var p: nat, ok := |head|, true;
    body := "";
    if p < BODY_SIZE {
      p, ok := Copy(soapbody, 0, head);
      assert soapbody[..p] == head;
    } else if args == [] {
      NoMoreArgs(p, action);
      return Overflows, "";
    }
    p, fate := WriteArgs(soapbody, p, args, action);
    if fate != Fits {
      return;
    }
    NoMoreArgs(p, action);
    p, ok := Copy(soapbody, p, close);
    if !ok {
      return Overflows, "";
    }
    CopyBounded(soapbody, p, LAST);
    body := soapbody[..];
    fate := if p + |LAST| < BODY_SIZE then Fits else Truncated;
    Filled(head, ArgTexts(args), close, BODY_SIZE);
  }

  lemma Filled(head: string, args: string, close: string, n: nat)
    requires |head + args + close| <= n
    ensures var p, text := head + args + close, head + (args + (close + LAST)); var body := p + Padded(LAST, n - |p|);
            if |text| < n then text + ['\0'] <= body else body == text[..n]
  {
    var p, text := head + args + close, head + (args + (close + LAST));
    assert text == p + LAST;
    var body := p + Padded(LAST, n - |p|);
    if |text| < n {
      assert body[..|text|] == text && body[|text|] == '\0';
    }
  }

  /** What the writer produces, the reply parser reads back. */
  lemma WrittenRequestParsed(action: string, service: string, args: seq<Arg>, garbage: State)
    requires CleanRequest(action, service, args)
    ensures var text := Text(action, service, args);
            var st := OnAll(garbage.(head := [], portListing := None), MiniXml.Parse(text));
            && st.head == (if args == [] then Entry(Arg(action, None)) else Entries(args))
            && st.portListing == Listing(args, None)
  {
    hide Print, MiniXml.Parse, Document, Entries, Entry, OnAll, Head, Foot;
    RequestIsDocument(action, service, args);
    RequestParsed(action, service, args, garbage);
  }

  /**
   Looking up a name in what was read back finds the last value given for it, or its first 127
   characters, and nothing for any other name; the port listing is the last one given.
   */
  lemma WrittenRequestLookup(action: string, service: string, args: seq<Arg>, garbage: State, name: string)
    requires CleanRequest(action, service, args) && args != []
    ensures var text := Text(action, service, args);
            var st := OnAll(garbage.(head := [], portListing := None), MiniXml.Parse(text));
            && (Lookup(st.head, name).None? <==> forall i :: 0 <= i < |args| ==> !Named(args[i], name))
            && (forall i ::
                  0 <= i < |args| && Named(args[i], name) && (forall j :: i < j < |args| ==> !Named(args[j], name)) ==>
                  Lookup(st.head, name).Some? && FirstPart(ArgValue(args[i]), 127, Lookup(st.head, name).value))
            && ((forall i :: 0 <= i < |args| ==> !GivesListing(args[i])) ==> st.portListing == None)
            && (forall i ::
                  0 <= i < |args| && GivesListing(args[i]) &&
                  (forall j :: i < j < |args| ==> !GivesListing(args[j])) ==>
                    st.portListing == Some(ArgValue(args[i])))
  {
    hide MiniXml.Parse, Entries, OnAll, Head, Foot, ArgTexts, Lookup, Named, FirstPart, GivesListing, Listing;
    WrittenRequestParsed(action, service, args, garbage);
    LookupIsLast(args, name);
    ListingIsLast(args, None);
  }
}
