/**
 parseatt, parseelt and parsexml (minixml.c) as they run: a cursor moved over the text by
 nested loops.  The callbacks append to `events`.
 */
module XmlParser {
  import opened MiniXml

  class Parser {
    const text: string
    var xml: nat
    var events: seq<Event>

    constructor (text: string)
      ensures this.text == text && xml == 0 && events == []
    {
      this.text := text;
      xml, events := 0, [];
    }

    /** The character at an index; NUL at the end of the buffer. */
    function At(i: nat): char {
      if i < |text| then text[i] else '\0'
    }

    /** Move to the first character in `stops`; true if the end comes first. */
    method SkipTo(stops: set<char>) returns (atEnd: bool)
      requires xml < |text|
      modifies this`xml
      ensures xml == old(xml) + Span(text[old(xml)..], stops)
      ensures atEnd == (xml >= |text|)
    {
      ghost var start := xml;
      while text[xml] !in stops
        invariant start <= xml < |text|
        invariant Span(text[start..], stops) == xml - start + Span(text[xml..], stops)
        decreases |text| - xml
      {
        assert text[xml..][1..] == text[xml + 1..];
        xml := xml + 1;
        if xml >= |text| {
          return true;
        }
      }
      return false;
    }

    method SkipWhite() returns (atEnd: bool)
      requires xml < |text|
      modifies this`xml
      ensures xml == old(xml) + SpanWhite(text[old(xml)..])
      ensures atEnd == (xml >= |text|)
    {
      ghost var start := xml;
      while text[xml] in WHITE
        invariant start <= xml < |text|
        invariant SpanWhite(text[start..]) == xml - start + SpanWhite(text[xml..])
        decreases |text| - xml
      {
        assert text[xml..][1..] == text[xml + 1..];
        xml := xml + 1;
        if xml >= |text| {
          return true;
        }
      }
      return false;
    }

    /** An attribute value and the character that ends it; true if the buffer ends first. */
    method ParseAttValue() returns (atEnd: bool, value: string)
      requires xml <= |text|
      modifies this`xml
      ensures var a := AttValue(text[old(xml)..]);
              && atEnd == a.Unfinished? && (!atEnd ==> xml == old(xml) + a.n && value == a.value)
    {
      hide Span, SpanWhite, AttValue;
      ghost var start := xml;
      value := "";
      if xml >= |text| {
        // the terminator is read as an unquoted value that runs over the end
        NoValue();
        return true, "";
      }
      atEnd := SkipWhite();
      if atEnd {
        NoValueLeft(text[start..]);
        return;
      }
      var sep, at := text[xml], xml;
      var quoted := sep in {'\'', '"'};
      if quoted {
        xml := xml + 1;
      }
      var attValue := xml;
      if xml >= |text| {
        SpanAtEnd({sep});
        ValueAt(text, start, at, xml);
        return true, "";
      }
      atEnd := SkipTo(if quoted then {sep} else NAME_END);
      ValueAt(text, start, at, xml);
      if !atEnd {
        value := text[attValue..xml];
        xml := xml + 1;
      }
    }

    /** One attribute; true if the buffer ends first. */
    method ParseOneAtt() returns (atEnd: bool)
      requires xml < |text|
      modifies this`xml, this`events
      ensures var a := OneAttribute(text[old(xml)..]);
              && atEnd == a.Unfinished? && (atEnd ==> events == old(events))
              && (!atEnd ==> xml == old(xml) + a.n && events == old(events) + [Att(a.name, a.value)])
    {
      hide Span, AttValue;
      var attName := xml;
      ghost var s := text[attName..];
      atEnd := SkipTo(WHITE + {'='});
      if atEnd {
        SpanAtEnd({'='});
        return;
      }
      var attNameEnd := xml;
      assert s[attNameEnd - attName..] == text[attNameEnd..];
      atEnd := SkipTo({'='});
      if atEnd {
        return;
      }
      xml := xml + 1;
      assert s[xml - attName..] == text[xml..];
      var value;
      atEnd, value := ParseAttValue();
      if atEnd {
        return;
      }
      assert text[attName..attNameEnd] == s[..attNameEnd - attName];
      events := events + [Att(text[attName..attNameEnd], value)];
    }

    /** parseatt; true if the buffer ends inside the attribute list. */
    method ParseAtt() returns (atEnd: bool)
      requires xml <= |text|
      modifies this`xml, this`events
      ensures var r := AttList(text[old(xml)..]);
              && atEnd == r.Stop? && events == old(events) + r.events
              && (!atEnd ==> xml == old(xml) + r.n)
    {
      hide OneAttribute;
      ghost var start, before: seq<Event> := xml, [];
      AfterNothing(AttList(text[start..]));
      while xml < |text|
        invariant start <= xml <= |text|
        invariant events == old(events) + before
        invariant AttList(text[start..]) == AttList(text[xml..]).After(xml - start, before)
        decreases |text| - xml
      {
        ghost var s := text[xml..];
        ghost var here := xml;
        if text[xml] == '/' || text[xml] == '>' {
          return false;
        }
        if text[xml] !in WHITE {
          atEnd := ParseOneAtt();
          if atEnd {
            return;
          }
          ghost var a := OneAttribute(s);
          AfterTwice(AttList(s[a.n..]), here - start, a.n, before, [Att(a.name, a.value)]);
          before := before + [Att(a.name, a.value)];
          assert s[a.n..] == text[xml..];
        } else {
          AfterTwice(AttList(s[1..]), here - start, 1, before, []);
          assert before + [] == before;
          xml := xml + 1;
          assert s[1..] == text[xml..];
        }
      }
      return true;
    }
  
    /**
     The element name; a ':' after its first character restarts it.  True if the buffer ends
     first, otherwise the cursor is behind the name.
     */
    method ParseName() returns (atEnd: bool, elementName: nat)
      requires xml < |text|
      modifies this`xml
      ensures var s := text[old(xml)..]; var e := Span(s, NAME_END);
              && atEnd == (e >= |s|)
              && (!atEnd ==> xml == old(xml) + e && elementName == old(xml) + LocalStart(s[..e], 0, 0))
    {
      hide Span;
      ghost var start, s := xml, text[xml..];
      ghost var e := Span(s, NAME_END);
      ghost var name := s[..e];
      elementName := xml;
      while At(xml) !in NAME_END
        invariant start <= elementName <= xml <= start + e
        invariant LocalStart(name, xml - start, elementName - start) == LocalStart(name, 0, 0)
        decreases |text| - xml
      {
        if xml < |text| {
          assert s[xml - start] == text[xml];
        }
        xml := xml + 1;
        if xml >= |text| {
          return true, elementName;
        }
        assert s[xml - start] == text[xml];
        if text[xml] == ':' {
          xml := xml + 1;
          elementName := xml;
        }
      }
      assert s[xml - start] == text[xml];
      return false, elementName;
    }

    /** The CDATA section after its opening; true if the buffer ends inside it. */
    method ParseCData() returns (atEnd: bool)
      requires xml <= |text|
      modifies this`xml, this`events
      ensures var s := text[old(xml)..]; var n := CDataEnd(s);
              && atEnd == (n >= |s|) && (atEnd ==> events == old(events))
              && (!atEnd ==> xml == old(xml) + n && events == old(events) + if n > 0 then [Data(s[..n])] else [])
    {
      var data := xml;
      ghost var s := text[data..];
      while !(CDATA_CLOSE <= text[xml..])
        invariant data <= xml <= |text|
        invariant events == old(events)
        invariant CDataEnd(s) == xml - data + CDataEnd(text[xml..])
        decreases |text| - xml
      {
        if xml < |text| {
          assert text[xml..][1..] == text[xml + 1..];
        }
        xml := xml + 1;
        if xml + 3 >= |text| {
          return true;
        }
      }
      assert events + [] == events;
      if xml > data {
        assert text[data..xml] == s[..xml - data];
        events := events + [Data(text[data..xml])];
      }
      return false;
    }

    /** A CDATA section and what follows it; true if the buffer ends. */
    method ParseCDataSection() returns (atEnd: bool)
      requires xml <= |text|
      modifies this`xml, this`events
      ensures var r := CDataSection(text[old(xml)..]);
              && atEnd == r.Stop? && events == old(events) + r.events
              && (!atEnd ==> xml == old(xml) + r.n)
    {
      hide Span, CDataEnd;
      assert events + [] == events;
      ghost var start, s := xml, text[xml..];
      atEnd := ParseCData();
      if atEnd {
        return;
      }
      assert s[xml - start..] == text[xml..];
      atEnd := SkipTo({'<'});
    }

    /** Text that starts at `data` and is white up to the cursor; true if the buffer ends. */
    method ParseText(data: nat) returns (atEnd: bool)
      requires data <= xml < |text|
      modifies this`xml, this`events
      ensures var r := PlainText(text[data..], old(xml) - data);
              && atEnd == r.Stop? && events == old(events) + r.events
              && (!atEnd ==> xml == data + r.n)
    {
      hide Span;
      assert events + [] == events;
      ghost var s := text[data..];
      assert s[xml - data..] == text[xml..];
      SpanHere(text[xml..], {'<'});
      if text[xml] != '<' {
        atEnd := SkipTo({'<'});
        if xml + 1 >= |text| {
          return true;
        }
      }
      assert text[data..xml] == s[..xml - data];
      assert xml + 1 < |text| ==> s[xml - data + 1] == text[xml + 1];
      if xml > data && At(xml + 1) == '/' {
        events := events + [Data(text[data..xml])];
      }
      return false;
    }

    /** What follows an opening tag; true if the buffer ends. */
    method ParseElementData() returns (atEnd: bool)
      requires xml <= |text|
      modifies this`xml, this`events
      ensures var r := ElementData(text[old(xml)..]);
              && atEnd == r.Stop? && events == old(events) + r.events
              && (!atEnd ==> xml == old(xml) + r.n)
    {
      hide SpanWhite, CDataSection, PlainText;
      assert events + [] == events;
      var data := xml;
      ghost var s := text[data..];
      if xml >= |text| {
        return true;
      }
      atEnd := SkipWhite();
      if atEnd {
        return;
      }
      assert s[xml - data..] == text[xml..];
      if CDATA_OPEN <= text[xml..] {
        xml := xml + 9;
        assert s[xml - data..] == text[xml..];
        AfterNothing(CDataSection(text[xml..]));
        atEnd := ParseCDataSection();
      } else {
        atEnd := ParseText(data);
      }
    }

    /** An opening tag after its name; true if the buffer ends. */
    method ParseStartTag() returns (atEnd: bool)
      requires xml <= |text|
      modifies this`xml, this`events
      ensures var r := StartTag(text[old(xml)..]);
              && atEnd == r.Stop? && events == old(events) + r.events
              && (!atEnd ==> xml == old(xml) + r.n)
    {
      hide AttList, ElementData;
      ghost var start, before, s := xml, events, text[xml..];
      atEnd := ParseAtt();
      if atEnd {
        return;
      }
      assert s[xml - start] == text[xml];
      if text[xml] != '/' {
        ghost var atts := AttList(s).events;
        xml := xml + 1;
        assert s[xml - start..] == text[xml..];
        ghost var data := ElementData(text[xml..]).events;
        atEnd := ParseElementData();
        assert (before + atts) + data == before + (atts + data);
      }
    }

    /** A closing tag after its '/'; true if the buffer ends. */
    method ParseEndTag() returns (atEnd: bool)
      requires xml <= |text|
      modifies this`xml, this`events
      ensures var r := EndTag(text[old(xml)..]);
              && atEnd == r.Stop? && events == old(events) + r.events
              && (!atEnd ==> xml == old(xml) + r.n)
    {
      assert events + [] == events;
      var elementName := xml;
      ghost var s := text[elementName..];
      if xml >= |text| {
        return true;
      }
      atEnd := SkipTo({'>'});
      if !atEnd {
        assert text[elementName..xml] == s[..xml - elementName];
        events := events + [EndElt(text[elementName..xml])];
        xml := xml + 1;
      }
    }

    /** A tag, from its '<' on; true if the buffer ends. */
    method ParseTag() returns (atEnd: bool)
      requires xml + 1 < |text|
      modifies this`xml, this`events
      ensures var r := Tag(text[old(xml) + 1..]);
              && atEnd == r.Stop? && events == old(events) + r.events
              && (!atEnd ==> xml == old(xml) + 1 + r.n)
    {
      hide Span, StartTag, EndTag, LocalStart;
      assert events + [] == events;
      ghost var before := events;
      xml := xml + 1;
      var first := xml;
      ghost var s := text[first..];
      var elementName;
      atEnd, elementName := ParseName();
      if atEnd {
        return;
      }
      ghost var e := xml - first;
      assert s[e..] == text[xml..] && s[e] == text[xml];
      assert text[elementName..xml] == LocalName(s[..e]);
      if xml > elementName {
        ghost var start, rest := [StartElt(text[elementName..xml])], StartTag(text[xml..]).events;
        events := events + [StartElt(text[elementName..xml])];
        atEnd := ParseStartTag();
        assert (before + start) + rest == before + (start + rest);
      } else if text[xml] == '/' {
        xml := xml + 1;
        assert s[xml - first..] == text[xml..];
        AfterNothing(EndTag(text[xml..]));
        atEnd := ParseEndTag();
      }
    }

    /** A comment, from its opening on; true if the buffer ends. */
    method SkipComment() returns (atEnd: bool)
      requires xml + 4 <= |text|
      modifies this`xml
      ensures var r := CommentEnd(text[old(xml) + 4..]);
              && r.events == [] && atEnd == r.Stop? && (!atEnd ==> xml == old(xml) + 4 + r.n)
    {
      hide CommentEnd;
      ghost var start := xml + 4;
      xml := xml + 4;
      AfterNothing(CommentEnd(text[start..]));
      CommentUnfold(text, xml);
      if xml + 3 >= |text| {
        return true;
      }
      while !(COMMENT_CLOSE <= text[xml..])
        invariant start <= xml && xml + 3 < |text|
        invariant CommentEnd(text[start..]) == CommentEnd(text[xml..]).After(xml - start, [])
        decreases |text| - xml
      {
        CommentUnfold(text, xml);
        AfterTwice(CommentEnd(text[xml + 1..]), xml - start, 1, [], []);
        xml := xml + 1;
        CommentUnfold(text, xml);
        if xml + 3 >= |text| {
          return true;
        }
      }
      CommentUnfold(text, xml);
      xml := xml + 3;
      return false;
    }

    /** One turn of the main loop; true if the buffer ends. */
    method ParseStep() returns (atEnd: bool)
      requires xml + 1 < |text|
      modifies this`xml, this`events
      ensures var r := Step(text[old(xml)..]);
              && atEnd == r.Stop? && events == old(events) + r.events
              && (!atEnd ==> xml == old(xml) + r.n)
    {
      hide Tag, CommentEnd;
      ghost var s := text[xml..];
      assert events + [] == events;
      if xml + 4 <= |text| && text[xml..xml + 4] == COMMENT_OPEN {
        assert s[4..] == text[xml + 4..] && s[..4] == COMMENT_OPEN;
        atEnd := SkipComment();
      } else if text[xml] == '<' && text[xml + 1] != '?' {
        assert s[1..] == text[xml + 1..];
        AfterNothing(Tag(s[1..]));
        atEnd := ParseTag();
      } else {
        xml := xml + 1;
        atEnd := false;
      }
    }

    /** parseelt: the main loop. */
    method ParseElt()
      requires xml <= |text|
      modifies this`xml, this`events
      ensures events == old(events) + Parse(text[old(xml)..])
    {
      hide Step;
      ghost var start, before: seq<Event> := xml, [];
      while xml + 1 < |text|
        invariant start <= xml <= |text|
        invariant events == old(events) + before
        invariant Parse(text[start..]) == before + Parse(text[xml..])
        decreases |text| - xml
      {
        ghost var s, r := text[xml..], Step(text[xml..]);
        ghost var more := if r.Go? then Parse(s[r.n..]) else [];
        assert before + (r.events + more) == (before + r.events) + more && r.events + [] == r.events;
        var atEnd := ParseStep();
        if atEnd {
          return;
        }
        before := before + r.events;
        assert s[r.n..] == text[xml..];
      }
    }
  }

  lemma CommentUnfold(text: string, i: nat)
    requires i <= |text|
    ensures CommentEnd(text[i..]) ==
            if i + 3 >= |text| then Stop([])
            else if COMMENT_CLOSE <= text[i..] then Go(3, [])
            else CommentEnd(text[i + 1..]).After(1, [])
  {
    if i < |text| {
      assert text[i..][1..] == text[i + 1..];
    }
  }

  lemma NoValue()
    ensures AttValue("").Unfinished?
  {
  }

  lemma NoValueLeft(s: string)
    requires SpanWhite(s) >= |s|
    ensures AttValue(s).Unfinished?
  {
    hide SpanWhite;
  }

  /** The value of an attribute in terms of places in the buffer. */
  lemma ValueAt(text: string, start: nat, v: nat, w: nat)
    requires start <= v < |text| && v == start + SpanWhite(text[start..])
    requires var quoted := text[v] in {'\'', '"'}; var q := if quoted then v + 1 else v;
             w == q + Span(text[q..], if quoted then {text[v]} else NAME_END)
    ensures var q := if text[v] in {'\'', '"'} then v + 1 else v;
            AttValue(text[start..]) == if w >= |text| then Unfinished else Attribute(w + 1 - start, "", text[q..w])
  {
    hide Span, SpanWhite;
    var s := text[start..];
    var q := if text[v] in {'\'', '"'} then v + 1 else v;
    assert s[v - start] == text[v] && s[q - start..] == text[q..];
    assert w <= |text| && s[q - start..w - start] == text[q..w];
  }

  lemma SpanAtEnd(stops: set<char>)
    ensures Span("", stops) == 0
  {
  }

  lemma SpanHere(s: string, stops: set<char>)
    requires s != ""
    ensures Span(s, stops) == 0 <==> s[0] in stops
  {
  }

  lemma AfterNothing(r: Result)
    ensures r.After(0, []) == r
  {
    assert [] + r.events == r.events;
  }

  /** parsexml: a fresh cursor over the whole buffer. */
  method ParseXml(text: string) returns (events: seq<Event>)
    ensures events == Parse(text)
  {
    var p := new Parser(text);
    assert text[0..] == text;
    p.ParseElt();
    events := p.events;
  }
}
