/**
 What the parser reports for a buffer that ends too early: a beginning of what it reports for the
 whole text, never anything else.
 */
module XmlTruncation {
  import opened MiniXml
  import opened XmlPrinting

  /** The same result, or fewer events and nothing more to come from the rest of the short buffer. */
  ghost predicate Cuts(t: string, rt: Result, rs: Result) {
    rt == rs || (rt.events <= rs.events && (rt.Go? ==> rt.n <= |t| && Parse(t[rt.n..]) == []))
  }

  /** The same result, or the end of the buffer after fewer events. */
  predicate StopsEarly(rt: Result, rs: Result) {
    rt == rs || (rt.Stop? && rt.events <= rs.events)
  }

  lemma CutsAfter(t: string, j: nat, rt: Result, rs: Result, e: seq<Event>)
    requires j <= |t| && Cuts(t[j..], rt, rs)
    ensures Cuts(t, rt.After(j, e), rs.After(j, e))
  {
    hide Parse;
    if rt != rs {
      assert e + rt.events <= e + rs.events;
      if rt.Go? {
        assert t[j..][rt.n..] == t[j + rt.n..];
      }
    }
  }

  lemma StopsAfter(rt: Result, rs: Result, j: nat, e: seq<Event>)
    requires StopsEarly(rt, rs)
    ensures StopsEarly(rt.After(j, e), rs.After(j, e))
  {
    if rt != rs {
      assert e + rt.events <= e + rs.events;
    }
  }

  lemma Drop(t: string, s: string, j: nat)
    requires t <= s && j <= |t|
    ensures t[j..] <= s[j..]
  {
  }

  // ---------------------------------------------------------------- attributes

  lemma SpanPrefix(t: string, s: string, stops: set<char>)
    requires t <= s
    ensures Span(t, stops) == if Span(s, stops) < |t| then Span(s, stops) else |t|
  {
    hide Span;
    var n, m := Span(s, stops), Span(t, stops);
    assert forall i :: 0 <= i < |t| ==> t[i] == s[i];
  }

  lemma SpanWhitePrefix(t: string, s: string)
    requires t <= s
    ensures SpanWhite(t) == if SpanWhite(s) < |t| then SpanWhite(s) else |t|
  {
    hide SpanWhite;
    var n, m := SpanWhite(s), SpanWhite(t);
    assert forall i :: 0 <= i < |t| ==> t[i] == s[i];
  }

  lemma AttValuePrefix(t: string, s: string)
    requires t <= s
    ensures AttValue(t).Unfinished? || AttValue(t) == AttValue(s)
  {
    hide Span, SpanWhite;
    SpanWhitePrefix(t, s);
    var v := SpanWhite(t);
    if v < |t| {
      var quoted := s[v] in {'\'', '"'};
      var q := if quoted then v + 1 else v;
      Drop(t, s, q);
      var stops := if quoted then {s[v]} else NAME_END;
      SpanPrefix(t[q..], s[q..], stops);
      var w := q + Span(t[q..], stops);
      assert t[q..w] == s[q..w];
    }
  }

  lemma OneAttributePrefix(t: string, s: string)
    requires t <= s
    ensures OneAttribute(t).Unfinished? || OneAttribute(t) == OneAttribute(s)
  {
    hide Span, AttValue;
    SpanPrefix(t, s, WHITE + {'='});
    var nameEnd := Span(t, WHITE + {'='});
    Drop(t, s, nameEnd);
    SpanPrefix(t[nameEnd..], s[nameEnd..], {'='});
    var eq := nameEnd + Span(t[nameEnd..], {'='});
    if eq < |t| {
      Drop(t, s, eq + 1);
      AttValuePrefix(t[eq + 1..], s[eq + 1..]);
      assert t[..nameEnd] == s[..nameEnd];
    }
  }

  lemma {:induction false} AttListPrefix(t: string, s: string)
    requires t <= s
    ensures StopsEarly(AttList(t), AttList(s))
    decreases |t|
  {
    hide OneAttribute;
    if t == "" {
    } else if t[0] in {'/', '>'} {
    } else if t[0] in WHITE {
      AttListPrefix(t[1..], s[1..]);
      StopsAfter(AttList(t[1..]), AttList(s[1..]), 1, []);
    } else {
      OneAttributePrefix(t, s);
      var a := OneAttribute(t);
      if a.Attribute? {
        Drop(t, s, a.n);
        AttListPrefix(t[a.n..], s[a.n..]);
        StopsAfter(AttList(t[a.n..]), AttList(s[a.n..]), a.n, [Att(a.name, a.value)]);
      }
    }
  }

  // ---------------------------------------------------------------- text

  lemma {:induction false} CDataEndPrefix(t: string, s: string)
    requires t <= s
    ensures CDataEnd(t) == |t| || CDataEnd(t) == CDataEnd(s)
    decreases |t|
  {
    if CDATA_CLOSE <= t || |t| <= 4 {
    } else {
      CDataEndPrefix(t[1..], s[1..]);
    }
  }

  lemma CDataSectionPrefix(t: string, s: string)
    requires t <= s
    ensures StopsEarly(CDataSection(t), CDataSection(s))
  {
    hide CDataEnd, Span;
    CDataEndPrefix(t, s);
    var n := CDataEnd(t);
    if n < |t| {
      assert t[..n] == s[..n];
      Drop(t, s, n);
      SpanPrefix(t[n..], s[n..], {'<'});
    }
  }

  lemma ParseShort(s: string)
    requires |s| < 2
    ensures Parse(s) == []
  {
  }

  lemma PlainTextPrefix(t: string, s: string, w: nat)
    requires t <= s && w < |t|
    ensures Cuts(t, PlainText(t, w), PlainText(s, w))
  {
    hide Span, Parse;
    Drop(t, s, w);
    SpanPrefix(t[w..], s[w..], {'<'});
    var f := w + Span(t[w..], {'<'});
    assert t[..f] == s[..f];
    if f == w && f + 1 >= |t| {
      ParseShort(t[f..]);
    }
  }

  /** A tag that ends in its name is not reported. */
  lemma OpenName(u: string)
    requires Avoids(u, NAME_END) && !(COMMENT_OPEN <= "<" + u) && (u != "" ==> u[0] != '?')
    ensures Parse("<" + u) == []
  {
    if u != "" {
      var s := "<" + u;
      assert s[0] == '<' && s[1] == u[0] && s[1..] == u;
      SpanOver(u, "", NAME_END);
      assert u + "" == u;
      assert Tag(u) == Stop([]);
      assert Step(s) == Stop([]);
    }
  }

  /** A proper beginning of a tag that holds nothing but its name. */
  lemma OpeningHead(o: string, u: string)
    requires |o| >= 3 && o[0] == '<' && o[1] == '!' && o[2] == '[' && Avoids(o[1..], NAME_END)
    requires u <= o && u != ""
    ensures u[0] == '<' && (|u| > 1 ==> u[1] == '!') && Parse(u) == []
  {
    hide Parse;
    var v := u[1..];
    assert u == o[..|u|] && u == "<" + v;
    assert forall i :: 0 <= i < |v| ==> v[i] == o[1..][i];
    NotAComment(u);
    OpenName(v);
  }

  lemma NotAComment(u: string)
    ensures |u| > 2 && u[2] == '[' ==> !(COMMENT_OPEN <= u)
    ensures |u| <= 2 ==> !(COMMENT_OPEN <= u)
  {
    assert COMMENT_OPEN[2] == '-' && |COMMENT_OPEN| == 4;
  }

  lemma CDataOpening()
    ensures var o := CDATA_OPEN;
            |o| == 9 && o[0] == '<' && o[1] == '!' && o[2] == '[' && Avoids(o[1..], NAME_END)
  {
    assert CDATA_OPEN[1..] == "![CDATA[";
  }

  lemma ElementDataPrefix(t: string, s: string)
    requires t <= s
    ensures Cuts(t, ElementData(t), ElementData(s))
  {
    hide SpanWhite, CDataSection, PlainText, Parse;
    SpanWhitePrefix(t, s);
    var w := SpanWhite(t);
    if w < |t| {
      Drop(t, s, w);
      if CDATA_OPEN <= t[w..] {
        assert t[w + 9..] <= s[w + 9..];
        CDataSectionPrefix(t[w + 9..], s[w + 9..]);
        StopsAfter(CDataSection(t[w + 9..]), CDataSection(s[w + 9..]), w + 9, []);
      } else if CDATA_OPEN <= s[w..] {
        var u := t[w..];
        CDataOpening();
        BothPrefixes(u, CDATA_OPEN, s[w..]);
        OpeningHead(CDATA_OPEN, u);
        TextBeforeTag(t, w);
      } else {
        PlainTextPrefix(t, s, w);
      }
    }
  }

  lemma BothPrefixes(a: string, b: string, s: string)
    requires a <= s && b <= s && !(b <= a)
    ensures a <= b
  {
    assert a == s[..|a|] && b == s[..|b|];
  }

  lemma TextBeforeTag(t: string, w: nat)
    requires w < |t| && t[w] == '<' && (w + 1 < |t| ==> t[w + 1] != '/')
    ensures PlainText(t, w) == Go(w, [])
  {
    hide Span;
    assert t[w..][0] == '<';
    var n := Span(t[w..], {'<'});
    assert n == 0;
  }

  // ---------------------------------------------------------------- tags

  lemma StartTagPrefix(t: string, s: string)
    requires t <= s
    ensures Cuts(t, StartTag(t), StartTag(s))
  {
    hide AttList, ElementData, Parse;
    AttListPrefix(t, s);
    var r := AttList(t);
    if r.Go? {
      assert s[r.n] == t[r.n];
      if t[r.n] != '/' {
        Drop(t, s, r.n + 1);
        ElementDataPrefix(t[r.n + 1..], s[r.n + 1..]);
        CutsAfter(t, r.n + 1, ElementData(t[r.n + 1..]), ElementData(s[r.n + 1..]), r.events);
      }
    }
  }

  lemma EndTagPrefix(t: string, s: string)
    requires t <= s
    ensures StopsEarly(EndTag(t), EndTag(s))
  {
    hide Span;
    SpanPrefix(t, s, {'>'});
    assert forall n :: 0 <= n <= |t| ==> t[..n] == s[..n];
  }

  lemma TagPrefix(t: string, s: string)
    requires t <= s && t != ""
    ensures Cuts(t, Tag(t), Tag(s))
  {
    hide Span, StartTag, EndTag, Parse, LocalStart;
    SpanPrefix(t, s, NAME_END);
    var e := Span(t, NAME_END);
    if e < |t| {
      assert t[..e] == s[..e] && t[e] == s[e];
      Drop(t, s, e);
      Drop(t, s, e + 1);
      var name := LocalName(t[..e]);
      if name != "" {
        StartTagPrefix(t[e..], s[e..]);
        CutsAfter(t, e, StartTag(t[e..]), StartTag(s[e..]), [StartElt(name)]);
      } else if t[e] == '/' {
        EndTagPrefix(t[e + 1..], s[e + 1..]);
        StopsAfter(EndTag(t[e + 1..]), EndTag(s[e + 1..]), e + 1, []);
      }
    }
  }

  lemma {:induction false} CommentPrefix(t: string, s: string)
    requires t <= s
    ensures StopsEarly(CommentEnd(t), CommentEnd(s))
    decreases |t|
  {
    if |t| <= 3 || COMMENT_CLOSE <= t {
    } else {
      CommentPrefix(t[1..], s[1..]);
      StopsAfter(CommentEnd(t[1..]), CommentEnd(s[1..]), 1, []);
    }
  }

  lemma StepPrefix(t: string, s: string)
    requires t <= s && |t| >= 2
    ensures Cuts(t, Step(t), Step(s))
  {
    hide Tag, CommentEnd, Parse;
    if COMMENT_OPEN <= t {
      assert t[4..] <= s[4..];
      CommentPrefix(t[4..], s[4..]);
      StopsAfter(CommentEnd(t[4..]), CommentEnd(s[4..]), 4, []);
    } else if COMMENT_OPEN <= s {
      CommentHead(t, s);
    } else if t[0] == '<' && t[1] != '?' {
      Drop(t, s, 1);
      TagPrefix(t[1..], s[1..]);
      CutsAfter(t, 1, Tag(t[1..]), Tag(s[1..]), []);
    }
  }

  lemma CommentHead(t: string, s: string)
    requires t <= s && 2 <= |t| && COMMENT_OPEN <= s && !(COMMENT_OPEN <= t)
    ensures Step(t) == Stop([])
  {
    hide CommentEnd, StartTag, EndTag;
    assert |t| < 4;
    var u := t[1..];
    assert t[0] == COMMENT_OPEN[0] && t[1] == COMMENT_OPEN[1] && (|t| > 2 ==> t[2] == COMMENT_OPEN[2]);
    assert Avoids(u, NAME_END);
    SpanOver(u, "", NAME_END);
    assert u + "" == u;
  }

  /** The events of a cut-off buffer are the first ones of the whole text. */
  lemma {:induction false} Truncated(t: string, s: string)
    requires t <= s
    ensures Parse(t) <= Parse(s)
    decreases |t|
  {
    hide Step;
    if |t| < 2 {
    } else {
      StepPrefix(t, s);
      var rt, rs := Step(t), Step(s);
      if rt == rs && rt.Go? {
        Drop(t, s, rt.n);
        Truncated(t[rt.n..], s[rt.n..]);
      }
    }
  }
}
