/**
 The callbacks of upnpreplyparse.c and the lookup in the list they build.
 */
module NameValues {
  import opened Common
  import opened MiniXml
  import opened XmlParser

  const PORT_LISTING := "NewPortListing"

  /** A C string: what precedes the first NUL. */
  function CString(s: string): (r: string)
    ensures r <= s && '\0' !in r && (|r| < |s| ==> s[|r|] == '\0') && ('\0' !in s ==> r == s)
  {
    if s == "" || s[0] == '\0' then "" else [s[0]] + CString(s[1..])
  }

  /** r is s, or its first n characters if it has more. */
  predicate FirstPart(s: string, n: nat, r: string) {
    r <= s && |r| == if |s| > n then n else |s|
  }

  function Cut(s: string, n: nat): (r: string)
    ensures FirstPart(s, n, r) && (|s| <= n ==> r == s)
  {
    if |s| > n then s[..n] else s
  }

  datatype NameValue = NameValue(name: string, value: string)

  datatype State = State(head: seq<NameValue>, curelt: string, portListing: Option<string>, topelt: bool,
      cdata: Option<string>)

  /** One callback. */
  function On(st: State, e: Event): State {
    match e
    case StartElt(name) => st.(topelt := true, curelt := Cut(name, 63), cdata := None)
    case EndElt(_) =>
      if !st.topelt then st else
        var value := if st.cdata.Some? then Cut(st.cdata.value, 127) else "";
        var head := if CString(st.curelt) == PORT_LISTING then st.head
                    else [NameValue(CString(st.curelt), value)] + st.head;
        st.(head := head, cdata := None, topelt := false)
    case Data(text) =>
      if CString(st.curelt) == PORT_LISTING then st.(portListing := Some(text)) else st.(cdata := Some(text))
    case Att(_, _) => st
  }

  function OnAll(st: State, es: seq<Event>): State
    decreases |es|
  {
    if es == [] then st else OnAll(On(st, es[0]), es[1..])
  }

  function DataEvents(texts: seq<string>): (es: seq<Event>)
    ensures |es| == |texts|
  {
    if texts == [] then [] else [Data(texts[0])] + DataEvents(texts[1..])
  }

  /** Of several texts the last one counts. */
  lemma {:induction false} LastTextCounts(st: State, texts: seq<string>)
    ensures var listing := CString(st.curelt) == "NewPortListing"; var st' := OnAll(st, DataEvents(texts));
            && (texts == [] ==> st' == st)
            && (texts != [] && listing ==> st' == st.(portListing := Some(texts[|texts| - 1])))
            && (texts != [] && !listing ==> st' == st.(cdata := Some(texts[|texts| - 1])))
    decreases |texts|
  {
    hide CString;
    if texts == [] {
    } else {
      var es := DataEvents(texts);
      assert es[1..] == DataEvents(texts[1..]);
      LastTextCounts(On(st, es[0]), texts[1..]);
    }
  }

  /**
   What an element does, whatever came before: a record of its name and its last text, or the
   port listing.  A second end without a start does nothing.
   */
  lemma ElementEffect(st: State, name: string, texts: seq<string>, end: string)
    requires '\0' !in name
    ensures var st' := OnAll(st, [StartElt(name)] + DataEvents(texts) + [EndElt(end)]);
            var text := if texts == [] then "" else texts[|texts| - 1];
            && OnAll(st', [EndElt(end)]) == st'
            && (name == "NewPortListing" ==>
                  st'.head == st.head && st'.portListing == if texts == [] then st.portListing else Some(text))
            && (name != "NewPortListing" ==>
                  && st'.portListing == st.portListing && |st'.head| == |st.head| + 1 && st'.head[1..] == st.head
                  && FirstPart(name, 63, st'.head[0].name) && FirstPart(text, 127, st'.head[0].value))
  {
    hide CString;
    var es, end' := DataEvents(texts), [EndElt(end)];
    var st1 := On(st, StartElt(name));
    assert ([StartElt(name)] + es + end')[1..] == es + end' && end'[1..] == [];
    OnAllSplit(st1, es, end');
    CutListing(name);
    LastTextCounts(st1, texts);
    var st2 := OnAll(st1, es);
    var st3 := On(st2, EndElt(end));
    assert OnAll(st2, end') == OnAll(st3, end'[1..]) == st3;
    assert OnAll(st3, end') == OnAll(On(st3, EndElt(end)), end'[1..]);
  }

  lemma CutListing(name: string)
    requires '\0' !in name
    ensures CString(Cut(name, 63)) == Cut(name, 63)
    ensures Cut(name, 63) == "NewPortListing" <==> name == "NewPortListing"
  {
    assert |"NewPortListing"| == 14;
  }

  lemma {:induction false} OnAllSplit(st: State, a: seq<Event>, b: seq<Event>)
    ensures OnAll(st, a + b) == OnAll(OnAll(st, a), b)
    decreases |a|
  {
    if a == [] {
      assert a + b == b;
    } else {
      assert (a + b)[0] == a[0] && (a + b)[1..] == a[1..] + b;
      OnAllSplit(On(st, a[0]), a[1..], b);
    }
  }

  function Lookup(head: seq<NameValue>, name: string): Option<string> {
    if head == [] then None
    else if head[0].name == name then Some(head[0].value)
    else Lookup(head[1..], name)
  }

  class ParserData {
    var head: seq<NameValue>
    var curelt: string
    var portListing: Option<string>
    var topelt: bool
    var cdata: Option<string>

    function Value(): State
      reads this
    {
      State(head, curelt, portListing, topelt, cdata)
    }

    /** A structure on the stack: nothing is initialised. */
    constructor (garbage: State)
      ensures Value() == garbage
    {
      head, curelt, portListing, topelt, cdata :=
        garbage.head, garbage.curelt, garbage.portListing, garbage.topelt, garbage.cdata;
    }

    method Start(name: string)
      modifies this
      ensures Value() == On(old(Value()), StartElt(name))
    {
      topelt := true;
      var l := |name|;
      if l > 63 {
        l := 63;
      }
      assert Cut(name, 63) == name[..l];
      curelt := name[..l];
      cdata := None;
    }

    method End(name: string)
      modifies this
      ensures Value() == On(old(Value()), EndElt(name))
    {
      if !topelt {
        return;
      }
      if CString(curelt) != PORT_LISTING {
        var value := "";
        if cdata.Some? {
          var l := |cdata.value|;
          if l >= 128 {
            l := 127;
          }
          value := cdata.value[..l];
          assert value == Cut(cdata.value, 127);
        }
        head := [NameValue(CString(curelt), value)] + head;
      }
      cdata := None;
      topelt := false;
    }

    method GetData(datas: string)
      modifies this
      ensures Value() == On(old(Value()), Data(datas))
    {
      if CString(curelt) == PORT_LISTING {
        portListing := Some(datas);
      } else {
        cdata := Some(datas);
      }
    }

    /** ParseNameValue: only the list and the port listing are reset first. */
    method Parse(buffer: string)
      modifies this
      ensures Value() == OnAll(old(Value()).(head := [], portListing := None), MiniXml.Parse(buffer))
    {
      head, portListing := [], None;
      ghost var st0 := Value();
      var events := ParseXml(buffer);
      var k := 0;
      assert events[0..] == events;
      while k < |events|
        invariant k <= |events|
        invariant OnAll(Value(), events[k..]) == OnAll(st0, events)
      {
        assert events[k..][1..] == events[k + 1..];
        match events[k] {
          case StartElt(name) => Start(name);
          case EndElt(name) => End(name);
          case Data(text) => GetData(text);
          case Att(_, _) =>
        }
        k := k + 1;
      }
    }

    /** GetValueFromNameValueList. */
    method GetValue(name: string) returns (p: Option<string>)
      ensures p == Lookup(head, name)
    {
      p := None;
      var k := 0;
      assert head[0..] == head;
      while k < |head| && p.None?
        invariant k <= |head|
        invariant if p.None? then Lookup(head[k..], name) == Lookup(head, name) else p == Lookup(head, name)
      {
        assert head[k..][1..] == head[k + 1..];
        if head[k].name == name {
          p := Some(head[k].value);
        }
        k := k + 1;
      }
    }
  }
}
