/**
 portlistingparse.c: the callbacks that build the list of port mappings, and what they make
 of a port listing in the documented format.
 */
module PortListing {
  import opened Common
  import opened MiniXml
  import opened XmlParser
  import opened XmlPrinting
  import opened Positional
  import NameValues

  datatype Elt =
    | NoElt | PortMappingEntry | RemoteHost | ExternalPort | Protocol
    | InternalPort | InternalClient | Enabled | Description | LeaseTime

  const ELEMENTS: seq<(Elt, string)> :=
    [(PortMappingEntry, "PortMappingEntry"),
     (RemoteHost, "NewRemoteHost"),
     (ExternalPort, "NewExternalPort"),
     (Protocol, "NewProtocol"),
     (InternalPort, "NewInternalPort"),
     (InternalClient, "NewInternalClient"),
     (Enabled, "NewEnabled"),
     (Description, "NewDescription"),
     (LeaseTime, "NewLeaseTime")]

  const TWO_16: nat := 0x1_0000

  datatype PortMapping = PortMapping(
    leaseTime: nat, externalPort: nat, internalPort: nat,
    remoteHost: string, internalClient: string, description: string, protocol: string, enabled: nat)

  const BLANK := PortMapping(0, 0, 0, "", "", "", "", 0)

  datatype State = State(head: seq<PortMapping>, curelt: Elt)

  // ---------------------------------------------------------------- the callbacks as functions

  predicate IsDigit(c: char) { '0' <= c <= '9' }

  /** The leading decimal digits, in 64 bit unsigned arithmetic, on top of r. */
  function AtouiFrom(s: string, r: nat): nat
    decreases |s|
  {
    if s == "" || !IsDigit(s[0]) then r
    else AtouiFrom(s[1..], (r * 10 + (s[0] as int - '0' as int)) % TWO_64)
  }

  function Atoui(s: string): nat { AtouiFrom(s, 0) }

  /** The first table entry the name is a prefix of: the comparison runs over the name's length only. */
  function Match(name: string, i: nat): Elt
    requires i <= |ELEMENTS|
    decreases |ELEMENTS| - i
  {
    if i == |ELEMENTS| then NoElt
    else if name <= ELEMENTS[i].1 then ELEMENTS[i].0
    else Match(name, i + 1)
  }

  /** Data for the current element of a mapping. */
  function Store(m: PortMapping, elt: Elt, text: string): PortMapping {
    var s := NameValues.Cut(text, 63);
    match elt
    case RemoteHost => m.(remoteHost := s)
    case ExternalPort => m.(externalPort := Atoui(s) % TWO_16)
    case Protocol => m.(protocol := NameValues.Cut(s, 3))
    case InternalPort => m.(internalPort := Atoui(s) % TWO_16)
    case InternalClient => m.(internalClient := s)
    case Enabled => m.(enabled := Atoui(s) % TWO_8)
    case Description => m.(description := s)
    case LeaseTime => m.(leaseTime := Atoui(s))
    case _ => m
  }

  function On(st: State, e: Event): State {
    match e
    case StartElt(name) =>
      var elt := Match(name, 0);
      State(if elt == PortMappingEntry then [BLANK] + st.head else st.head, elt)
    case EndElt(_) => st.(curelt := NoElt)
    case Data(text) => if st.head == [] then st else st.(head := [Store(st.head[0], st.curelt, text)] + st.head[1..])
    case Att(_, _) => st
  }

  function OnAll(st: State, es: seq<Event>): State
    decreases |es|
  {
    if es == [] then st else OnAll(On(st, es[0]), es[1..])
  }

  lemma {:induction false} OnAllSplit(st: State, a: seq<Event>, b: seq<Event>)
    ensures OnAll(st, a + b) == OnAll(OnAll(st, a), b)
    decreases |a|
  {
    if a == [] {
      assert a + b == b;
    } else {
      assert (a + b)[0] == a[0] && (a + b)[1..] == a[1..] + b;
      OnAllSplit(On(st, a[0]), a[1..], b);
    }
  }

  // ---------------------------------------------------------------- the parser

  method AtouiOf(s: string) returns (r: nat)
    ensures r == Atoui(s)
  {
    r := 0;
    var k := 0;
    assert s[0..] == s;
    while k < |s| && s[k] != '\0' && IsDigit(s[k])
      invariant k <= |s|
      invariant AtouiFrom(s[k..], r) == Atoui(s)
    {
      assert s[k..][1..] == s[k + 1..];
      r := (r * 10 + (s[k] as int - '0' as int)) % TWO_64;
      k := k + 1;
    }
  }

  class ParserData {
    var head: seq<PortMapping>
    var curelt: Elt

    function Value(): State
      reads this
    {
      State(head, curelt)
    }

    constructor ()
      ensures Value() == State([], NoElt)
    {
      head, curelt := [], NoElt;
    }

    method Start(name: string)
      modifies this
      ensures Value() == On(old(Value()), StartElt(name))
    {
      curelt := NoElt;
      var i := 0;
      while i < |ELEMENTS|
        invariant i <= |ELEMENTS| && curelt == NoElt && head == old(head)
        invariant Match(name, 0) == Match(name, i)
      {
        if name <= ELEMENTS[i].1 {
          curelt := ELEMENTS[i].0;
          break;
        }
        i := i + 1;
      }
      if curelt == PortMappingEntry {
        head := [BLANK] + head;
      }
    }

    method End(name: string)
      modifies this
      ensures Value() == On(old(Value()), EndElt(name))
    {
      curelt := NoElt;
    }

    method GetData(data: string)
      modifies this
      ensures Value() == On(old(Value()), Data(data))
    {
      if head == [] {
        return;
      }
      var pm := head[0];
      var l := |data|;
      if l > 63 {
        l := 63;
      }
      var s := data[..l];
      assert s == NameValues.Cut(data, 63);
      var number := AtouiOf(s);
      match curelt {
        case RemoteHost => pm := pm.(remoteHost := s);
        case ExternalPort => pm := pm.(externalPort := number % TWO_16);
        case Protocol =>
          if l > 3 {
            l := 3;
          }
          assert s[..l] == NameValues.Cut(s, 3);
          pm := pm.(protocol := s[..l]);
        case InternalPort => pm := pm.(internalPort := number % TWO_16);
        case InternalClient => pm := pm.(internalClient := s);
        case Enabled => pm := pm.(enabled := number % TWO_8);
        case Description => pm := pm.(description := s);
        case LeaseTime => pm := pm.(leaseTime := number);
        case _ =>
      }
      head := [pm] + head[1..];
    }

    /** ParsePortListing. */
    method Parse(buffer: string)
      modifies this
      ensures Value() == OnAll(State([], NoElt), MiniXml.Parse(buffer))
    {
      head, curelt := [], NoElt;
      var events := ParseXml(buffer);
      var k := 0;
      assert events[0..] == events;
      while k < |events|
        invariant k <= |events|
        invariant OnAll(Value(), events[k..]) == OnAll(State([], NoElt), events)
      {
        assert events[k..][1..] == events[k + 1..];
        match events[k] {
          case StartElt(name) => Start(name);
          case EndElt(name) => End(name);
          case Data(text) => GetData(text);
          case Att(_, _) =>
        }
        k := k + 1;
      }
    }
  }

  // ---------------------------------------------------------------- decimals

  function DigitChar(d: nat): char
    requires d < 10
  {
    ('0' as int + d) as char
  }

  /** printf's %u. */
  function Decimal(n: nat): string {
    if n < 10 then [DigitChar(n)] else Decimal(n / 10) + [DigitChar(n % 10)]
  }

  lemma {:induction false} AtouiSplit(a: string, b: string, r: nat)
    requires forall i :: 0 <= i < |a| ==> IsDigit(a[i])
    ensures AtouiFrom(a + b, r) == AtouiFrom(b, AtouiFrom(a, r))
    decreases |a|
  {
    if a == "" {
      assert a + b == b;
    } else {
      assert (a + b)[0] == a[0] && (a + b)[1..] == a[1..] + b;
      AtouiSplit(a[1..], b, (r * 10 + (a[0] as int - '0' as int)) % TWO_64);
    }
  }

  /** Decimal digits, no more of them than their number, and no '<'. */
  lemma {:induction false} DecimalDigits(n: nat)
    ensures Decimal(n) != "" && forall i :: 0 <= i < |Decimal(n)| ==> IsDigit(Decimal(n)[i])
  {
    if n < 10 {
    } else {
      DecimalDigits(n / 10);
    }
  }

  lemma {:induction false} DecimalLength(n: nat, k: nat)
    requires 0 < k && n < Pow10(k)
    ensures |Decimal(n)| <= k
    decreases k
  {
    if n < 10 {
    } else {
      DecimalLength(n / 10, k - 1);
    }
  }

  function Pow10(k: nat): nat {
    if k == 0 then 1 else 10 * Pow10(k - 1)
  }

  lemma ModStep(a: nat, d: nat)
    ensures (a % TWO_64 * 10 + d) % TWO_64 == (a * 10 + d) % TWO_64
  {
    var q, r := a / TWO_64, a % TWO_64;
    ModShift(q * 10, TWO_64, r * 10 + d);
  }

  lemma AtouiDigit(c: char, r: nat)
    requires IsDigit(c)
    ensures AtouiFrom([c], r) == (r * 10 + (c as int - '0' as int)) % TWO_64
  {
    assert [c][1..] == "";
  }

  function DigitNumber(c: char): nat
    requires IsDigit(c)
  {
    c as int - '0' as int
  }

  predicate AllDigits(s: string) {
    forall i :: 0 <= i < |s| ==> IsDigit(s[i])
  }

  function DigitValues(s: string): (ds: seq<nat>)
    requires AllDigits(s)
    ensures |ds| == |s|
  {
    if s == "" then [] else DigitValues(s[..|s| - 1]) + [DigitNumber(s[|s| - 1])]
  }

  lemma {:induction false} AtouiDigits(digits: string)
    requires AllDigits(digits)
    ensures AtouiFrom(digits, 0) == Value(DigitValues(digits), 10) % TWO_64
    decreases |digits|
  {
    hide AtouiFrom;
    if digits == "" {
      AtouiStops("", 0);
    } else {
      var n := |digits| - 1;
      var init := digits[..n];
      assert digits == init + [digits[n]];
      AtouiDigits(init);
      AtouiSplit(init, [digits[n]], 0);
      AtouiDigit(digits[n], AtouiFrom(init, 0));
      var ds := DigitValues(digits);
      assert ds[..n] == DigitValues(init) && ds[n] == DigitNumber(digits[n]);
      ModStep(Value(DigitValues(init), 10), ds[n]);
    }
  }

  /** The number at the front of a text: its decimal value in 64 bits, whatever follows the digits. */
  lemma AtouiExactly(digits: string, rest: string)
    requires AllDigits(digits) && (rest == "" || !IsDigit(rest[0]))
    ensures Atoui(digits + rest) == Value(DigitValues(digits), 10) % TWO_64
  {
    hide AtouiFrom, Value;
    AtouiSplit(digits, rest, 0);
    AtouiStops(rest, AtouiFrom(digits, 0));
    AtouiDigits(digits);
  }

  lemma AtouiStops(rest: string, r: nat)
    requires rest == "" || !IsDigit(rest[0])
    ensures AtouiFrom(rest, r) == r
  {
  }

  /** A printed number is read back, in 64 bits. */
  lemma {:induction false} AtouiDecimal(n: nat)
    ensures Atoui(Decimal(n)) == n % TWO_64
    decreases n
  {
    hide AtouiFrom;
    if n < 10 {
      AtouiDigit(DigitChar(n), 0);
    } else {
      DecimalDigits(n / 10);
      AtouiDecimal(n / 10);
      AtouiSplit(Decimal(n / 10), [DigitChar(n % 10)], 0);
      AtouiDigit(DigitChar(n % 10), n / 10 % TWO_64);
      ModStep(n / 10, n % 10);
    }
  }

  // ---------------------------------------------------------------- the documented format

  datatype Field = Field(elt: Elt, name: string, text: string)

  function Fields(m: PortMapping): seq<Field> {
    [Field(RemoteHost, "NewRemoteHost", m.remoteHost),
     Field(ExternalPort, "NewExternalPort", Decimal(m.externalPort)),
     Field(Protocol, "NewProtocol", m.protocol),
     Field(InternalPort, "NewInternalPort", Decimal(m.internalPort)),
     Field(InternalClient, "NewInternalClient", m.internalClient),
     Field(Enabled, "NewEnabled", Decimal(m.enabled)),
     Field(Description, "NewDescription", m.description),
     Field(LeaseTime, "NewLeaseTime", Decimal(m.leaseTime))]
  }

  /**
   The text between tags, any of its own at every place: gap(k, j) follows the j-th tag of entry k
   (0 its opening tag, 1 to 8 the closing tags of its fields, 9 its closing tag); entries count
   from 1, and gap(0, 0) and gap(0, 1) follow the tags of the list.
   */
  type Gaps = (nat, nat) -> string

  /** The fields from the j-th on. */
  function FieldTokens(fs: seq<Field>, gap: Gaps, k: nat, j: nat): seq<Token> {
    if fs == [] then []
    else
      [Open("p", fs[0].name, [], fs[0].text), Close("p:" + fs[0].name, gap(k, j + 1))] +
      FieldTokens(fs[1..], gap, k, j + 1)
  }

  function EntryTokens(m: PortMapping, gap: Gaps, k: nat): seq<Token> {
    [Open("p", "PortMappingEntry", [], gap(k, 0))] +
    (FieldTokens(Fields(m), gap, k, 0) + [Close("p:PortMappingEntry", gap(k, 9))])
  }

  function EntriesTokens(ms: seq<PortMapping>, gap: Gaps, k: nat): seq<Token> {
    if ms == [] then [] else EntryTokens(ms[0], gap, k) + EntriesTokens(ms[1..], gap, k + 1)
  }

  function Document(ms: seq<PortMapping>, attrs: seq<Attr>, gap: Gaps): seq<Token> {
    [Open("p", "PortMappingList", attrs, gap(0, 0))] +
        (EntriesTokens(ms, gap, 1) + [Close("p:PortMappingList", gap(0, 1))])
  }

  ghost predicate CleanGaps(gap: Gaps) {
    forall k: nat, j: nat :: Avoids(gap(k, j), {'<'})
  }

  /** Numbers of up to 63 digits, and texts without '<'. */
  predicate CleanMapping(m: PortMapping) {
    && m.leaseTime < Pow10(63) && m.externalPort < Pow10(63) && m.internalPort < Pow10(63) && m.enabled < Pow10(63)
    && Avoids(m.remoteHost, {'<'}) && Avoids(m.internalClient, {'<'}) && Avoids(m.description, {'<'})
        && Avoids(m.protocol, {'<'})
  }

  ghost predicate CleanListing(ms: seq<PortMapping>, attrs: seq<Attr>, gap: Gaps) {
    && CleanAttrs(attrs) && CleanGaps(gap)
    && forall i :: 0 <= i < |ms| ==> CleanMapping(ms[i])
  }

  /** A mapping as the fixed-size record keeps it. */
  function Kept(m: PortMapping): PortMapping {
    m.(remoteHost := NameValues.Cut(m.remoteHost, 63), internalClient := NameValues.Cut(m.internalClient, 63),
       description := NameValues.Cut(m.description, 63), protocol := NameValues.Cut(m.protocol, 3),
       externalPort := m.externalPort % TWO_16, internalPort := m.internalPort % TWO_16,
       enabled := m.enabled % TWO_8, leaseTime := m.leaseTime % TWO_64)
  }

  /** The same without naming how it is done: texts cut to the size of their fields, numbers to the width of theirs. */
  ghost predicate Keeps(m: PortMapping, r: PortMapping) {
    && NameValues.FirstPart(m.remoteHost, 63, r.remoteHost) && NameValues.FirstPart(m.protocol, 3, r.protocol)
    && NameValues.FirstPart(m.internalClient, 63, r.internalClient)
    && NameValues.FirstPart(m.description, 63, r.description)
    && r.externalPort == m.externalPort % 0x1_0000 && r.internalPort == m.internalPort % 0x1_0000
    && r.enabled == m.enabled % 0x100 && r.leaseTime == m.leaseTime % 0x1_0000_0000_0000_0000
  }

  lemma {:induction false} KeptListKeeps(ms: seq<PortMapping>)
    ensures |KeptList(ms)| == |ms|
    ensures forall i :: 0 <= i < |ms| ==> Keeps(ms[i], KeptList(ms)[|ms| - 1 - i])
    decreases |ms|
  {
    hide Keeps;
    if ms == [] {
    } else {
      KeptListKeeps(ms[1..]);
      KeptKeeps(ms[0]);
      assert forall i :: 1 <= i < |ms| ==> ms[i] == ms[1..][i - 1];
    }
  }

  lemma KeptKeeps(m: PortMapping)
    ensures Keeps(m, Kept(m))
  {
  }

  /** The resulting list: the last mapping first. */
  function KeptList(ms: seq<PortMapping>): seq<PortMapping> {
    if ms == [] then [] else KeptList(ms[1..]) + [Kept(ms[0])]
  }

  // ---------------------------------------------------------------- cleanliness

  lemma NamesClean1()
    ensures CleanName("PortMappingList") && CleanName("PortMappingEntry") && CleanName("NewRemoteHost")
            && CleanName("NewExternalPort")
  {
  }

  lemma NamesClean2()
    ensures CleanName("NewProtocol") && CleanName("NewInternalPort") && CleanName("NewInternalClient")
  {
  }

  lemma NamesClean3()
    ensures CleanName("NewEnabled") && CleanName("NewDescription") && CleanName("NewLeaseTime")
  {
  }

  lemma TagClean(name: string)
    requires CleanName(name)
    ensures CleanTag("p", name) && Avoids("p:" + name, {'>'})
  {
    assert QName("p", name)[0] == 'p';
  }

  lemma TagNames(name: string)
    requires name in {"PortMappingList", "PortMappingEntry", "NewRemoteHost", "NewExternalPort", "NewProtocol",
                      "NewInternalPort", "NewInternalClient", "NewEnabled", "NewDescription", "NewLeaseTime"}
    ensures CleanName(name) && CleanTag("p", name) && Avoids("p:" + name, {'>'})
  {
    hide CleanName, CleanTag, Avoids;
    NamesClean1();
    NamesClean2();
    NamesClean3();
    TagClean(name);
  }

  predicate CleanField(f: Field) {
    CleanTag("p", f.name) && Avoids("p:" + f.name, {'>'}) && Avoids(f.text, {'<'})
  }

  predicate CleanFields(fs: seq<Field>) {
    forall i :: 0 <= i < |fs| ==> CleanField(fs[i])
  }

  lemma DecimalClean(n: nat)
    ensures Avoids(Decimal(n), {'<'}) && Decimal(n) != ""
  {
    DecimalDigits(n);
  }

  lemma FieldsAreClean(m: PortMapping)
    requires CleanMapping(m)
    ensures CleanFields(Fields(m))
  {
    hide CleanTag, Avoids, Decimal;
    DecimalClean(m.externalPort);
    DecimalClean(m.internalPort);
    DecimalClean(m.enabled);
    DecimalClean(m.leaseTime);
    var fs := Fields(m);
    forall i | 0 <= i < |fs| ensures CleanField(fs[i]) {
      TagNames(fs[i].name);
    }
  }

  lemma {:induction false} FieldTokensClean(fs: seq<Field>, gap: Gaps, k: nat, j: nat)
    requires CleanFields(fs) && CleanGaps(gap)
    ensures CleanTokens(FieldTokens(fs, gap, k, j))
    decreases |fs|
  {
    hide CleanTag, Avoids;
    if fs == [] {
    } else {
      assert CleanField(fs[0]);
      FieldTokensClean(fs[1..], gap, k, j + 1);
      assert CleanToken(Open("p", fs[0].name, [], fs[0].text)) && CleanToken(Close("p:" + fs[0].name, gap(k, j + 1)));
    }
  }

  lemma EntryTokensClean(m: PortMapping, gap: Gaps, k: nat)
    requires CleanMapping(m) && CleanGaps(gap)
    ensures CleanTokens(EntryTokens(m, gap, k))
  {
    hide CleanTag, Avoids, FieldTokens, Fields;
    FieldsAreClean(m);
    FieldTokensClean(Fields(m), gap, k, 0);
    TagNames("PortMappingEntry");
    assert CleanToken(Open("p", "PortMappingEntry", [], gap(k, 0)));
    EntryCloseClean("PortMappingEntry", gap(k, 9));
  }

  lemma EntryCloseClean(name: string, gap: string)
    requires name in {"PortMappingEntry", "PortMappingList"} && Avoids(gap, {'<'})
    ensures CleanToken(Close("p:" + name, gap)) && "p:PortMappingEntry" == "p:" + "PortMappingEntry"
            && "p:PortMappingList" == "p:" + "PortMappingList"
  {
    hide CleanTag, CleanName;
    TagNames(name);
  }

  lemma {:induction false} EntriesTokensClean(ms: seq<PortMapping>, gap: Gaps, k: nat)
    requires CleanGaps(gap) && forall i :: 0 <= i < |ms| ==> CleanMapping(ms[i])
    ensures CleanTokens(EntriesTokens(ms, gap, k))
    decreases |ms|
  {
    hide CleanToken, EntryTokens, Avoids, CleanMapping;
    if ms == [] {
    } else {
      EntryTokensClean(ms[0], gap, k);
      EntriesTokensClean(ms[1..], gap, k + 1);
    }
  }

  lemma DocumentClean(ms: seq<PortMapping>, attrs: seq<Attr>, gap: Gaps)
    requires CleanListing(ms, attrs, gap)
    ensures CleanTokens(Document(ms, attrs, gap))
  {
    hide CleanTag, Avoids, EntriesTokens, CleanAttrs;
    EntriesTokensClean(ms, gap, 1);
    TagNames("PortMappingList");
    assert CleanToken(Open("p", "PortMappingList", attrs, gap(0, 0)));
    EntryCloseClean("PortMappingList", gap(0, 1));
  }

  // ---------------------------------------------------------------- the table

  lemma Differ(a: string, b: string, i: nat)
    requires i < |a| && i < |b| && a[i] != b[i]
    ensures !(a <= b)
  {
  }

  function Code(k: nat): Elt
    requires k < |ELEMENTS|
  {
    ELEMENTS[k].0
  }

  function Label(k: nat): string
    requires k < |ELEMENTS|
  {
    ELEMENTS[k].1
  }

  /** The name is a prefix of none of the entries i to k - 1. */
  ghost predicate NoneOf(name: string, i: nat, k: nat)
    requires k <= |ELEMENTS|
  {
    forall j :: i <= j < k ==> !(name <= Label(j))
  }

  /** A name selects an entry exactly when that is the first one it is a prefix of. */
  lemma {:induction false} MatchExactly(name: string, i: nat, k: nat)
    requires i <= k < |ELEMENTS|
    ensures Match(name, i) == Code(k) <==> name <= Label(k) && NoneOf(name, i, k)
    decreases k - i
  {
    hide Match, Code, Label;
    MatchUnfold(name, i);
    CodesDiffer(i, k);
    if i == k {
      if !(name <= Label(k)) {
        MatchLater(name, k + 1, k);
      }
    } else {
      MatchExactly(name, i + 1, k);
    }
  }

  lemma {:induction false} MatchLater(name: string, i: nat, k: nat)
    requires k < i <= |ELEMENTS|
    ensures Match(name, i) != Code(k)
    decreases |ELEMENTS| - i
  {
    hide Match, Code, Label;
    MatchUnfold(name, i);
    CodesDiffer(if i < |ELEMENTS| then i else k, k);
    if i == |ELEMENTS| {
    } else {
      MatchLater(name, i + 1, k);
    }
  }

  /** It selects nothing exactly when it is a prefix of none. */
  lemma {:induction false} MatchNothing(name: string, i: nat)
    requires i <= |ELEMENTS|
    ensures Match(name, i) == NoElt <==> NoneOf(name, i, |ELEMENTS|)
    decreases |ELEMENTS| - i
  {
    hide Match, Code, Label;
    MatchUnfold(name, i);
    if i == |ELEMENTS| {
    } else {
      CodesDiffer(i, i);
      MatchNothing(name, i + 1);
    }
  }

  lemma MatchUnfold(name: string, i: nat)
    requires i <= |ELEMENTS|
    ensures Match(name, i) == if i == |ELEMENTS| then NoElt else if name <= Label(i) then Code(i)
            else Match(name, i + 1)
  {
  }

  lemma CodesDiffer(i: nat, k: nat)
    requires i < |ELEMENTS| && k < |ELEMENTS|
    ensures (Code(i) == Code(k) <==> i == k) && Code(i) != NoElt
  {
  }

  /** So a name that is cut short selects a field. */
  lemma ShortNameMatches()
    ensures Match("New", 0) == RemoteHost
  {
    hide Match;
    MatchExactly("New", 0, 1);
    Differ("New", "PortMappingEntry", 0);
    assert Label(0) == "PortMappingEntry" && Label(1) == "NewRemoteHost" && Code(1) == RemoteHost;
    assert "New" <= "NewRemoteHost";
  }

  /** No table entry is a prefix of an earlier one. */
  lemma TableIsPrefixFree(j: nat, k: nat)
    requires j < k < |ELEMENTS|
    ensures !(ELEMENTS[k].1 <= ELEMENTS[j].1)
  {
    var a, b := ELEMENTS[k].1, ELEMENTS[j].1;
    if j == 0 {
      Differ(a, b, 0);
    } else if a[3] != b[3] {
      Differ(a, b, 3);
    } else if a[4] != b[4] {
      Differ(a, b, 4);
    } else {
      assert j == 4 && k == 5;
      Differ(a, b, 11);
    }
  }

  /** The entry element selects its own entry, and the list element none. */
  lemma MatchNames()
    ensures Match("PortMappingEntry", 0) == PortMappingEntry && Match("PortMappingList", 0) == NoElt
  {
    hide Match;
    MatchExactly("PortMappingEntry", 0, 0);
    var l := "PortMappingList";
    Differ(l, "PortMappingEntry", 11);
    assert forall i :: 1 <= i < 9 ==> ELEMENTS[i].1[0] == 'N';
    forall j | 0 <= j < 9 ensures !(l <= Label(j)) {
      if j > 0 {
        Differ(l, Label(j), 0);
      }
    }
    MatchNothing(l, 0);
  }

  lemma FieldsMatch(m: PortMapping, i: nat)
    requires i < |Fields(m)|
    ensures Match(Fields(m)[i].name, 0) == Fields(m)[i].elt && Fields(m)[i].elt !in {NoElt, PortMappingEntry}
  {
    hide Match, Decimal;
    var k := i + 1;
    assert Label(k) == Fields(m)[i].name && Code(k) == Fields(m)[i].elt;
    forall j | 0 <= j < k ensures !(Label(k) <= Label(j)) {
      TableIsPrefixFree(j, k);
    }
    MatchExactly(Fields(m)[i].name, 0, k);
  }

  // ---------------------------------------------------------------- events and state

  function FieldEvents(fs: seq<Field>): seq<Event> {
    if fs == [] then []
    else
      var d := if fs[0].text != "" then [Data(fs[0].text)] else [];
      ([StartElt(fs[0].name)] + d + [EndElt("p:" + fs[0].name)]) + FieldEvents(fs[1..])
  }

  lemma FieldTagEvents(f: Field, gap: string, more: seq<Token>)
    ensures var close := Close("p:" + f.name, gap);
            && TokenEvents(close, more) == [EndElt("p:" + f.name)]
            && TokenEvents(Open("p", f.name, [], f.text), [close] + more) ==
                [StartElt(f.name)] + if f.text != "" then [Data(f.text)] else []
  {
  }

  lemma Regroup(a: seq<Event>, b: seq<Event>, c: seq<Event>, d: seq<Event>)
    ensures a + (b + (c + d)) == ((a + b) + c) + d
  {
  }

  lemma {:induction false} FieldTokenEvents(fs: seq<Field>, gap: Gaps, k: nat, j: nat, ts: seq<Token>)
    ensures Events(FieldTokens(fs, gap, k, j) + ts) == FieldEvents(fs) + Events(ts)
    decreases |fs|
  {
    hide Events, TokenEvents;
    if fs == [] {
      assert FieldTokens(fs, gap, k, j) + ts == ts;
    } else {
      var f, more := fs[0], FieldTokens(fs[1..], gap, k, j + 1) + ts;
      var open, close := Open("p", f.name, [], f.text), Close("p:" + f.name, gap(k, j + 1));
      assert FieldTokens(fs, gap, k, j) + ts == [open] + ([close] + more);
      EventsCons(close, more);
      EventsCons(open, [close] + more);
      FieldTokenEvents(fs[1..], gap, k, j + 1, ts);
      FieldTagEvents(f, gap(k, j + 1), more);
      var d := if f.text != "" then [Data(f.text)] else [];
      Regroup([StartElt(f.name)] + d, [EndElt("p:" + f.name)], FieldEvents(fs[1..]), Events(ts));
    }
  }

  /** What the fields leave in a record. */
  function StoreAll(m: PortMapping, fs: seq<Field>): PortMapping
    decreases |fs|
  {
    if fs == [] then m else StoreAll(if fs[0].text != "" then Store(m, fs[0].elt, fs[0].text) else m, fs[1..])
  }

  ghost predicate Matching(fs: seq<Field>) {
    forall i :: 0 <= i < |fs| ==> Match(fs[i].name, 0) == fs[i].elt && fs[i].elt !in {NoElt, PortMappingEntry}
  }

  lemma OneField(st: State, f: Field)
    requires st.head != [] && Match(f.name, 0) == f.elt && f.elt != PortMappingEntry
    ensures OnAll(st, [StartElt(f.name)] + (if f.text != "" then [Data(f.text)] else []) + [EndElt("p:" + f.name)]) ==
            State([if f.text != "" then Store(st.head[0], f.elt, f.text) else st.head[0]] + st.head[1..], NoElt)
  {
    hide Match, Store, Atoui;
    var d := if f.text != "" then [Data(f.text)] else [];
    var last := [EndElt("p:" + f.name)];
    var es := [StartElt(f.name)] + d + last;
    var st1 := State(st.head, f.elt);
    assert es[1..] == d + last && last[1..] == [] && (d != [] ==> d[1..] == []);
    OnAllSplit(st1, d, last);
    var st2 := OnAll(st1, d);
    assert st2 == if d == [] then st1 else On(st1, d[0]);
    assert OnAll(st, es) == OnAll(st1, es[1..]) == OnAll(st2, last) == On(st2, last[0]);
    assert st.head == [st.head[0]] + st.head[1..];
  }

  lemma {:induction false} AllFields(st: State, fs: seq<Field>)
    requires st.head != [] && Matching(fs) && fs != []
    ensures OnAll(st, FieldEvents(fs)) == State([StoreAll(st.head[0], fs)] + st.head[1..], NoElt)
    decreases |fs|
  {
    hide Match, Store, On;
    var f := fs[0];
    var es := [StartElt(f.name)] + (if f.text != "" then [Data(f.text)] else []) + [EndElt("p:" + f.name)];
    OneField(st, f);
    OnAllSplit(st, es, FieldEvents(fs[1..]));
    var st1 := OnAll(st, es);
    assert st1.head[1..] == st.head[1..];
    if fs[1..] == [] {
    } else {
      assert Matching(fs[1..]);
      AllFields(st1, fs[1..]);
    }
  }

  lemma NumberKept(n: nat)
    requires n < Pow10(63)
    ensures Atoui(NameValues.Cut(Decimal(n), 63)) == n % TWO_64
  {
    DecimalLength(n, 63);
    AtouiDecimal(n);
  }

  lemma Narrower(n: nat)
    ensures n % TWO_64 % TWO_16 == n % TWO_16 && n % TWO_64 % TWO_8 == n % TWO_8
  {
    var q, r := n / TWO_64, n % TWO_64;
    ModShift(q * 0x1_0000_0000_0000, TWO_16, r);
    ModShift(q * 0x100_0000_0000_0000, TWO_8, r);
  }

  lemma StoreNumber(m: PortMapping, elt: Elt, n: nat)
    requires elt in {ExternalPort, InternalPort, Enabled, LeaseTime} && n < Pow10(63)
    ensures Store(m, elt, Decimal(n)) ==
            match elt
            case ExternalPort => m.(externalPort := n % TWO_16)
            case InternalPort => m.(internalPort := n % TWO_16)
            case Enabled => m.(enabled := n % TWO_8)
            case _ => m.(leaseTime := n % TWO_64)
  {
    hide Atoui, Pow10;
    NumberKept(n);
    Narrower(n);
  }

  lemma CutTwice(s: string)
    ensures NameValues.Cut(NameValues.Cut(s, 63), 3) == NameValues.Cut(s, 3)
  {
  }

  lemma StoreAllCons(m: PortMapping, f: Field, fs: seq<Field>)
    ensures StoreAll(m, [f] + fs) == StoreAll(if f.text != "" then Store(m, f.elt, f.text) else m, fs)
  {
    assert ([f] + fs)[1..] == fs;
  }

  /** The first half of the fields of a blank record. */
  lemma FirstFields(m: PortMapping, fs: seq<Field>)
    requires CleanMapping(m)
    ensures StoreAll(BLANK, Fields(m)[..4] + fs) ==
            StoreAll(BLANK.(remoteHost := NameValues.Cut(m.remoteHost, 63), externalPort := m.externalPort % TWO_16,
                            protocol := NameValues.Cut(m.protocol, 3), internalPort := m.internalPort % TWO_16), fs)
  {
    hide StoreAll, Decimal, Atoui, Avoids, Pow10;
    var f := Fields(m);
    assert f[..4] + fs == [f[0]] + ([f[1]] + ([f[2]] + ([f[3]] + fs)));
    var m1 := BLANK.(remoteHost := NameValues.Cut(m.remoteHost, 63));
    StoreAllCons(BLANK, f[0], [f[1]] + ([f[2]] + ([f[3]] + fs)));
    var m2 := m1.(externalPort := m.externalPort % TWO_16);
    DecimalClean(m.externalPort);
    StoreNumber(m1, ExternalPort, m.externalPort);
    StoreAllCons(m1, f[1], [f[2]] + ([f[3]] + fs));
    CutTwice(m.protocol);
    var m3 := m2.(protocol := NameValues.Cut(m.protocol, 3));
    StoreAllCons(m2, f[2], [f[3]] + fs);
    DecimalClean(m.internalPort);
    StoreNumber(m3, InternalPort, m.internalPort);
    StoreAllCons(m3, f[3], fs);
  }

  lemma LastFields(m: PortMapping, r: PortMapping)
    requires CleanMapping(m) && r.internalClient == "" && r.description == ""
    ensures StoreAll(r, Fields(m)[4..]) ==
            r.(internalClient := NameValues.Cut(m.internalClient, 63), enabled := m.enabled % TWO_8,
               description := NameValues.Cut(m.description, 63), leaseTime := m.leaseTime % TWO_64)
  {
    hide StoreAll, Decimal, Atoui, Avoids, Pow10;
    var f := Fields(m);
    assert f[4..] == [f[4]] + ([f[5]] + ([f[6]] + ([f[7]] + [])));
    var m1 := r.(internalClient := NameValues.Cut(m.internalClient, 63));
    StoreAllCons(r, f[4], [f[5]] + ([f[6]] + ([f[7]] + [])));
    var m2 := m1.(enabled := m.enabled % TWO_8);
    DecimalClean(m.enabled);
    StoreNumber(m1, Enabled, m.enabled);
    StoreAllCons(m1, f[5], [f[6]] + ([f[7]] + []));
    var m3 := m2.(description := NameValues.Cut(m.description, 63));
    StoreAllCons(m2, f[6], [f[7]] + []);
    DecimalClean(m.leaseTime);
    StoreNumber(m3, LeaseTime, m.leaseTime);
    StoreAllCons(m3, f[7], []);
    StoreNone(m3.(leaseTime := m.leaseTime % TWO_64));
  }

  lemma StoreNone(m: PortMapping)
    ensures StoreAll(m, []) == m
  {
  }

  lemma FieldsKept(m: PortMapping)
    requires CleanMapping(m)
    ensures StoreAll(BLANK, Fields(m)) == Kept(m)
  {
    hide StoreAll, Fields;
    SomeFields(m);
    var f := Fields(m);
    assert f[..4] + f[4..] == f;
    FirstFields(m, f[4..]);
    LastFields(m, BLANK.(remoteHost := NameValues.Cut(m.remoteHost, 63), externalPort := m.externalPort % TWO_16,
                         protocol := NameValues.Cut(m.protocol, 3), internalPort := m.internalPort % TWO_16));
  }

  function EntryEvents(m: PortMapping): seq<Event> {
    [StartElt("PortMappingEntry")] + (FieldEvents(Fields(m)) + [EndElt("p:PortMappingEntry")])
  }

  function EntriesEvents(ms: seq<PortMapping>): seq<Event> {
    if ms == [] then [] else EntryEvents(ms[0]) + EntriesEvents(ms[1..])
  }

  lemma OpenGapEvents(name: string, attrs: seq<Attr>, gap: string, t: Token, ts: seq<Token>)
    ensures TokenEvents(Open("p", name, attrs, gap), [t] + ts) ==
            [StartElt(name)] + (AttEvents(attrs) + if gap != "" && t.Close? then [Data(gap)] else [])
  {
  }

  lemma EntryTokenEvents(m: PortMapping, gap: Gaps, k: nat, ts: seq<Token>)
    ensures Events(EntryTokens(m, gap, k) + ts) == EntryEvents(m) + Events(ts)
  {
    hide Events, TokenEvents, Fields;
    var open, close := Open("p", "PortMappingEntry", [], gap(k, 0)), Close("p:PortMappingEntry", gap(k, 9));
    var more := FieldTokens(Fields(m), gap, k, 0) + ([close] + ts);
    assert EntryTokens(m, gap, k) + ts == [open] + more;
    EventsCons(open, more);
    FieldTokenEvents(Fields(m), gap, k, 0, [close] + ts);
    EventsCons(close, ts);
    CloseEvents("p:PortMappingEntry", gap(k, 9), ts);
    FieldsStart(m, gap, k);
    assert more == [more[0]] + more[1..];
    OpenGapEvents("PortMappingEntry", [], gap(k, 0), more[0], more[1..]);
    assert [StartElt("PortMappingEntry")] + (AttEvents([]) + []) == [StartElt("PortMappingEntry")];
    assert [StartElt("PortMappingEntry")] +
        (FieldEvents(Fields(m)) + ([EndElt("p:PortMappingEntry")] + Events(ts))) == EntryEvents(m) + Events(ts);
  }

  lemma CloseEvents(name: string, gap: string, ts: seq<Token>)
    ensures TokenEvents(Close(name, gap), ts) == [EndElt(name)]
  {
  }

  lemma FieldsStart(m: PortMapping, gap: Gaps, k: nat)
    ensures FieldTokens(Fields(m), gap, k, 0) != [] && FieldTokens(Fields(m), gap, k, 0)[0].Open?
  {
  }

  lemma {:induction false} EntriesTokenEvents(ms: seq<PortMapping>, gap: Gaps, k: nat, ts: seq<Token>)
    ensures Events(EntriesTokens(ms, gap, k) + ts) == EntriesEvents(ms) + Events(ts)
    decreases |ms|
  {
    hide Events, EntryTokens, EntryEvents;
    if ms == [] {
      assert EntriesTokens(ms, gap, k) + ts == ts;
    } else {
      var more := EntriesTokens(ms[1..], gap, k + 1) + ts;
      assert EntriesTokens(ms, gap, k) + ts == EntryTokens(ms[0], gap, k) + more;
      EntryTokenEvents(ms[0], gap, k, more);
      EntriesTokenEvents(ms[1..], gap, k + 1, ts);
      assert EntryEvents(ms[0]) + (EntriesEvents(ms[1..]) + Events(ts)) == EntriesEvents(ms) + Events(ts);
    }
  }

  /** One entry adds one record at the head. */
  lemma OneEntry(st: State, m: PortMapping)
    requires CleanMapping(m)
    ensures OnAll(st, EntryEvents(m)) == State([Kept(m)] + st.head, NoElt) && Keeps(m, Kept(m))
  {
    KeptKeeps(m);
    hide Match, Fields, StoreAll;
    var first, last := [StartElt("PortMappingEntry")], [EndElt("p:PortMappingEntry")];
    var fields := FieldEvents(Fields(m));
    MatchNames();
    var st1 := State([BLANK] + st.head, PortMappingEntry);
    assert first[1..] == [] && last[1..] == [];
    OnAllSplit(st, first, fields + last);
    assert OnAll(st, first) == st1;
    OnAllSplit(st1, fields, last);
    assert Matching(Fields(m)) && Fields(m) != [] by {
      forall i | 0 <= i < |Fields(m)| ensures Match(Fields(m)[i].name, 0) == Fields(m)[i].elt
          && Fields(m)[i].elt !in {NoElt, PortMappingEntry} {
        FieldsMatch(m, i);
      }
      SomeFields(m);
    }
    AllFields(st1, Fields(m));
    FieldsKept(m);
    assert st1.head[1..] == st.head;
    var st2 := State([Kept(m)] + st.head, NoElt);
    assert OnAll(st2, last) == On(st2, last[0]) == st2;
  }

  lemma SomeFields(m: PortMapping)
    ensures |Fields(m)| == 8
  {
  }

  lemma {:induction false} AllEntries(st: State, ms: seq<PortMapping>)
    requires (forall i :: 0 <= i < |ms| ==> CleanMapping(ms[i])) && st.curelt == NoElt
    ensures OnAll(st, EntriesEvents(ms)) == State(KeptList(ms) + st.head, NoElt)
    decreases |ms|
  {
    hide EntryEvents, On, Kept, CleanMapping;
    if ms == [] {
      assert KeptList(ms) + st.head == st.head;
    } else {
      OnAllSplit(st, EntryEvents(ms[0]), EntriesEvents(ms[1..]));
      OneEntry(st, ms[0]);
      AllEntries(State([Kept(ms[0])] + st.head, NoElt), ms[1..]);
      assert KeptList(ms[1..]) + ([Kept(ms[0])] + st.head) == KeptList(ms) + st.head;
    }
  }

  /** The events of a whole listing; white space in an empty list is data. */
  lemma DocumentEvents(ms: seq<PortMapping>, attrs: seq<Attr>, gap: Gaps)
    ensures Events(Document(ms, attrs, gap)) ==
            ([StartElt("PortMappingList")] +
                (AttEvents(attrs) + if gap(0, 0) != "" && ms == [] then [Data(gap(0, 0))] else [])) +
            (EntriesEvents(ms) + [EndElt("p:PortMappingList")])
  {
    hide Events, TokenEvents, EntryTokens, AttEvents;
    var open, close := Open("p", "PortMappingList", attrs, gap(0, 0)), Close("p:PortMappingList", gap(0, 1));
    var more := EntriesTokens(ms, gap, 1) + [close];
    EventsCons(open, more);
    EntriesTokenEvents(ms, gap, 1, [close]);
    assert [close] + [] == [close];
    EventsCons(close, []);
    CloseEvents("p:PortMappingList", gap(0, 1), []);
    NoEvents();
    if ms != [] {
      EntryStarts(ms[0], gap, 1);
    }
    assert more[0].Close? <==> ms == [];
    assert more == [more[0]] + more[1..];
    OpenGapEvents("PortMappingList", attrs, gap(0, 0), more[0], more[1..]);
  }

  lemma NoEvents()
    ensures Events([]) == []
  {
  }

  lemma EntryStarts(m: PortMapping, gap: Gaps, k: nat)
    ensures EntryTokens(m, gap, k) != [] && EntryTokens(m, gap, k)[0].Open?
  {
  }

  lemma {:induction false} AttsIgnored(st: State, attrs: seq<Attr>)
    ensures OnAll(st, AttEvents(attrs)) == st
    decreases |attrs|
  {
    if attrs == [] {
    } else {
      assert AttEvents(attrs)[1..] == AttEvents(attrs[1..]);
      AttsIgnored(st, attrs[1..]);
    }
  }

  /**
   Print any list of port mappings in the documented format, with any layout, and parse it: the list comes back
   reversed, with the ports, the enabled flag and the lease time as printed, in 16, 8 and 64 bits,
   and strings cut to 63 (the protocol to 3) characters.
   */
  lemma ListingParsed(ms: seq<PortMapping>, attrs: seq<Attr>, gap: Gaps)
    requires CleanListing(ms, attrs, gap)
    ensures OnAll(State([], NoElt), MiniXml.Parse(Print(Document(ms, attrs, gap)))) == State(KeptList(ms), NoElt)
    ensures var st := OnAll(State([], NoElt), MiniXml.Parse(Print(Document(ms, attrs, gap))));
            && st.curelt == NoElt && |st.head| == |ms|
            && forall i :: 0 <= i < |ms| ==> Keeps(ms[i], st.head[|ms| - 1 - i])
  {
    hide Print, MiniXml.Parse, Document, EntriesEvents, AttEvents, Match, CleanMapping, Events, Keeps;
    KeptListKeeps(ms);
    DocumentClean(ms, attrs, gap);
    ParsePrinted(Document(ms, attrs, gap));
    DocumentEvents(ms, attrs, gap);
    var st := State([], NoElt);
    var first, last := [StartElt("PortMappingList")], [EndElt("p:PortMappingList")];
    var d := if gap(0, 0) != "" && ms == [] then [Data(gap(0, 0))] else [];
    assert first[1..] == [] && last[1..] == [] && (d != [] ==> d[1..] == []);
    MatchNames();
    OnAllSplit(st, first + (AttEvents(attrs) + d), EntriesEvents(ms) + last);
    OnAllSplit(st, first, AttEvents(attrs) + d);
    OnAllSplit(st, AttEvents(attrs), d);
    AttsIgnored(st, attrs);
    assert OnAll(st, first) == st && OnAll(st, d) == st;
    OnAllSplit(st, EntriesEvents(ms), last);
    AllEntries(st, ms);
    assert KeptList(ms) + [] == KeptList(ms);
  }
}
