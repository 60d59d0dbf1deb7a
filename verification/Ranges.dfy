/** From configured address ranges to the pool: what the range text means, and exactly which
    configurations give a pool the rest of the system can rely on. */
module Ranges {
  import opened Wrappers
  import opened Text
  import opened Ip
  import opened Store
  import opened Provider
  import opened Manager
  import opened Pool
  import Laws

  datatype Range = Range(start: nat, end: nat, bits: nat) {
    predicate Valid() { start < IPV4_COUNT && end < IPV4_COUNT && bits <= 32 }

    /** The prefix of the start address. */
    function Home(): (net: Net)
      requires Valid()
      ensures net.Valid()
    {
      PrefixOf(start, bits);
      Net(Prefix(start, bits), bits)
    }

    /** The name the range's rows carry: the prefix of the END address. */
    function Name(): string
      requires Valid()
    {
      PrefixOf(end, bits);
      Label(Net(Prefix(end, bits), bits))
    }

    function Last(): (n: nat)
      requires Valid()
      ensures start <= n < IPV4_COUNT
    {
      PrefixEnd(Home());
      LastAddress(start, Home(), end)
    }

    predicate SameSubnet()
      requires Valid()
    {
      Prefix(start, bits) == Prefix(end, bits)
    }
  }

  predicate Valids(rs: seq<Range>) { forall r :: r in rs ==> r.Valid() }

  // ---------------------------------------------------------------- text

  function Entry(r: Range): string
    requires r.Valid()
  {
    Render(r.start) + "/" + Itoa(r.bits) + "-" + (Render(r.end) + "/" + Itoa(r.bits))
  }

  predicate Plain(c: char) { IsDigit(c) || c == '.' }

  lemma EndText(n: nat, bits: nat)
    requires n < IPV4_COUNT && bits <= 32
    ensures var s := Render(n) + "/" + Itoa(bits);
      && Split(s, '/') == [Render(n), Itoa(bits)]
      && s != "" && IsDigit(s[0]) && IsDigit(s[|s| - 1])
      && (forall i :: 0 <= i < |s| ==> Plain(s[i]) || s[i] == '/')
  {
    hide Render, Split, Itoa;
    RenderChars(n);
    RenderFirst(n);
    assert AllDigits(Itoa(bits));
    SplitTwo(Render(n), Itoa(bits), '/');
    assert Render(n) + ['/'] + Itoa(bits) == Render(n) + "/" + Itoa(bits);
  }

  lemma RenderFirst(n: nat)
    requires n < IPV4_COUNT
    ensures Render(n) != "" && IsDigit(Render(n)[0])
  {
  }

  lemma EntryShape(r: Range)
    requires r.Valid()
    ensures Split(Entry(r), '-') == [Render(r.start) + "/" + Itoa(r.bits), Render(r.end) + "/" + Itoa(r.bits)]
    ensures Entry(r) != "" && IsDigit(Entry(r)[0]) && IsDigit(Entry(r)[|Entry(r)| - 1])
    ensures ',' !in Entry(r)
  {
    hide Render, Split, Itoa;
    EndText(r.start, r.bits);
    EndText(r.end, r.bits);
    var a, b := Render(r.start) + "/" + Itoa(r.bits), Render(r.end) + "/" + Itoa(r.bits);
    SplitTwo(a, b, '-');
    assert a + ['-'] + b == Entry(r);
  }

  /** A range text read back is the range. */
  lemma ReadEntry(r: Range)
    requires r.Valid()
    ensures ReadRange(Entry(r)) == Some(RangeText(Render(r.start), Render(r.end), Itoa(r.bits)))
  {
    hide Render, Split, Itoa, TrimLeft, TrimRight;
    EntryShape(r);
    EndText(r.start, r.bits);
    EndText(r.end, r.bits);
    assert Trim(Entry(r), '"') == Entry(r);
  }

  /** How an entry may be dressed up: blanks around quotes around the range. */
  datatype Padding = Padding(before: nat, open: nat, close: nat, after: nat)

  function Times(c: char, n: nat): (s: string)
    ensures |s| == n && Only(s, c)
  {
    seq(n, _ => c)
  }

  function Quoted(r: Range, p: Padding): string
    requires r.Valid()
  {
    Times('"', p.open) + Entry(r) + Times('"', p.close)
  }

  function Padded(r: Range, p: Padding): string
    requires r.Valid()
  {
    Times(' ', p.before) + Quoted(r, p) + Times(' ', p.after)
  }

  lemma QuotedTrim(r: Range, p: Padding)
    requires r.Valid()
    ensures Trim(Quoted(r, p), '"') == Entry(r) && Trim(Padded(r, p), ' ') == Quoted(r, p)
    ensures ',' !in Padded(r, p) && Padded(r, p) != ""
  {
    hide Entry, Trim;
    EntryShape(r);
    var e, q := Entry(r), Quoted(r, p);
    TrimPadded(Times('"', p.open), e, Times('"', p.close), '"');
    assert q[0] == if p.open > 0 then '"' else e[0];
    assert q[|q| - 1] == if p.close > 0 then '"' else e[|e| - 1];
    TrimPadded(Times(' ', p.before), q, Times(' ', p.after), ' ');
  }

  function QuotedAll(rs: seq<Range>, ps: seq<Padding>): (es: seq<string>)
    requires Valids(rs) && |ps| == |rs|
    ensures |es| == |rs| && forall i :: 0 <= i < |es| ==> es[i] == Quoted(rs[i], ps[i])
  {
    seq(|rs|, i requires 0 <= i < |rs| => assert rs[i] in rs; Quoted(rs[i], ps[i]))
  }

  function PaddedAll(rs: seq<Range>, ps: seq<Padding>): (es: seq<string>)
    requires Valids(rs) && |ps| == |rs|
    ensures |es| == |rs| && forall i :: 0 <= i < |es| ==> es[i] == Padded(rs[i], ps[i])
  {
    seq(|rs|, i requires 0 <= i < |rs| => assert rs[i] in rs; Padded(rs[i], ps[i]))
  }

  /** A configuration as an operator may write it. */
  function ConfigText(rs: seq<Range>, ps: seq<Padding>): string
    requires rs != [] && Valids(rs) && |ps| == |rs|
  {
    Join(PaddedAll(rs, ps), ',')
  }

  lemma {:induction false} JoinNotEmpty(parts: seq<string>, sep: char)
    requires |parts| >= 1 && forall p :: p in parts ==> p != ""
    ensures Join(parts, sep) != ""
  {
    assert parts[0] in parts;
    assert |Join(parts, sep)| >= |parts[0]|;
  }

  lemma {:induction false} QuotedRanges(rs: seq<Range>, ps: seq<Padding>)
    requires Valids(rs) && |ps| == |rs|
    ensures RangesOf(QuotedAll(rs, ps)) == rs
    decreases |rs|
  {
    hide RangeOf, Quoted;
    var es := QuotedAll(rs, ps);
    if rs != [] {
      assert rs[0] in rs && forall r :: r in rs[1..] ==> r in rs;
      ReadBack(rs[0], ps[0]);
      QuotedRanges(rs[1..], ps[1..]);
      assert es[1..] == QuotedAll(rs[1..], ps[1..]);
      assert [rs[0]] + rs[1..] == rs;
    }
  }

  /** A written configuration, with any blanks around its entries and any quotes around each,
      reads back as its ranges, one entry each, in order. */
  lemma ConfigRoundTrip(rs: seq<Range>, ps: seq<Padding>)
    requires rs != [] && Valids(rs) && |ps| == |rs|
    ensures ConfigText(rs, ps) != "" && Entries(ConfigText(rs, ps)) == QuotedAll(rs, ps)
    ensures RangesOf(Entries(ConfigText(rs, ps))) == rs
  {
    hide Quoted, Padded, Trim, Split, Join, RangesOf;
    var es := PaddedAll(rs, ps);
    forall i | 0 <= i < |es|
      ensures ',' !in es[i] && es[i] != "" && Trim(es[i], ' ') == QuotedAll(rs, ps)[i]
    {
      assert rs[i] in rs;
      QuotedTrim(rs[i], ps[i]);
    }
    forall e | e in es ensures e != "" && ',' !in e { var i :| 0 <= i < |es| && es[i] == e; }
    SplitJoin(es, ',');
    JoinNotEmpty(es, ',');
    assert Entries(ConfigText(rs, ps)) == QuotedAll(rs, ps);
    QuotedRanges(rs, ps);
  }

  /** The entries of any text: its pieces between commas, without outer blanks. */
  lemma EntriesOf(parts: seq<string>)
    requires |parts| >= 1 && forall p :: p in parts ==> ',' !in p
    ensures var text := Join(parts, ',');
      text != "" ==>
        && |Entries(text)| == |parts|
        && forall i :: 0 <= i < |parts| ==> Entries(text)[i] == Trim(parts[i], ' ')
  {
    hide Trim, Split, Join;
    SplitJoin(parts, ',');
  }

  /** Entry by entry: a bad entry costs no other entry its range. */
  lemma {:induction false} RangesConcat(a: seq<string>, b: seq<string>)
    ensures RangesOf(a + b) == RangesOf(a) + RangesOf(b)
    decreases |a|
  {
    hide RangeOf;
    if a == [] {
      assert a + b == b;
    } else {
      assert (a + b)[1..] == a[1..] + b;
      RangesConcat(a[1..], b);
    }
  }

  /** Later entries are loaded after earlier ones. */
  lemma {:induction false} LoadAllConcat(a: seq<string>, b: seq<string>, core: Core)
    ensures LoadAll(a + b, core) == LoadAll(b, LoadAll(a, core))
    decreases |a|
  {
    hide LoadEntry;
    if a == [] {
      assert a + b == b;
    } else {
      assert (a + b)[1..] == a[1..] + b;
      LoadAllConcat(a[1..], b, LoadEntry(a[0], core));
    }
  }

  // ---------------------------------------------------------------- which entries are ranges

  lemma SplitTwoBack(s: string, sep: char)
    requires |Split(s, sep)| == 2
    ensures s == Split(s, sep)[0] + [sep] + Split(s, sep)[1]
    ensures sep !in Split(s, sep)[0] && sep !in Split(s, sep)[1]
  {
    var p := Split(s, sep);
    JoinSplit(s, sep);
    assert p == [p[0], p[1]] && p[1..] == [p[1]];
    assert p[0] in p && p[1] in p;
  }

  predicate Fields(t: RangeText) {
    && '-' !in t.start && '-' !in t.end && '-' !in t.mask
    && '/' !in t.start && '/' !in t.end && '/' !in t.mask
  }

  function Spelt(t: RangeText): string { t.start + "/" + t.mask + "-" + (t.end + "/" + t.mask) }

  /** Exactly the entries that come apart: "start/mask-end/mask" with the same mask text twice,
      up to quotes around it all. */
  lemma ReadRangeIff(entry: string, t: RangeText)
    ensures ReadRange(entry) == Some(t) <==> Fields(t) && Trim(entry, '"') == Spelt(t)
  {
    hide Split, Trim;
    var s := Trim(entry, '"');
    if Fields(t) && s == Spelt(t) {
      var a, b := t.start + "/" + t.mask, t.end + "/" + t.mask;
      SplitTwo(a, b, '-');
      assert a + ['-'] + b == Spelt(t);
      SplitTwo(t.start, t.mask, '/');
      SplitTwo(t.end, t.mask, '/');
      assert t.start + ['/'] + t.mask == a && t.end + ['/'] + t.mask == b;
    }
    if ReadRange(entry) == Some(t) {
      var ends := Split(s, '-');
      SplitTwoBack(s, '-');
      SplitTwoBack(ends[0], '/');
      SplitTwoBack(ends[1], '/');
      assert ends[0] == t.start + "/" + t.mask && ends[1] == t.end + "/" + t.mask;
    }
  }

  /** The entry spells the range: two address texts, and one length text for both. */
  predicate Spells(entry: string, t: RangeText, r: Range) {
    && Trim(entry, '"') == Spelt(t)
    && QuadText(t.start, r.start) && QuadText(t.end, r.end) && MaskText(t.mask) && Number(t.mask) == r.bits
  }

  lemma SpellsFields(entry: string, t: RangeText, r: Range)
    requires Spells(entry, t, r)
    ensures Fields(t)
  {
    hide QuadText;
    QuadLacks(t.start, r.start, '-');
    QuadLacks(t.start, r.start, '/');
    QuadLacks(t.end, r.end, '-');
    QuadLacks(t.end, r.end, '/');
    DigitsLack(t.mask, '-');
    DigitsLack(t.mask, '/');
  }

  /** Exactly the entries the loader takes for a range, and which range: up to quotes around
      it, "a/m-b/m" where a and b are IPv4 texts and m is a length of at most 32, the same
      text both times. Any other IPv4 entry is skipped. */
  lemma RangeOfIff(entry: string, r: Range)
    ensures RangeOf(entry) == Some(r) <==> exists t :: Spells(entry, t, r)
  {
    hide ParseCIDR, QuadText, Trim, ReadRange, MaskText, Prefix;
    if t :| Spells(entry, t, r) {
      SpellsFields(entry, t, r);
      ReadRangeIff(entry, t);
      ParseIPv4Iff(t.start, r.start);
      ParseIPv4Iff(t.end, r.end);
      ParseCIDRIs(t.start, t.mask);
      ParseCIDRIs(t.end, t.mask);
    }
    if RangeOf(entry) == Some(r) {
      var t := ReadRange(entry).value;
      ReadRangeIff(entry, t);
      ParseCIDRIs(t.start, t.mask);
      ParseCIDRIs(t.end, t.mask);
      ParseIPv4Iff(t.start, r.start);
      ParseIPv4Iff(t.end, r.end);
      assert Spells(entry, t, r);
    }
  }

  predicate IsQuad(s: string) { ParseIPv4(s).Some? }

  /** When an entry of two ends is skipped: the masks differ, or one end or the mask is no good. */
  lemma TwoEndsIff(entry: string, a: string, m: string, b: string, k: string)
    requires Fields(RangeText(a, b, m)) && '-' !in k && '/' !in k
    requires Trim(entry, '"') == a + "/" + m + "-" + (b + "/" + k)
    ensures RangeOf(entry).Some? <==> m == k && MaskText(m) && IsQuad(a) && IsQuad(b)
  {
    hide ParseCIDR, ParseIPv4, Trim, Split, MaskText, Prefix;
    var s := Trim(entry, '"');
    SplitTwo(a + "/" + m, b + "/" + k, '-');
    assert a + "/" + m + ['-'] + (b + "/" + k) == s;
    SplitTwo(a, m, '/');
    SplitTwo(b, k, '/');
    assert a + ['/'] + m == a + "/" + m && b + ['/'] + k == b + "/" + k;
    ParseCIDRIs(a, m);
    ParseCIDRIs(b, m);
  }

  // ---------------------------------------------------------------- loading

  function Loaded(r: Range, core: Core): Core
    requires r.Valid()
  {
    Core(core.cidrs + {r.Name()}, Inserted(core.tables, Texts(r.start, r.Last() + 1), r.Name()))
  }

  function LoadedAll(rs: seq<Range>, core: Core): Core
    requires Valids(rs)
    decreases |rs|
  {
    if rs == [] then core else LoadedAll(rs[1..], Loaded(rs[0], core))
  }

  /** The range an entry stands for, provided both its ends parse. */
  function RangeOf(entry: string): (r: Option<Range>)
    ensures r.Some? ==> r.value.Valid()
  {
    match ReadRange(entry)
    case None => None
    case Some(t) =>
      match (ParseCIDR(t.start + "/" + t.mask), ParseCIDR(t.end + "/" + t.mask))
      case (Some((start, net)), Some((end, _))) => Some(Range(start, end, net.bits))
      case _ => None
  }

  function RangesOf(entries: seq<string>): (rs: seq<Range>)
    ensures Valids(rs)
  {
    if entries == [] then []
    else
      var rest := RangesOf(entries[1..]);
      match RangeOf(entries[0])
      case None => rest
      case Some(r) => [r] + rest
  }

  lemma EndsPlain(entry: string)
    requires ReadRange(entry).Some?
    ensures '/' !in ReadRange(entry).value.start && '/' !in ReadRange(entry).value.end
  {
    hide Split, Trim;
    var ends := Split(Trim(entry, '"'), '-');
    JoinSplit(ends[0], '/');
    JoinSplit(ends[1], '/');
    assert Split(ends[0], '/')[0] in Split(ends[0], '/') && Split(ends[1], '/')[0] in Split(ends[1], '/');
  }

  lemma MaskBits(ip: string, mask: string)
    requires '/' !in ip && ParseCIDR(ip + "/" + mask).Some?
    ensures Dtoi(mask).Some? && ParseCIDR(ip + "/" + mask).value.1.bits == Dtoi(mask).value.0
  {
    hide ParseIPv4, Dtoi, Prefix;
    var s := ip + "/" + mask;
    assert s[..|ip|] == ip && s[|ip| + 1..] == mask;
    FirstSlash(s, |ip|);
  }

  /** The label an entry registers: its end address's, even if its start address is no good. */
  function NamedBy(t: RangeText): set<string> {
    match ParseCIDR(t.end + "/" + t.mask)
    case None => {}
    case Some((_, net)) => {Label(net)}
  }

  /** Loading any entry but an IPv6 range, blanks, quotes and leading zeros included: one whose
      ends parse adds exactly its range, any other adds no row. */
  lemma LoadEntryParsed(entry: string, core: Core)
    ensures match RangeOf(entry)
      case Some(r) => LoadEntry(entry, core) == Loaded(r, core)
      case None => LoadEntry(entry, core).tables == core.tables && core.cidrs <= LoadEntry(entry, core).cidrs
    ensures LoadEntry(entry, core).cidrs == core.cidrs +
      if ReadRange(entry).Some? then NamedBy(ReadRange(entry).value) else {}
  {
    hide ParseCIDR, Dtoi, Render, Texts, Label, Prefix, LastAddress, ReadRange;
    if ReadRange(entry).Some? {
      var t := ReadRange(entry).value;
      EndsPlain(entry);
      if RangeOf(entry).Some? {
        var r := RangeOf(entry).value;
        MaskBits(t.start, t.mask);
        MaskBits(t.end, t.mask);
        RangeTextsIs(t.start, t.mask, r.end, r.start, r.Home());
      }
    }
  }

  lemma ReadBack(r: Range, p: Padding)
    requires r.Valid()
    ensures RangeOf(Quoted(r, p)) == Some(r)
  {
    hide Render, Itoa, ParseCIDR, ReadRange, Entry, Quoted;
    QuotedTrim(r, p);
    ReadEntry(r);
    SameRead(Quoted(r, p), Entry(r));
    ParseRenderedCIDR(r.end, r.bits);
    ParseRenderedCIDR(r.start, r.bits);
  }

  lemma SameRead(x: string, y: string)
    requires Trim(x, '"') == y && ReadRange(y).Some?
    ensures ReadRange(x) == ReadRange(y)
  {
    hide Trim, Split;
    assert Bare(y, '"') by { var _, _ := TrimTakes(x, '"'); }
    TrimPadded("", y, "", '"');
    assert "" + y + "" == y;
  }

  /** Loading a range's text adds exactly its rows, named after its end address. */
  lemma LoadEntryIs(r: Range, core: Core)
    requires r.Valid()
    ensures LoadEntry(Entry(r), core) == Loaded(r, core)
  {
    hide Entry, LoadEntry, Loaded, RangeOf;
    var none := Padding(0, 0, 0, 0);
    assert Quoted(r, none) == Entry(r);
    ReadBack(r, none);
    LoadEntryParsed(Entry(r), core);
  }

  /** Entries that stand for no range leave at most labels behind. */
  lemma {:induction false} LoadAllParsed(entries: seq<string>, core: Core, clean: Core)
    requires core.tables == clean.tables && clean.cidrs <= core.cidrs
    ensures LoadAll(entries, core).tables == LoadedAll(RangesOf(entries), clean).tables
    ensures LoadedAll(RangesOf(entries), clean).cidrs <= LoadAll(entries, core).cidrs
    decreases |entries|
  {
    hide RangeOf, LoadEntry, Texts, LastAddress, Label, Inserted;
    if entries != [] {
      LoadEntryParsed(entries[0], core);
      var core1 := LoadEntry(entries[0], core);
      match RangeOf(entries[0])
      case None => LoadAllParsed(entries[1..], core1, clean);
      case Some(r) => LoadAllParsed(entries[1..], core1, Loaded(r, clean));
    }
  }

  // ---------------------------------------------------------------- well-formed pools

  predicate Sane(core: Core) { WellFormed(core.cidrs, Slots(core.tables.rows)) }

  /** Every address of a range lies in the start address's prefix. */
  lemma SpanPrefix(r: Range, n: nat)
    requires r.Valid() && r.start <= n <= r.Last()
    ensures Prefix(n, r.bits) == Prefix(r.start, r.bits)
  {
    PrefixInterval(r.Home(), r.start);
    PrefixInterval(r.Home(), n);
  }

  /** An address of a range passes the membership test of the range's own name exactly when
      both ends of the range share a subnet. */
  lemma NameHoldsIff(r: Range, n: nat)
    requires r.Valid() && r.start <= n <= r.Last()
    ensures InPrefix(r.Name(), Render(n)) <==> r.SameSubnet()
    ensures IsIPv4Addr(Render(n))
  {
    hide Render, ParseCIDR, ParseIP, Label, V4, To4, Prefix;
    var net := Net(Prefix(r.end, r.bits), r.bits);
    PrefixOf(r.end, r.bits);
    ParseLabel(net);
    ParseRendered(n);
    SpanPrefix(r, n);
    To4V4(V4(n), n);
  }

  /** Where a range stops: at its end if that lies above its start in the same subnet, else at
      the last address of the start's subnet. */
  lemma LastIs(r: Range)
    requires r.Valid()
    ensures r.start <= r.end && r.SameSubnet() ==> r.Last() == r.end
    ensures !(r.start <= r.end && r.SameSubnet()) ==>
      && Prefix(r.Last(), r.bits) == Prefix(r.start, r.bits)
      && (r.Last() + 1 == IPV4_COUNT || Prefix(r.Last() + 1, r.bits) != Prefix(r.start, r.bits))
  {
    hide Prefix, Size;
    PrefixEnd(r.Home());
    PrefixInterval(r.Home(), r.start);
    PrefixInterval(r.Home(), r.Last());
    PrefixInterval(r.Home(), r.Last() + 1);
  }

  predicate Avoids(slots: seq<Slot>, r: Range)
    requires r.Valid()
  {
    forall i, n :: 0 <= i < |slots| && r.start <= n <= r.Last() ==> slots[i].ip != Render(n)
  }

  predicate Disjoint(r: Range, s: Range)
    requires r.Valid() && s.Valid()
  {
    r.Last() < s.start || s.Last() < r.start
  }

  /** The slots one range adds. */
  function Span(r: Range): (s: seq<Slot>)
    requires r.Valid()
  {
    FreshSlots(Texts(r.start, r.Last() + 1), r.Name())
  }

  function FreshSlots(ips: seq<string>, cidr: string): (s: seq<Slot>)
    ensures |s| == |ips| && forall i :: 0 <= i < |s| ==> s[i] == Slot(ips[i], cidr)
  {
    seq(|ips|, i requires 0 <= i < |ips| => Slot(ips[i], cidr))
  }

  lemma SpanIs(r: Range)
    requires r.Valid()
    ensures |Span(r)| == r.Last() + 1 - r.start
    ensures forall i :: 0 <= i < |Span(r)| ==> Span(r)[i] == Slot(Render(r.start + i), r.Name())
  {
    hide Render, Label, LastAddress, Prefix;
  }

  lemma InsertedSlots(t: Tables, ips: seq<string>, cidr: string)
    ensures Slots(Inserted(t, ips, cidr).rows) == Slots(t.rows) + FreshSlots(ips, cidr)
  {
  }

  lemma LoadedSlots(r: Range, core: Core)
    requires r.Valid()
    ensures Slots(Loaded(r, core).tables.rows) == Slots(core.tables.rows) + Span(r)
  {
    hide Slots, FreshSlots, Inserted, Texts, Label, LastAddress, Prefix;
    InsertedSlots(core.tables, Texts(r.start, r.Last() + 1), r.Name());
  }

  lemma SpanDistinct(r: Range)
    requires r.Valid()
    ensures DistinctSlots(Span(r))
  {
    hide Render, Label, LastAddress, Prefix, Span;
    SpanIs(r);
    forall i, j | 0 <= i < j < |Span(r)| ensures Span(r)[i].ip != Span(r)[j].ip {
      RenderInjective(r.start + i, r.start + j);
    }
  }

  lemma DistinctConcat(a: seq<Slot>, r: Range)
    requires r.Valid()
    ensures DistinctSlots(a + Span(r)) <==> DistinctSlots(a) && Avoids(a, r)
  {
    hide Render, Label, LastAddress, Prefix, Span;
    var b := Span(r);
    SpanIs(r);
    SpanDistinct(r);
    var all := a + b;
    assert forall i :: 0 <= i < |a| ==> all[i] == a[i];
    assert forall j :: 0 <= j < |b| ==> all[|a| + j] == b[j];
    if DistinctSlots(all) {
      forall i, n | 0 <= i < |a| && r.start <= n <= r.Last() ensures a[i].ip != Render(n) {
        assert all[|a| + (n - r.start)] == b[n - r.start];
        assert b[n - r.start].ip == Render(r.start + (n - r.start));
      }
    }
    if DistinctSlots(a) && Avoids(a, r) {
      forall i, j | 0 <= i < j < |all| ensures all[i].ip != all[j].ip {
        if j >= |a| {
          assert all[j] == b[j - |a|];
          if i >= |a| { assert all[i] == b[i - |a|]; }
        }
      }
    }
  }

  lemma SpanUsable(r: Range, cidrs: set<string>)
    requires r.Valid() && r.Name() in cidrs
    ensures (forall i :: 0 <= i < |Span(r)| ==> Usable(cidrs, Span(r)[i])) <==> r.SameSubnet()
  {
    hide Render, ParseCIDR, ParseIP, Label, LastAddress, InPrefix, IsIPv4Addr, Prefix, Span;
    SpanIs(r);
    forall i | 0 <= i < |Span(r)| ensures Usable(cidrs, Span(r)[i]) <==> r.SameSubnet() {
      NameHoldsIff(r, r.start + i);
    }
    assert Usable(cidrs, Span(r)[0]) <==> r.SameSubnet();
  }

  lemma LoadedSaneIff(r: Range, core: Core)
    requires r.Valid()
    requires forall slot :: slot in Slots(core.tables.rows) ==> slot.cidr in core.cidrs
    ensures Sane(Loaded(r, core)) <==> Sane(core) && r.SameSubnet() && Avoids(Slots(core.tables.rows), r)
    ensures forall slot :: slot in Slots(Loaded(r, core).tables.rows) ==> slot.cidr in Loaded(r, core).cidrs
  {
    hide Render, ParseCIDR, ParseIP, Label, LastAddress, InPrefix, IsIPv4Addr, Prefix, Texts, DistinctSlots, Avoids,
         Span;
    SpanIs(r);
    var a, b := Slots(core.tables.rows), Span(r);
    LoadedSlots(r, core);
    DistinctConcat(a, r);
    var cidrs1 := core.cidrs + {r.Name()};
    SpanUsable(r, cidrs1);
    var all := a + b;
    assert forall i :: 0 <= i < |a| ==> all[i] == a[i] && a[i] in a;
    assert forall j :: 0 <= j < |b| ==> all[|a| + j] == b[j];
    assert forall i :: 0 <= i < |a| ==> (Usable(cidrs1, a[i]) <==> Usable(core.cidrs, a[i]));
    assert forall i :: |a| <= i < |all| ==> all[i] == b[i - |a|];
  }

  lemma AvoidsConcat(a: seq<Slot>, r: Range, s: Range)
    requires r.Valid() && s.Valid()
    ensures Avoids(a + Span(r), s) <==> Avoids(a, s) && Disjoint(r, s)
  {
    hide Render, Label, LastAddress, Prefix, Span;
    SpanIs(r);
    var b := Span(r);
    var all := a + b;
    assert forall i :: 0 <= i < |a| ==> all[i] == a[i];
    assert forall j :: 0 <= j < |b| ==> all[|a| + j] == b[j];
    if !Disjoint(r, s) {
      var n := if r.start <= s.start then s.start else r.start;
      assert all[|a| + (n - r.start)].ip == Render(r.start + (n - r.start));
      assert !Avoids(all, s);
    }
    if Avoids(a, s) && Disjoint(r, s) {
      forall i, n | 0 <= i < |all| && s.start <= n <= s.Last() ensures all[i].ip != Render(n) {
        if i >= |a| {
          assert all[i].ip == Render(r.start + (i - |a|));
          RenderInjective(r.start + (i - |a|), n);
        }
      }
    }
  }

  ghost predicate Clean(rs: seq<Range>)
    requires Valids(rs)
  {
    && (forall i :: 0 <= i < |rs| ==> rs[i].SameSubnet())
    && (forall i, j :: 0 <= i < j < |rs| ==> Disjoint(rs[i], rs[j]))
  }

  lemma {:induction false} LoadedAllSaneIff(rs: seq<Range>, core: Core)
    requires Valids(rs)
    requires forall slot :: slot in Slots(core.tables.rows) ==> slot.cidr in core.cidrs
    ensures Sane(LoadedAll(rs, core))
       <==> Sane(core) && Clean(rs) && forall i :: 0 <= i < |rs| ==> Avoids(Slots(core.tables.rows), rs[i])
    decreases |rs|
  {
    hide Avoids, Loaded, Sane, Disjoint;
    if rs != [] {
      var r, rest := rs[0], rs[1..];
      var core1 := Loaded(r, core);
      LoadedSaneIff(r, core);
      LoadedAllSaneIff(rest, core1);
      LoadedSlots(r, core);
      forall i | 0 <= i < |rest|
        ensures Avoids(Slots(core1.tables.rows), rest[i])
           <==> Avoids(Slots(core.tables.rows), rs[i + 1]) && Disjoint(rs[0], rs[i + 1])
      {
        AvoidsConcat(Slots(core.tables.rows), r, rest[i]);
      }
      CleanCons(rs);
      assert forall i :: 0 < i < |rs| ==> rs[i] == rest[i - 1];
    }
  }

  lemma CleanCons(rs: seq<Range>)
    requires Valids(rs) && rs != []
    ensures Clean(rs) <==>
      rs[0].SameSubnet() && Clean(rs[1..]) && forall i :: 0 < i < |rs| ==> Disjoint(rs[0], rs[i])
  {
  }

  predicate Labelled(core: Core) { forall slot :: slot in Slots(core.tables.rows) ==> slot.cidr in core.cidrs }

  lemma {:induction false} LoadedAllLabelled(rs: seq<Range>, core: Core)
    requires Valids(rs) && Labelled(core)
    ensures Labelled(LoadedAll(rs, core))
    decreases |rs|
  {
    hide Loaded, Sane;
    if rs != [] {
      LoadedSaneIff(rs[0], core);
      LoadedAllLabelled(rs[1..], Loaded(rs[0], core));
    }
  }

  lemma SpareLabels(core: Core, clean: Core)
    requires core.tables == clean.tables && clean.cidrs <= core.cidrs && Labelled(clean)
    ensures Sane(core) <==> Sane(clean)
  {
    hide InPrefix, IsIPv4Addr;
    var slots := Slots(core.tables.rows);
    forall i | 0 <= i < |slots| ensures Usable(core.cidrs, slots[i]) <==> Usable(clean.cidrs, slots[i]) {
      assert slots[i] in slots;
    }
  }

  lemma {:induction false} LoadedAllFresh(rs: seq<Range>, core: Core)
    requires Valids(rs)
    requires core.tables.records == [] && forall row :: row in core.tables.rows ==> row.status == Available
    ensures var t := LoadedAll(rs, core).tables;
      t.records == [] && forall row :: row in t.rows ==> row.status == Available
    decreases |rs|
  {
    hide Render, Label, LastAddress, Texts;
    if rs != [] {
      LoadedAllFresh(rs[1..], Loaded(rs[0], core));
    }
  }

  /** The provider built from any configuration text without IPv6 ranges starts consistent
      exactly when every range the text stands for has both ends in one subnet and no two
      overlap. */
  lemma ConfigConsistentIff(text: string)
    requires text != ""
    ensures Consistent(LoadAll(Entries(text), Core({}, EMPTY))) <==> Clean(RangesOf(Entries(text)))
    ensures var t := LoadAll(Entries(text), Core({}, EMPTY)).tables;
      t.records == [] && forall row :: row in t.rows ==> row.status == Available
  {
    hide LoadAll, Entries, Clean, Usable, Avoids, LoadedAll, Matched, RangesOf;
    var empty, rs := Core({}, EMPTY), RangesOf(Entries(text));
    var core, clean := LoadAll(Entries(text), empty), LoadedAll(rs, empty);
    LoadAllParsed(Entries(text), empty, empty);
    LoadedAllLabelled(rs, empty);
    SpareLabels(core, clean);
    LoadedAllSaneIff(rs, empty);
    LoadedAllFresh(rs, empty);
    assert Sane(empty);
    forall i | 0 <= i < |rs| ensures Avoids([], rs[i]) { AvoidsNothing(rs[i]); }
    if Sane(core) {
      SaneMatched(core);
    }
  }

  lemma AvoidsNothing(r: Range)
    requires r.Valid()
    ensures Avoids([], r)
  {
  }

  lemma SaneMatched(core: Core)
    requires Sane(core) && core.tables.records == []
    requires forall row :: row in core.tables.rows ==> row.status == Available
    ensures Matched(core.tables)
  {
    hide ParseIPv4, InPrefix;
    var rows := core.tables.rows;
    forall i | 0 <= i < |rows| ensures rows[i].ip != "" && rows[i].status == Available {
      assert Usable(core.cidrs, Slots(rows)[i]);
      assert rows[i] in rows;
    }
  }

  /** Replaying an address of a range whose ends lie in different subnets is always refused,
      although first fit hands such addresses out under the same name. */
  lemma ReplayRefusedAcrossSubnets(r: Range, core: Core, n: nat)
    requires r.Valid() && !r.SameSubnet() && r.start <= n <= r.Last()
    ensures AllocateAt(core, r.Name(), Render(n)) == (core, false)
    ensures NextAddr(Loaded(r, Core({}, EMPTY)), r.Name()).1 == Render(r.start)
  {
    hide Render, ParseCIDR, ParseIP, Label, LastAddress, InPrefix, Prefix;
    NameHoldsIff(r, n);
    var rows := Loaded(r, Core({}, EMPTY)).tables.rows;
    assert rows[0] == Row(Render(r.start), Available, r.Name());
  }

  // ---------------------------------------------------------------- order

  lemma {:induction false} LoadedAscending(rs: seq<Range>, core: Core, cidr: string)
    requires Valids(rs)
    requires Laws.Ascending(Slots(core.tables.rows), cidr)
    requires forall i :: 0 <= i < |rs| ==> rs[i].Name() != cidr
    ensures Laws.Ascending(Slots(LoadedAll(rs, core).tables.rows), cidr)
    decreases |rs|
  {
    hide Render, Label, LastAddress, Prefix, ParseIP, Texts, Span;
    if rs != [] {
      SpanIs(rs[0]);
      LoadedSlots(rs[0], core);
      LoadedAscending(rs[1..], Loaded(rs[0], core), cidr);
    }
  }

  lemma FillAscending(r: Range, core: Core)
    requires r.Valid()
    requires forall slot :: slot in Slots(core.tables.rows) ==> slot.cidr != r.Name()
    ensures Laws.Ascending(Slots(Loaded(r, core).tables.rows), r.Name())
  {
    hide Render, Label, LastAddress, Prefix, ParseIP, Texts, Span;
    SpanIs(r);
    LoadedSlots(r, core);
    var a, b := Slots(core.tables.rows), Span(r);
    var all := a + b;
    assert forall i :: 0 <= i < |a| ==> all[i] == a[i] && a[i] in a;
    forall i | |a| <= i < |all| ensures ParseIP(all[i].ip) == Some(r.start + (i - |a|)) {
      ParseRendered(r.start + (i - |a|));
    }
  }

  /** A CIDR named by exactly one of the configured ranges is filled in ascending order. */
  lemma {:induction false} OneRangeAscending(rs: seq<Range>, core: Core, k: nat)
    requires Valids(rs) && k < |rs|
    requires forall i :: 0 <= i < |rs| && i != k ==> rs[i].Name() != rs[k].Name()
    requires forall slot :: slot in Slots(core.tables.rows) ==> slot.cidr != rs[k].Name()
    ensures Laws.Ascending(Slots(LoadedAll(rs, core).tables.rows), rs[k].Name())
    decreases |rs|
  {
    hide Render, Label, LastAddress, Prefix, ParseIP, Texts, Laws.Ascending, Span;
    SpanIs(rs[0]);
    LoadedSlots(rs[0], core);
    var core1 := Loaded(rs[0], core);
    assert forall i :: 0 <= i < |rs[1..]| ==> rs[1..][i] == rs[i + 1];
    if k == 0 {
      FillAscending(rs[0], core);
      LoadedAscending(rs[1..], core1, rs[0].Name());
    } else {
      assert rs[1..][k - 1] == rs[k];
      OneRangeAscending(rs[1..], core1, k - 1);
    }
  }

  /** From configuration to allocation: with clean ranges and a CIDR that one of them names
      alone, whatever requests came before, a new host is refused only when no address of that
      CIDR is free and otherwise gets the numerically smallest free one. */
  lemma ConfiguredFirstFit(text: string, k: nat, reqs: seq<Controller.Request>, req: Controller.Request)
    requires text != ""
    requires var rs := RangesOf(Entries(text));
      && Clean(rs) && k < |rs| && (forall i :: 0 <= i < |rs| && i != k ==> rs[i].Name() != rs[k].Name())
      && Laws.PlainCreate(req) && req.cidr == rs[k].Name()
    ensures var later := Controller.HandleAll(LoadAll(Entries(text), Core({}, EMPTY)), reqs).0;
      var (p, r) := (Abs(later.tables), Controller.Handle(later, req).1);
      LeastIp(later.tables.records, req.host) == "" ==>
        && (r.None? <==> FreeIps(p, req.cidr) == {})
        && (r.Some? ==>
              && r.value.ip in FreeIps(p, req.cidr) && ParseIP(r.value.ip).Some?
              && forall x :: x in FreeIps(p, req.cidr) ==>
                   ParseIP(x).Some? && ParseIP(r.value.ip).value <= ParseIP(x).value)
  {
    hide LoadAll, Entries, Clean, Consistent, Laws.Ascending, Controller.HandleAll, Controller.Handle, ParseIP,
         RangesOf, LoadedAll;
    var empty, rs := Core({}, EMPTY), RangesOf(Entries(text));
    ConfigConsistentIff(text);
    LoadAllParsed(Entries(text), empty, empty);
    OneRangeAscending(rs, empty, k);
    Laws.FirstFitIsLeast(LoadAll(Entries(text), empty), reqs, req);
  }

  // ---------------------------------------------------------------- asking by network

  /** The range's rows are named after the network, and n is one of its addresses. */
  predicate Covers(r: Range, net: Net, n: nat) {
    r.Valid() && r.bits == net.bits && Prefix(r.end, r.bits) == net.base && r.start <= n <= r.Last()
  }

  lemma NameIs(r: Range, net: Net)
    requires r.Valid() && net.Valid()
    ensures r.Name() == Label(net) <==> r.bits == net.bits && Prefix(r.end, r.bits) == net.base
  {
    hide Label;
    PrefixOf(r.end, r.bits);
    LabelInjective(Net(Prefix(r.end, r.bits), r.bits), net);
  }

  lemma SpanSlot(r: Range, slot: Slot)
    requires r.Valid()
    ensures slot in Span(r) <==> exists n :: r.start <= n <= r.Last() && slot == Slot(Render(n), r.Name())
  {
    hide Render, Label, LastAddress, Prefix, Span;
    SpanIs(r);
    if n :| r.start <= n <= r.Last() && slot == Slot(Render(n), r.Name()) {
      assert Span(r)[n - r.start] == Slot(Render(r.start + (n - r.start)), r.Name());
    }
    if slot in Span(r) {
      var i :| 0 <= i < |Span(r)| && Span(r)[i] == slot;
      assert r.start <= r.start + i <= r.Last() && slot == Slot(Render(r.start + i), r.Name());
    }
  }

  predicate FromRange(rs: seq<Range>, slot: Slot)
    requires Valids(rs)
  {
    exists i :: 0 <= i < |rs| && rs[i] in rs && slot in Span(rs[i])
  }

  /** Every slot comes from a range, and every address of a range has its slot. */
  lemma {:induction false} LoadedAllSlots(rs: seq<Range>, core: Core, slot: Slot)
    requires Valids(rs)
    ensures slot in Slots(LoadedAll(rs, core).tables.rows) <==> slot in Slots(core.tables.rows) || FromRange(rs, slot)
    decreases |rs|
  {
    hide Loaded, Span;
    if rs != [] {
      var r, rest := rs[0], rs[1..];
      assert forall x :: x in rest ==> x in rs;
      assert forall i :: 0 <= i < |rest| ==> rest[i] == rs[i + 1];
      assert forall i :: 0 < i < |rs| ==> rs[i] == rest[i - 1];
      LoadedSlots(r, core);
      LoadedAllSlots(rest, Loaded(r, core), slot);
      if FromRange(rest, slot) {
        var i :| 0 <= i < |rest| && rest[i] in rest && slot in Span(rest[i]);
        assert rs[i + 1] in rs && slot in Span(rs[i + 1]);
      }
      if FromRange(rs, slot) {
        var i :| 0 <= i < |rs| && rs[i] in rs && slot in Span(rs[i]);
        if i > 0 { assert rest[i - 1] in rest && slot in Span(rest[i - 1]); }
      }
    }
  }

  predicate AnyCovers(rs: seq<Range>, net: Net, n: nat) { exists r :: r in rs && Covers(r, net, n) }

  /** A free address of the network among the configured ranges. */
  predicate FreeIn(rs: seq<Range>, net: Net, rows: seq<Row>, cidr: string, n: nat) {
    n < IPV4_COUNT && AnyCovers(rs, net, n) && Row(Render(n), Available, cidr) in rows
  }

  lemma SlotCovers(rs: seq<Range>, net: Net, slot: Slot) returns (n: nat)
    requires Valids(rs) && net.Valid() && slot.cidr == Label(net) && FromRange(rs, slot)
    ensures n < IPV4_COUNT && slot.ip == Render(n) && AnyCovers(rs, net, n)
  {
    hide Render, Label, LastAddress, Prefix, Span, Covers;
    var i :| 0 <= i < |rs| && rs[i] in rs && slot in Span(rs[i]);
    n := SpanCovers(rs[i], net, slot);
    assert Covers(rs[i], net, n);
  }

  lemma SpanCovers(r: Range, net: Net, slot: Slot) returns (n: nat)
    requires r.Valid() && net.Valid() && slot.cidr == Label(net) && slot in Span(r)
    ensures n < IPV4_COUNT && slot.ip == Render(n) && Covers(r, net, n)
  {
    hide Render, Label, LastAddress, Prefix, Span;
    SpanSlot(r, slot);
    n :| r.start <= n <= r.Last() && slot == Slot(Render(n), r.Name());
    NameIs(r, net);
  }

  /** From configuration to allocation by the network's own text: after any requests, a new
      host that asks for "base/length" of a network is answered exactly when some address that
      the ranges of that network contribute is available, and with such an address. */
  lemma NetworkCreate(text: string, net: Net, reqs: seq<Controller.Request>, req: Controller.Request)
    requires text != "" && net.Valid() && Clean(RangesOf(Entries(text)))
    requires Laws.PlainCreate(req) && req.cidr == Render(net.base) + "/" + Itoa(net.bits)
    ensures var later := Controller.HandleAll(LoadAll(Entries(text), Core({}, EMPTY)), reqs).0;
      var (rs, rows, r) := (RangesOf(Entries(text)), later.tables.rows, Controller.Handle(later, req).1);
      LeastIp(later.tables.records, req.host) == "" ==>
        && (r.Some? <==> exists n: nat :: FreeIn(rs, net, rows, req.cidr, n))
        && (r.Some? ==> r.value.ok && exists n: nat :: FreeIn(rs, net, rows, req.cidr, n) && r.value.ip == Render(n))
  {
    hide LoadAll, Entries, Clean, Consistent, Controller.HandleAll, Controller.Handle, RangesOf, LoadedAll, Render,
         Itoa, AnyCovers, Matched, LeastIp, NextIp, FreeIps, FromRange;
    var empty, rs := Core({}, EMPTY), RangesOf(Entries(text));
    var core := LoadAll(Entries(text), empty);
    ConfigConsistentIff(text);
    LoadAllParsed(Entries(text), empty, empty);
    HandleAllRefines(core, reqs);
    Laws.RowsConserved(core, reqs);
    var later := Controller.HandleAll(core, reqs).0;
    var p, rows, r := Abs(later.tables), later.tables.rows, Controller.Handle(later, req).1;
    Laws.ConsistentMatched(later);
    HandleRefines(later, req);
    LeastIpIsLeast(later.tables, req.host);
    if LeastIp(later.tables.records, req.host) == "" {
      if r.Some? {
        Laws.NextIpOpen(p, req.cidr);
        Laws.FreeIpsIn(p, req.cidr, r.value.ip);
        var slot := Slot(r.value.ip, req.cidr);
        LoadedAllSlots(rs, empty, slot);
        assert slot.cidr == Label(net);
        var n := SlotCovers(rs, net, slot);
        Laws.FreeIsRow(later.tables, slot.ip, req.cidr);
        assert FreeIn(rs, net, rows, req.cidr, n);
      }
      if n: nat :| FreeIn(rs, net, rows, req.cidr, n) {
        RowIsFree(later.tables, Render(n), req.cidr);
        NoneFree(p, req.cidr);
      }
    }
  }

  lemma RowIsFree(t: Tables, ip: string, cidr: string)
    requires Matched(t) && Row(ip, Available, cidr) in t.rows
    ensures ip in FreeIps(Abs(t), cidr)
  {
    var i :| 0 <= i < |t.rows| && t.rows[i] == Row(ip, Available, cidr);
    FreeIsOpen(t, i, cidr);
    assert Slots(t.rows)[i].ip == ip;
  }

  lemma NoneFree(p: Pool, cidr: string)
    ensures NextIp(p, cidr).None? ==> FreeIps(p, cidr) == {}
  {
  }
}
