/** One configuration from its text to the first address handed out, in plain texts. */
module Examples {
  import opened Wrappers
  import opened Text
  import opened Ip
  import opened Store
  import opened Provider
  import opened Controller
  import opened Ranges

  const TEXT := "172.16.1.1/24-172.16.1.5/24"
  const NETWORK := "172.16.1.0/24"

  /** The store that text configures. */
  function Configured(): Core {
    Core({NETWORK}, Tables([
      Row("172.16.1.1", Available, NETWORK), Row("172.16.1.2", Available, NETWORK),
      Row("172.16.1.3", Available, NETWORK), Row("172.16.1.4", Available, NETWORK),
      Row("172.16.1.5", Available, NETWORK)], []))
  }

  lemma Address(i: nat)
    requires i < 10
    ensures Render(0xAC100100 + i) == "172.16.1." + "0123456789"[i..i + 1]
  {
    hide Itoa;
    OctetExamples();
    var o: seq<byte> := [172, 16, 1, i];
    assert Octets(0xAC100100 + i) == o;
    assert o[1..] == [16, 1, i];
    DottedThree(16, 1, i);
    OneDigit(i);
  }

  lemma OneDigit(i: nat)
    requires i < 10
    ensures Itoa(i) == "0123456789"[i..i + 1]
  {
    DigitIs(i);
  }

  lemma LengthText()
    ensures Itoa(24) == "24"
  {
    assert Itoa(2) == "2";
  }

  lemma Shape()
    ensures var r := Range(0xAC100101, 0xAC100105, 24);
      r.Valid() && Entry(r) == TEXT && r.Name() == NETWORK && r.Last() == 0xAC100105
  {
    hide Render, Itoa, Size;
    var r := Range(0xAC100101, 0xAC100105, 24);
    Address(0);
    Address(1);
    Address(5);
    LengthText();
    assert Entry(r) == TEXT;
    Network(1);
    Network(5);
    LastIs(r);
  }

  lemma Network(i: nat)
    requires i < 10
    ensures Prefix(0xAC100100 + i, 24) == 0xAC100100
  {
    PrefixRounds(0xAC100100 + i, 24);
    assert Size(24) == 256;
  }

  lemma Listed()
    ensures Texts(0xAC100101, 0xAC100106)
         == ["172.16.1.1", "172.16.1.2", "172.16.1.3", "172.16.1.4", "172.16.1.5"]
  {
    hide Render;
    Address(1);
    Address(2);
    Address(3);
    Address(4);
    Address(5);
    var t := Texts(0xAC100101, 0xAC100106);
    assert t[0] == "172.16.1.1" && t[1] == "172.16.1.2" && t[2] == "172.16.1.3";
    assert t[3] == "172.16.1.4" && t[4] == "172.16.1.5";
  }

  lemma Undressed(r: Range)
    requires r.Valid()
    ensures var none := Padding(0, 0, 0, 0);
      && ConfigText([r], [none]) == Entry(r) && QuotedAll([r], [none]) == [Entry(r)]
  {
    hide Entry;
    var none := Padding(0, 0, 0, 0);
    assert Quoted(r, none) == Entry(r) && Padded(r, none) == Entry(r);
    assert PaddedAll([r], [none]) == [Entry(r)];
  }

  lemma OneEntry()
    ensures Entries(TEXT) == [TEXT]
  {
    hide Entry, Entries, ConfigText, QuotedAll, RangesOf;
    Shape();
    var r, none := Range(0xAC100101, 0xAC100105, 24), Padding(0, 0, 0, 0);
    Undressed(r);
    ConfigRoundTrip([r], [none]);
    SameEntries(ConfigText([r], [none]), TEXT);
    assert Entries(TEXT) == [TEXT];
  }

  lemma SameEntries(x: string, y: string)
    requires x != "" && x == y
    ensures Entries(x) == Entries(y)
  {
  }

  lemma LoadOne(entry: string, core: Core)
    ensures LoadAll([entry], core) == LoadEntry(entry, core)
  {
    hide LoadEntry;
    assert [entry][1..] == [];
  }

  lemma FiveRows()
    ensures FreshRows(["172.16.1.1", "172.16.1.2", "172.16.1.3", "172.16.1.4", "172.16.1.5"], NETWORK)
         == Configured().tables.rows
  {
  }

  /** Loading the text gives these five rows, under the network's label. */
  lemma Loads()
    ensures LoadAll(Entries(TEXT), Core({}, EMPTY)) == Configured()
  {
    hide Entry, LoadEntry, LoadAll, Texts, Entries, FreshRows, Range.Name, Range.Last, Render, Prefix;
    var r, empty := Range(0xAC100101, 0xAC100105, 24), Core({}, EMPTY);
    Shape();
    OneEntry();
    LoadOne(TEXT, empty);
    LoadEntryIs(r, empty);
    Listed();
    FiveRows();
    assert [] + Configured().tables.rows == Configured().tables.rows;
    assert {} + {NETWORK} == {NETWORK};
  }

  /** The first host to ask for the network gets its first address. */
  lemma FirstCreate(h: string)
    ensures var req := Request(h, NETWORK, "", Create);
      Handle(LoadAll(Entries(TEXT), Core({}, EMPTY)), req).1 == Some(Response(req, "172.16.1.1", true))
  {
    hide LoadAll, Entries, ParseCIDR, Manager.IsIPv4Addr;
    Loads();
    var net := Net(0xAC100100, 24);
    Network(0);
    ParseLabel(net);
    Address(0);
    LengthText();
    assert Label(net) == NETWORK;
  }

  lemma ThreeHundred()
    ensures AllDigits("300") && Number("300") == 300
  {
    assert "300"[..2] == "30" && "30"[..1] == "3" && "3"[..0] == "";
    assert Number("3") == 3 && Number("30") == 30;
  }

  lemma FourPieces()
    ensures Split("10.0.0.300", '.') == ["10", "0", "0", "300"]
  {
    hide Split, Join;
    var p := ["10", "0", "0", "300"];
    JoinFour("10", "0", "0", "300");
    assert "10" + ['.'] + "0" + ['.'] + "0" + ['.'] + "300" == "10.0.0.300";
    SplitJoin(p, '.');
  }

  lemma NotAnAddress()
    ensures ParseIPv4("10.0.0.300") == None
  {
    hide ParseIPv4, Split, Number;
    FourPieces();
    ThreeHundred();
    assert !OctetText("300");
    if n :| ParseIPv4("10.0.0.300") == Some(n) {
      ParseIPv4Iff("10.0.0.300", n);
    }
  }

  lemma Pieces(x: string, a: string, m: string, b: string, k: string)
    requires x == a + "/" + m + "-" + (b + "/" + k) && Bare(x, '"')
    requires Fields(RangeText(a, b, m)) && '-' !in k && '/' !in k
    ensures RangeOf(x).Some? <==> m == k && MaskText(m) && IsQuad(a) && IsQuad(b)
  {
    hide RangeOf, ParseIPv4, Trim, MaskText, IsQuad;
    TrimPadded("", x, "", '"');
    assert "" + x + "" == x;
    TwoEndsIff(x, a, m, b, k);
  }

  lemma SkippedMasks()
    ensures RangeOf("172.16.1.1/24-172.16.1.5/16") == None
  {
    hide RangeOf, MaskText, IsQuad;
    var x := "172.16.1.1/24-172.16.1.5/16";
    assert x == "172.16.1.1" + "/" + "24" + "-" + ("172.16.1.5" + "/" + "16");
    Pieces(x, "172.16.1.1", "24", "172.16.1.5", "16");
    assert "24"[0] != "16"[0];
  }

  lemma SkippedOctet()
    ensures RangeOf("10.0.0.250/24-10.0.0.300/24") == None
  {
    hide RangeOf, MaskText, ParseIPv4;
    var x := "10.0.0.250/24-10.0.0.300/24";
    NotAnAddress();
    assert x == "10.0.0.250" + "/" + "24" + "-" + ("10.0.0.300" + "/" + "24");
    Pieces(x, "10.0.0.250", "24", "10.0.0.300", "24");
  }

  /** Entries the loader skips: two different masks, and an octet over 255. */
  lemma Skipped()
    ensures RangeOf("172.16.1.1/24-172.16.1.5/16") == None
    ensures RangeOf("10.0.0.250/24-10.0.0.300/24") == None
  {
    hide RangeOf;
    SkippedMasks();
    SkippedOctet();
  }
}
