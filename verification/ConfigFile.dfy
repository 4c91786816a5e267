/** Reading and writing the configuration file, and the round trip between the two. */
module ConfigFile {
  import opened Options
  import opened Text
  import opened Config

  // ------------------------------------------------ IPv4 addresses

  const ADDRESSES: nat := 0x1_0000_0000

  function PrintIp(v: nat): string
    requires v < ADDRESSES
  {
    Decimal(v / 0x100_0000) + "." + (Decimal(v / 0x1_0000 % 256) + "." + (Decimal(v / 0x100 % 256) + "." + Decimal(v % 256)))
  }

  /** The parts of a text between its dots. */
  function Parts(s: string): (r: seq<string>)
    ensures |r| >= 1
    decreases |s|
  {
    var i := IndexOf(s, '.');
    if i == |s| then [s] else [s[..i]] + Parts(s[i + 1..])
  }

  predicate IsOctet(s: string) {
    && s != "" && (forall i :: 0 <= i < |s| ==> IsDigit(s[i]))
    && (s[0] == '0' ==> |s| == 1) && DecimalValue(s) < 256
  }

  /** A dotted quad; anything else reads as 0. */
  function ParseIp(s: string): (v: nat)
    ensures v < ADDRESSES
  {
    var p := Parts(s);
    if |p| == 4 && IsOctet(p[0]) && IsOctet(p[1]) && IsOctet(p[2]) && IsOctet(p[3]) then
      ((DecimalValue(p[0]) * 256 + DecimalValue(p[1])) * 256 + DecimalValue(p[2])) * 256 + DecimalValue(p[3])
    else 0
  }

  lemma DecimalHasNo(n: nat, c: char)
    requires !IsDigit(c)
    ensures c !in Decimal(n)
  {}

  lemma DecimalIsOctet(n: nat)
    requires n < 256
    ensures IsOctet(Decimal(n)) && DecimalValue(Decimal(n)) == n && '.' !in Decimal(n)
  {
    hide Decimal, DecimalValue;
    DecimalInverse(n);
    DecimalHasNo(n, '.');
  }

  lemma PartsFirst(a: string, b: string)
    requires '.' !in a
    ensures Parts(a + "." + b) == [a] + Parts(b)
  {
    IndexOfAfter(a, '.', b);
    var s := a + "." + b;
    assert s[..|a|] == a && s[|a| + 1..] == b;
  }

  lemma PartsLast(a: string)
    requires '.' !in a
    ensures Parts(a) == [a]
  {}

  lemma Quad(v: nat)
    ensures ((v / 0x100_0000 * 256 + v / 0x1_0000 % 256) * 256 + v / 0x100 % 256) * 256 + v % 256 == v
  {
    assert v / 0x100 == 256 * (v / 0x100 / 256) + v / 0x100 % 256;
    assert v / 0x100 / 256 == v / 0x1_0000 && v / 0x1_0000 / 256 == v / 0x100_0000;
  }

  /** Printed addresses read back. */
  lemma PrintIpInverse(v: nat)
    requires v < ADDRESSES
    ensures ParseIp(PrintIp(v)) == v
  {
    hide Decimal, DecimalValue, Parts, IsOctet;
    var a, b, c, d := v / 0x100_0000, v / 0x1_0000 % 256, v / 0x100 % 256, v % 256;
    DecimalIsOctet(a); DecimalIsOctet(b); DecimalIsOctet(c); DecimalIsOctet(d);
    var cd := Decimal(c) + "." + Decimal(d);
    var bcd := Decimal(b) + "." + cd;
    PartsFirst(Decimal(a), bcd);
    PartsFirst(Decimal(b), cd);
    PartsFirst(Decimal(c), Decimal(d));
    PartsLast(Decimal(d));
    assert Parts(PrintIp(v)) == [Decimal(a), Decimal(b), Decimal(c), Decimal(d)];
    Quad(v);
  }

  /** inet_aton, as a library function the settings are read with: 0 for what it refuses. */
  type Aton = string -> nat

  /** All that is asked of it: what inet_ntoa prints is read back. */
  ghost predicate ReadsPrinted(aton: Aton) { forall v :: 0 <= v < ADDRESSES ==> aton(PrintIp(v)) == v }

  /** The plain reader of dotted quads is such a function. */
  lemma QuadsReadPrinted()
    ensures ReadsPrinted(ParseIp)
  {
    hide PrintIp, ParseIp;
    forall v | 0 <= v < ADDRESSES ensures ParseIp(PrintIp(v)) == v { PrintIpInverse(v); }
  }

  // ------------------------------------------------ one setting

  function ParseBand(v: string): Option<Band> {
    if v == "2.4" || v == "2" || v == "2g" || v == "2.4g" then Some(Band24)
    else if v == "5" || v == "5g" then Some(Band5)
    else if v == "both" || v == "all" then Some(Both)
    else None
  }

  function BandText(b: Band): string {
    match b case Band24 => "2.4" case Band5 => "5" case Both => "both"
  }

  function ParseMode(v: string): Option<Mode> {
    if v == "eth" || v == "ethernet" then Some(Eth)
    else if v == "scan" || v == "none" then Some(ScanOnly)
    else None
  }

  /** One setting; a bad one changes nothing. */
  function Apply(aton: Aton, c: Settings, key: string, val: string): Settings {
    if key == "ssid" || key == "network" then
      match AddNetwork(c.nets, val) case Some(ns) => c.(nets := ns) case None => c
    else if key == "password" || key == "pass" then
      var n := |c.nets|;
      if n == 0 then c else c.(nets := c.nets[n - 1 := c.nets[n - 1].(password := Take(val, PASSWORD_MAX))])
    else if key == "band" then match ParseBand(val) case Some(b) => c.(band := b) case None => c
    else if key == "mode" then match ParseMode(val) case Some(m) => c.(mode := m) case None => c
    else if key == "ip" then c.(ip := aton(val))
    else if key == "netmask" then c.(netmask := aton(val))
    else if key == "gateway" || key == "gw" then c.(gateway := aton(val))
    else if key == "dns" then c.(dns := aton(val))
    else c
  }

  /** Is the setting accepted? */
  predicate Accepts(c: Settings, key: string, val: string) {
    if key == "ssid" || key == "network" then AddNetwork(c.nets, val).Some?
    else if key == "password" || key == "pass" then c.nets != []
    else if key == "band" then ParseBand(val).Some?
    else if key == "mode" then ParseMode(val).Some?
    else key == "ip" || key == "netmask" || key == "gateway" || key == "gw" || key == "dns"
  }

  lemma ApplyNetwork(aton: Aton, c: Settings, v: string)
    ensures Apply(aton, c, "network", v) == c.(nets := if AddNetwork(c.nets, v).Some? then AddNetwork(c.nets, v).value else c.nets)
  {}

  lemma ApplyPassword(aton: Aton, c: Settings, v: string)
    requires c.nets != []
    ensures var n := |c.nets| - 1;
      Apply(aton, c, "password", v) == c.(nets := c.nets[n := c.nets[n].(password := Take(v, 63))])
  {}

  /** The list after a network line, which is refused when it is full. */
  function Added(nets: seq<Network>, ssid: string): (r: seq<Network>)
    ensures r != []
  {
    match AddNetwork(nets, ssid) case Some(ns) => ns case None => nets
  }

  /** Does a network line for this name leave the list as it is? */
  predicate Refused(nets: seq<Network>, ssid: string) { Has(nets, ssid) || |nets| >= 16 }

  lemma AddedIs(nets: seq<Network>, ssid: string)
    ensures Added(nets, ssid) == if Refused(nets, ssid) then nets else nets + [Network(Take(ssid, 32), "")]
  {}

  /** A network line followed by a password line. */
  function ApplyEntry(aton: Aton, c: Settings, ssid: string, pass: string): Settings {
    Apply(aton, Apply(aton, c, "network", ssid), "password", pass)
  }

  /** The list with the passphrase of its last entry replaced. */
  function WithLast(nets: seq<Network>, pass: string): seq<Network>
    requires nets != []
  {
    nets[|nets| - 1 := nets[|nets| - 1].(password := pass)]
  }

  lemma ApplyEntryNets(aton: Aton, c: Settings, ssid: string, pass: string)
    ensures ApplyEntry(aton, c, ssid, pass).nets == WithLast(Added(c.nets, ssid), Take(pass, 63))
  {
    hide Take, Apply, Find;
    ApplyNetwork(aton, c, ssid);
    ApplyPassword(aton, Apply(aton, c, "network", ssid), pass);
  }

  lemma WithLastAnswers(nets: seq<Network>, pass: string, s: string)
    requires nets != []
    ensures Lookup(WithLast(nets, pass), s) == if Find(nets, s) + 1 == |nets| then Some(pass) else Lookup(nets, s)
  {
    hide Find;
    SameFind(nets, WithLast(nets, pass), s);
  }

  lemma SameFind(a: seq<Network>, b: seq<Network>, s: string)
    requires |a| == |b| && forall k :: 0 <= k < |a| ==> a[k].ssid == b[k].ssid
    ensures Find(a, s) == Find(b, s)
  {
    hide Find;
    var i, j := Find(a, s), Find(b, s);
    assert i < |a| ==> b[i].ssid == s;
    assert j < |b| ==> a[j].ssid == s;
  }

  lemma FindAppended(nets: seq<Network>, n: Network, s: string)
    ensures Find(nets + [n], s) == if Has(nets, s) then Find(nets, s) else if n.ssid == s then |nets| else |nets| + 1
  {
    hide Find;
    var r := nets + [n];
    var i := Find(r, s);
    assert forall k :: 0 <= k < |nets| ==> r[k] == nets[k];
    assert r[|nets|] == n;
    if Has(nets, s) { assert r[Find(nets, s)].ssid == s; }
  }

  /** Is the entry that a password line overwrites the one the list answers with for this name? */
  predicate Hits(nets: seq<Network>, ssid: string, s: string) {
    if Refused(nets, ssid) then Find(nets, s) + 1 == |nets|
    else s == Take(ssid, 32) && !Has(nets, s)
  }

  /** What a network line and a password line do, to every list and for every name s: the passphrase
      of the last entry is overwritten, and no other answer changes. */
  lemma EntryAnswers(aton: Aton, c: Settings, ssid: string, pass: string, s: string)
    ensures Lookup(ApplyEntry(aton, c, ssid, pass).nets, s) ==
      if Hits(c.nets, ssid, s) then Some(Take(pass, 63)) else Lookup(c.nets, s)
  {
    hide Take, ApplyEntry, Find, AddNetwork;
    var ns := Added(c.nets, ssid);
    ApplyEntryNets(aton, c, ssid, pass);
    AddedIs(c.nets, ssid);
    WithLastAnswers(ns, Take(pass, 63), s);
    if !Refused(c.nets, ssid) {
      FindAppended(c.nets, Network(Take(ssid, 32), ""), s);
    }
  }

  /** The named network gets the passphrase if and only if it is saved last, or is new, fits its
      field and finds room (or had the passphrase already). A known or refused name leaves its own
      answer as it was and overwrites the last entry; a longer new name is stored cut. */
  lemma PasswordGoesToLast(aton: Aton, c: Settings, ssid: string, pass: string)
    ensures var given, after := Take(pass, 63), ApplyEntry(aton, c, ssid, pass).nets;
      && (Lookup(after, ssid) == Some(given) <==>
            (if Has(c.nets, ssid) then Find(c.nets, ssid) + 1 == |c.nets|
             else |c.nets| < 16 && |ssid| <= 32)
            || Lookup(c.nets, ssid) == Some(given))
      && (Refused(c.nets, ssid) ==> c.nets != [] && after == WithLast(c.nets, given))
      && (!Refused(c.nets, ssid) ==> after == c.nets + [Network(Take(ssid, 32), given)])
  {
    hide ApplyEntry, Find, AddNetwork;
    EntryAnswers(aton, c, ssid, pass, ssid);
    ApplyEntryNets(aton, c, ssid, pass);
    AddedIs(c.nets, ssid);
  }

  // ------------------------------------------------ lines

  function StripComment(line: string): string {
    var s := TrimLeft(line);
    if s != "" && s[0] == '#' then "" else line
  }

  const KEY_MAX: nat := 63
  const VALUE_MAX: nat := 255

  function SplitSetting(line: string): Option<(string, string)> {
    var l := StripComment(line);
    var eq := IndexOf(l, '=');
    if eq == |l| then None
    else
      var key := Trim(Take(l[..eq], KEY_MAX));
      if key == "" then None else Some((key, Trim(Take(l[eq + 1..], VALUE_MAX))))
  }

  function ApplyLine(aton: Aton, c: Settings, line: string): Settings {
    match SplitSetting(line)
    case Some(kv) => Apply(aton, c, kv.0, kv.1)
    case None => c
  }

  const LINE_MAX: nat := 511

  /** How much fgets takes: up to and including the line end, at most 511 bytes. */
  function LineLength(text: string): (n: nat)
    requires text != ""
    ensures 1 <= n <= |text|
  {
    var i := IndexOf(text, '\n');
    var n := if i < |text| then i + 1 else i;
    if n <= LINE_MAX then n else LINE_MAX
  }

  function Load(aton: Aton, c: Settings, text: string): Settings
    decreases |text|
  {
    if text == "" then c
    else
      var n := LineLength(text);
      Load(aton, ApplyLine(aton, c, text[..n]), text[n..])
  }

  // ------------------------------------------------ saving

  function NetworkLines(n: Network): seq<string> {
    ["network  = " + n.ssid] + (if n.password != "" then ["password = " + n.password] else []) + [""]
  }

  function AllNetworkLines(nets: seq<Network>): seq<string> {
    if nets == [] then [] else NetworkLines(nets[0]) + AllNetworkLines(nets[1..])
  }

  function AddressLine(name: string, v: nat): seq<string>
    requires v < ADDRESSES
  {
    if v == 0 then [] else [name + "= " + PrintIp(v)]
  }

  ghost predicate AddressesFit(c: Settings) {
    c.ip < ADDRESSES && c.netmask < ADDRESSES && c.gateway < ADDRESSES && c.dns < ADDRESSES
  }

  /** The two comment lines at the head of a saved file. */
  function Written(): string { " rtw88.conf \U{E2}\U{80}\U{94} written by rtwd." }
  function HowTo(): string { " `key = value`; '#' starts a comment." }
  function Banner1(): string { "#" + Written() + HowTo() }
  function KnownNets(): string { " Known networks (each 'network =' " }
  function ItsKey(): string { "starts an entry; 'password =' is its key)." }
  function Banner2(): string { "#" + KnownNets() + ItsKey() }

  function Banner(): seq<string> { [Banner1(), Banner2(), ""] }

  function SettingLines(c: Settings): seq<string>
    requires AddressesFit(c)
  {
    ["band = " + BandText(c.band)] + AddressLine("ip      ", c.ip) + AddressLine("netmask ", c.netmask)
    + AddressLine("gateway ", c.gateway) + AddressLine("dns     ", c.dns)
  }

  function Join(lines: seq<string>): string {
    if lines == [] then "" else lines[0] + "\n" + Join(lines[1..])
  }

  function SaveText(c: Settings): string
    requires AddressesFit(c)
  {
    Join(Banner() + AllNetworkLines(c.nets) + SettingLines(c))
  }

  // ------------------------------------------------ lines read back

  ghost predicate OneLine(l: string) { '\n' !in l && |l| < 511 }

  function ApplyLines(aton: Aton, c: Settings, lines: seq<string>): Settings
    decreases |lines|
  {
    if lines == [] then c else ApplyLines(aton, ApplyLine(aton, c, lines[0] + "\n"), lines[1..])
  }

  lemma {:induction false} ApplyLinesConcat(aton: Aton, c: Settings, a: seq<string>, b: seq<string>)
    ensures ApplyLines(aton, c, a + b) == ApplyLines(aton, ApplyLines(aton, c, a), b)
    decreases |a|
  {
    hide ApplyLine;
    if a == [] {
      assert a + b == b;
    } else {
      assert (a + b)[1..] == a[1..] + b;
      ApplyLinesConcat(aton, ApplyLine(aton, c, a[0] + "\n"), a[1..], b);
    }
  }

  lemma {:induction false} LoadJoin(aton: Aton, c: Settings, lines: seq<string>)
    requires forall i :: 0 <= i < |lines| ==> OneLine(lines[i])
    ensures Load(aton, c, Join(lines)) == ApplyLines(aton, c, lines)
    decreases |lines|
  {
    hide ApplyLine;
    if lines != [] {
      var l, rest := lines[0], Join(lines[1..]);
      var text := l + "\n" + rest;
      IndexOfAfter(l, '\n', rest);
      assert LineLength(text) == |l| + 1;
      assert text[..|l| + 1] == l + "\n" && text[|l| + 1..] == rest;
      LoadJoin(aton, ApplyLine(aton, c, l + "\n"), lines[1..]);
    }
  }

  ghost predicate KeyText(k: string) {
    k != "" && Clean(k) && '=' !in k && '#' != k[0]
  }

  /** A written setting reads as its key and its trimmed value, whatever the line contains. */
  lemma SettingTrimmed(k: string, pad: string, v: string)
    requires KeyText(k) && AllBlank(pad) && |k| + |pad| <= 63
    requires '\n' !in v && |v| + 2 <= 255
    ensures SplitSetting(k + pad + "= " + v + "\n") == Some((k, Trim(v)))
  {
    hide Trim, Blank, TrimLeft;
    var kp, rest := k + pad, " " + v + "\n";
    var line := k + pad + "= " + v + "\n";
    assert line == kp + "=" + rest;
    NotComment(k, pad + "= " + v + "\n");
    assert line == k + (pad + "= " + v + "\n");
    BlanksHaveNoEquals(pad);
    IndexOfAfter(kp, '=', rest);
    assert line[..|kp|] == kp && line[|kp| + 1..] == rest;
    OneBlank();
    TrimPadded("", k, pad);
    assert "" + k + pad == kp;
    TrimLine(v);
  }

  /** A clean value reads as it was written. */
  lemma SettingReads(k: string, pad: string, v: string)
    requires KeyText(k) && AllBlank(pad) && |k| + |pad| <= 63
    requires Clean(v) && |v| + 2 <= 255
    ensures SplitSetting(k + pad + "= " + v + "\n") == Some((k, v))
  {
    hide Trim, KeyText;
    SettingTrimmed(k, pad, v);
    TrimFixed(v);
  }

  lemma OneBlank()
    ensures AllBlank(" ") && AllBlank("")
  {}

  lemma BlanksHaveNoEquals(pad: string)
    requires AllBlank(pad)
    ensures '=' !in pad
  {}

  lemma NotComment(k: string, rest: string)
    requires KeyText(k)
    ensures StripComment(k + rest) == k + rest
  {
    assert (k + rest)[0] == k[0];
  }

  // ------------------------------------------------ the round trip

  ghost predicate GoodNetwork(n: Network) {
    Clean(n.ssid) && |n.ssid| <= 32 && Clean(n.password) && |n.password| <= 63
  }

  ghost predicate GoodNets(nets: seq<Network>) {
    Distinct(nets) && |nets| <= 16 && forall i :: 0 <= i < |nets| ==> GoodNetwork(nets[i])
  }

  lemma KeyTexts()
    ensures KeyText("network") && KeyText("password") && KeyText("band")
    ensures KeyText("ip") && KeyText("netmask") && KeyText("gateway") && KeyText("dns")
    ensures AllBlank("  ") && AllBlank(" ") && AllBlank("      ") && AllBlank("     ")
  {}

  lemma BlankLine(aton: Aton, c: Settings)
    ensures ApplyLine(aton, c, "" + "\n") == c
  {
    assert IndexOf("\n", '=') == 1;
    assert StripComment("\n") == "\n";
  }

  lemma NetworkLineReads(aton: Aton, c: Settings, ssid: string)
    requires Clean(ssid) && |ssid| <= 32
    ensures ApplyLine(aton, c, "network  = " + ssid + "\n") == Apply(aton, c, "network", ssid)
  {
    hide SplitSetting, Clean, Apply, KeyText;
    KeyTexts();
    SettingReads("network", "  ", ssid);
    assert "network" + "  " + "= " + ssid + "\n" == "network  = " + ssid + "\n";
  }

  lemma PasswordLineReads(aton: Aton, c: Settings, pass: string)
    requires Clean(pass) && |pass| <= 63
    ensures ApplyLine(aton, c, "password = " + pass + "\n") == Apply(aton, c, "password", pass)
  {
    hide SplitSetting, Clean, Apply, KeyText;
    KeyTexts();
    SettingReads("password", " ", pass);
    assert "password" + " " + "= " + pass + "\n" == "password = " + pass + "\n";
  }

  lemma NetworkReads(aton: Aton, c: Settings, n: Network)
    requires GoodNetwork(n) && !Has(c.nets, n.ssid) && |c.nets| < 16
    ensures ApplyLines(aton, c, NetworkLines(n)) == c.(nets := c.nets + [n])
  {
    hide ApplyLine, Clean, Find;
    var c1 := Apply(aton, c, "network", n.ssid);
    var c2 := Apply(aton, c1, "password", n.password);
    NetworkLineReads(aton, c, n.ssid);
    BlankLine(aton, c1);
    BlankLine(aton, c2);
    var first := "network  = " + n.ssid;
    assert c1.nets == c.nets + [Network(n.ssid, "")];
    if n.password != "" {
      PasswordLineReads(aton, c1, n.password);
      var second := "password = " + n.password;
      assert NetworkLines(n) == [first, second, ""];
      ThreeLines(aton, c, first, second, "");
      assert c2.nets == c.nets + [n];
    } else {
      assert NetworkLines(n) == [first, ""];
      TwoLines(aton, c, first, "");
    }
  }

  lemma TwoLines(aton: Aton, c: Settings, a: string, b: string)
    ensures ApplyLines(aton, c, [a, b]) == ApplyLine(aton, ApplyLine(aton, c, a + "\n"), b + "\n")
  {
    hide ApplyLine;
    assert [a, b][1..] == [b] && [b][1..] == [];
    var c1 := ApplyLine(aton, c, a + "\n");
    assert ApplyLines(aton, c1, [b]) == ApplyLines(aton, ApplyLine(aton, c1, b + "\n"), []);
  }

  lemma ThreeLines(aton: Aton, c: Settings, a: string, b: string, d: string)
    ensures ApplyLines(aton, c, [a, b, d]) == ApplyLine(aton, ApplyLine(aton, ApplyLine(aton, c, a + "\n"), b + "\n"), d + "\n")
  {
    hide ApplyLine;
    assert [a, b, d][1..] == [b, d];
    TwoLines(aton, ApplyLine(aton, c, a + "\n"), b, d);
  }

  /** Loading the lines of the remaining networks appends them, in order. */
  lemma {:induction false} NetworksRead(aton: Aton, c: Settings, nets: seq<Network>)
    requires GoodNets(c.nets + nets)
    ensures ApplyLines(aton, c, AllNetworkLines(nets)) == c.(nets := c.nets + nets)
    decreases |nets|
  {
    hide ApplyLines, NetworkLines, GoodNetwork;
    if nets == [] {
      assert c.nets + [] == c.nets;
      NoLines(aton, c);
    } else {
      var all := c.nets + nets;
      assert all[|c.nets|] == nets[0];
      assert forall k :: 0 <= k < |c.nets| ==> all[k] == c.nets[k];
      NetworkReads(aton, c, nets[0]);
      var c1 := c.(nets := c.nets + [nets[0]]);
      assert c1.nets + nets[1..] == all;
      ApplyLinesConcat(aton, c, NetworkLines(nets[0]), AllNetworkLines(nets[1..]));
      NetworksRead(aton, c1, nets[1..]);
    }
  }

  lemma NoLines(aton: Aton, c: Settings)
    ensures ApplyLines(aton, c, []) == c
  {}

  lemma OneSetting(aton: Aton, c: Settings, k: string, pad: string, v: string)
    requires KeyText(k) && AllBlank(pad) && |k| + |pad| <= 63 && Clean(v) && |v| + 2 <= 255
    ensures ApplyLines(aton, c, [k + pad + "= " + v]) == Apply(aton, c, k, v)
  {
    hide SplitSetting, Clean, Apply, KeyText;
    SettingReads(k, pad, v);
    var l := k + pad + "= " + v;
    assert [l][1..] == [];
    NoLines(aton, ApplyLine(aton, c, l + "\n"));
  }

  lemma {:induction false} DecimalShort(n: nat)
    requires n < 256
    ensures |Decimal(n)| <= 3
  {
    assert n >= 100 ==> |Decimal(n / 10 / 10)| == 1;
  }

  lemma PrintIpClean(v: nat)
    requires v < ADDRESSES
    ensures Clean(PrintIp(v)) && |PrintIp(v)| <= 15
  {
    hide Decimal;
    var a, b, c, d := v / 0x100_0000, v / 0x1_0000 % 256, v / 0x100 % 256, v % 256;
    DecimalShort(a); DecimalShort(b); DecimalShort(c); DecimalShort(d);
    DecimalHasNo(a, '\n'); DecimalHasNo(b, '\n'); DecimalHasNo(c, '\n'); DecimalHasNo(d, '\n');
    var s := PrintIp(v);
    assert s[0] == Decimal(a)[0] && s[|s| - 1] == Decimal(d)[|Decimal(d)| - 1];
  }

  lemma AddressReads(aton: Aton, c: Settings, k: string, pad: string, v: nat)
    requires KeyText(k) && AllBlank(pad) && |k| + |pad| <= 63 && v < ADDRESSES
    ensures ApplyLines(aton, c, AddressLine(k + pad, v)) == if v == 0 then c else Apply(aton, c, k, PrintIp(v))
  {
    hide PrintIp, KeyText, Clean, Apply, ApplyLines;
    NoLines(aton, c);
    if v != 0 {
      PrintIpClean(v);
      OneSetting(aton, c, k, pad, PrintIp(v));
    }
  }

  /** Band and addresses are restored onto settings that still have their initial ones. */
  lemma SettingsRead(aton: Aton, c: Settings, d: Settings)
    requires ReadsPrinted(aton) && AddressesFit(d) && c.ip == c.netmask == c.gateway == c.dns == 0
    ensures ApplyLines(aton, c, SettingLines(d)) ==
      c.(band := d.band, ip := d.ip, netmask := d.netmask, gateway := d.gateway, dns := d.dns)
  {
    hide PrintIp, KeyText, Clean, ApplyLines, AddressLine, Apply;
    KeyTexts();
    var band, ip, mask := ["band = " + BandText(d.band)], AddressLine("ip      ", d.ip), AddressLine("netmask ", d.netmask);
    var gw, dns := AddressLine("gateway ", d.gateway), AddressLine("dns     ", d.dns);
    ApplyLinesConcat(aton, c, band + ip + mask + gw, dns);
    ApplyLinesConcat(aton, c, band + ip + mask, gw);
    ApplyLinesConcat(aton, c, band + ip, mask);
    ApplyLinesConcat(aton, c, band, ip);
    BandReads(aton, c, d.band);
    var c1 := c.(band := d.band);
    var c2 := c1.(ip := d.ip);
    var c3 := c2.(netmask := d.netmask);
    var c4 := c3.(gateway := d.gateway);
    assert "ip" + "      " == "ip      " && "netmask" + " " == "netmask ";
    assert "gateway" + " " == "gateway " && "dns" + "     " == "dns     ";
    ApplyAddress(aton, c1, PrintIp(d.ip)); ApplyAddress(aton, c2, PrintIp(d.netmask));
    ApplyAddress(aton, c3, PrintIp(d.gateway)); ApplyAddress(aton, c4, PrintIp(d.dns));
    AddressReads(aton, c1, "ip", "      ", d.ip);
    AddressReads(aton, c2, "netmask", " ", d.netmask);
    AddressReads(aton, c3, "gateway", " ", d.gateway);
    AddressReads(aton, c4, "dns", "     ", d.dns);
  }

  lemma ApplyAddress(aton: Aton, c: Settings, v: string)
    ensures Apply(aton, c, "ip", v) == c.(ip := aton(v)) && Apply(aton, c, "netmask", v) == c.(netmask := aton(v))
    ensures Apply(aton, c, "gateway", v) == c.(gateway := aton(v)) && Apply(aton, c, "dns", v) == c.(dns := aton(v))
  {}

  lemma BandReads(aton: Aton, c: Settings, b: Band)
    ensures ApplyLines(aton, c, ["band = " + BandText(b)]) == c.(band := b)
  {
    hide KeyText, ApplyLines;
    KeyTexts();
    OneSetting(aton, c, "band", " ", BandText(b));
    assert "band" + " " + "= " + BandText(b) == "band = " + BandText(b);
  }

  lemma BannerReads(aton: Aton, c: Settings)
    ensures ApplyLines(aton, c, Banner()) == c
  {
    hide ApplyLine;
    hide Banner1, Banner2;
    BannerFits();
    ThreeLines(aton, c, Banner1(), Banner2(), "");
    CommentLine(aton, c, Banner1() + "\n");
    CommentLine(aton, c, Banner2() + "\n");
    BlankLine(aton, c);
  }

  lemma CommentLine(aton: Aton, c: Settings, l: string)
    requires l != "" && l[0] == '#'
    ensures ApplyLine(aton, c, l) == c
  {
    assert IndexOf("", '=') == 0;
  }

  /** Name and passphrase fit their fields and hold no line end. */
  ghost predicate Short(n: Network) {
    '\n' !in n.ssid && |n.ssid| <= 32 && '\n' !in n.password && |n.password| <= 63
  }

  lemma GoodIsShort(nets: seq<Network>)
    requires forall i :: 0 <= i < |nets| ==> GoodNetwork(nets[i])
    ensures forall i :: 0 <= i < |nets| ==> Short(nets[i])
  {}

  lemma {:induction false} NetworkLinesFit(nets: seq<Network>)
    requires forall i :: 0 <= i < |nets| ==> Short(nets[i])
    ensures forall i :: 0 <= i < |AllNetworkLines(nets)| ==> OneLine(AllNetworkLines(nets)[i])
    decreases |nets|
  {
    if nets != [] {
      NetworkLinesFit(nets[1..]);
      assert forall i :: 0 <= i < |NetworkLines(nets[0])| ==> OneLine(NetworkLines(nets[0])[i]);
    }
  }

  lemma AddressFits(name: string, v: nat)
    requires '\n' !in name && |name| <= 8 && v < ADDRESSES
    ensures forall i :: 0 <= i < |AddressLine(name, v)| ==> OneLine(AddressLine(name, v)[i])
  {
    hide PrintIp;
    PrintIpClean(v);
  }

  lemma SettingLinesFit(c: Settings)
    requires AddressesFit(c)
    ensures forall i :: 0 <= i < |SettingLines(c)| ==> OneLine(SettingLines(c)[i])
  {
    hide PrintIp, AddressLine;
    AddressFits("ip      ", c.ip);
    AddressFits("netmask ", c.netmask);
    AddressFits("gateway ", c.gateway);
    AddressFits("dns     ", c.dns);
    assert OneLine("band = " + BandText(c.band));
  }

  /** Loading what was saved restores networks, passphrases, band and addresses; the mode is not saved. */
  lemma LoadSave(aton: Aton, c: Settings)
    requires ReadsPrinted(aton) && GoodNets(c.nets) && AddressesFit(c)
    ensures Load(aton, FRESH, SaveText(c)) == c.(mode := Unset)
  {
    hide Banner1, Banner2, Load, Join, ApplyLines, AllNetworkLines, SettingLines, GoodNetwork, OneLine, Distinct;
    var nets, settings := AllNetworkLines(c.nets), SettingLines(c);
    GoodIsShort(c.nets);
    NetworkLinesFit(c.nets);
    SettingLinesFit(c);
    BannerFits();
    LoadJoin(aton, FRESH, Banner() + nets + settings);
    ApplyLinesConcat(aton, FRESH, Banner() + nets, settings);
    ApplyLinesConcat(aton, FRESH, Banner(), nets);
    BannerReads(aton, FRESH);
    assert FRESH.nets + c.nets == c.nets;
    NetworksRead(aton, FRESH, c.nets);
    SettingsRead(aton, FRESH.(nets := c.nets), c);
  }

  lemma BannerFits()
    ensures OneLine(Banner1()) && OneLine(Banner2()) && OneLine("")
    ensures Banner1() != "" && Banner1()[0] == '#' && Banner2() != "" && Banner2()[0] == '#'
  {
    hide Written, HowTo, KnownNets, ItsKey;
    WrittenFits();
    HowToFits();
    KnownNetsFits();
    ItsKeyFits();
  }

  lemma WrittenFits()
    ensures '\n' !in Written() && |Written()| <= 50
  {}

  lemma HowToFits()
    ensures '\n' !in HowTo() && |HowTo()| <= 50
  {}

  lemma KnownNetsFits()
    ensures '\n' !in KnownNets() && |KnownNets()| <= 50
  {}

  lemma ItsKeyFits()
    ensures '\n' !in ItsKey() && |ItsKey()| <= 50
  {}

  // ------------------------------------------------ clean values are needed

  lemma NetworkLineTrimmed(aton: Aton, c: Settings, ssid: string)
    requires '\n' !in ssid && |ssid| <= 32
    ensures ApplyLine(aton, c, "network  = " + ssid + "\n") == Apply(aton, c, "network", Trim(ssid))
  {
    hide SplitSetting, Apply, KeyText, Trim;
    KeyTexts();
    SettingTrimmed("network", "  ", ssid);
    assert "network" + "  " + "= " + ssid + "\n" == "network  = " + ssid + "\n";
  }

  lemma PasswordLineTrimmed(aton: Aton, c: Settings, pass: string)
    requires '\n' !in pass && |pass| <= 63
    ensures ApplyLine(aton, c, "password = " + pass + "\n") == Apply(aton, c, "password", Trim(pass))
  {
    hide SplitSetting, Apply, KeyText, Trim;
    KeyTexts();
    SettingTrimmed("password", " ", pass);
    assert "password" + " " + "= " + pass + "\n" == "password = " + pass + "\n";
  }

  lemma TrimShorter(v: string)
    ensures |Trim(v)| <= |v|
  {}

  /** The lines of one network give back its trimmed name and passphrase. */
  lemma NetworkTrimmed(aton: Aton, n: Network)
    requires Short(n)
    ensures ApplyLines(aton, FRESH, NetworkLines(n)) == FRESH.(nets := [Network(Trim(n.ssid), Trim(n.password))])
  {
    hide ApplyLine, Trim;
    TrimShorter(n.ssid);
    TrimShorter(n.password);
    var c1 := FRESH.(nets := [Network(Trim(n.ssid), "")]);
    var c2 := FRESH.(nets := [Network(Trim(n.ssid), Trim(n.password))]);
    NetworkLineTrimmed(aton, FRESH, n.ssid);
    assert Apply(aton, FRESH, "network", Trim(n.ssid)) == c1;
    BlankLine(aton, c1);
    BlankLine(aton, c2);
    var first := "network  = " + n.ssid;
    if n.password != "" {
      PasswordLineTrimmed(aton, c1, n.password);
      ApplyPassword(aton, c1, Trim(n.password));
      assert Apply(aton, c1, "password", Trim(n.password)).nets == c2.nets;
      var second := "password = " + n.password;
      assert NetworkLines(n) == [first, second, ""];
      ThreeLines(aton, FRESH, first, second, "");
    } else {
      TrimNothing();
      assert NetworkLines(n) == [first, ""];
      TwoLines(aton, FRESH, first, "");
    }
  }

  lemma TrimNothing()
    ensures Trim("") == ""
  {}

  ghost predicate NoLineEnds(nets: seq<Network>) {
    forall i :: 0 <= i < |nets| ==> '\n' !in nets[i].ssid && '\n' !in nets[i].password
  }

  lemma SplitOneLine(line: string)
    requires EndOnly(line)
    ensures SplitSetting(line).Some? ==> '\n' !in SplitSetting(line).value.1
  {
    hide Trim, TrimLeft;
    var l := StripComment(line);
    var eq := IndexOf(l, '=');
    if eq < |l| {
      var v := l[eq + 1..];
      assert forall i :: 0 <= i < |v| ==> v[i] == l[eq + 1 + i];
      TrimOneLine(Take(v, VALUE_MAX));
    }
  }

  lemma ApplyNoLineEnds(aton: Aton, c: Settings, k: string, v: string)
    requires NoLineEnds(c.nets) && '\n' !in v
    ensures NoLineEnds(Apply(aton, c, k, v).nets)
  {
    hide Find, ParseBand, ParseMode;
    assert '\n' !in Take(v, 32) && '\n' !in Take(v, 63);
  }

  lemma LineEndsOnly(text: string)
    requires text != ""
    ensures EndOnly(text[..LineLength(text)])
  {}

  /** No line end ever gets into a loaded name or passphrase, whatever the file holds. */
  lemma {:induction false} LoadNoLineEnds(aton: Aton, c: Settings, text: string)
    requires NoLineEnds(c.nets)
    ensures NoLineEnds(Load(aton, c, text).nets)
    decreases |text|
  {
    hide Apply, SplitSetting, LineLength, NoLineEnds;
    if text != "" {
      var n := LineLength(text);
      LineEndsOnly(text);
      SplitOneLine(text[..n]);
      match SplitSetting(text[..n]) {
        case Some(kv) => ApplyNoLineEnds(aton, c, kv.0, kv.1);
        case None =>
      }
      LoadNoLineEnds(aton, ApplyLine(aton, c, text[..n]), text[n..]);
    }
  }

  lemma LoadSaveTrims(aton: Aton, c: Settings, n: Network)
    requires ReadsPrinted(aton) && AddressesFit(c) && c.nets == [n] && Short(n)
    ensures Load(aton, FRESH, SaveText(c)).nets == [Network(Trim(n.ssid), Trim(n.password))]
  {
    hide Banner1, Banner2, Load, Join, ApplyLines, SettingLines, OneLine, Trim;
    var nets, settings := AllNetworkLines(c.nets), SettingLines(c);
    NetworkLinesFit(c.nets);
    SettingLinesFit(c);
    BannerFits();
    LoadJoin(aton, FRESH, Banner() + nets + settings);
    ApplyLinesConcat(aton, FRESH, Banner() + nets, settings);
    ApplyLinesConcat(aton, FRESH, Banner(), nets);
    BannerReads(aton, FRESH);
    assert nets == NetworkLines(n) by { assert [n][1..] == [] && AllNetworkLines([]) == []; }
    NetworkTrimmed(aton, n);
    SettingsRead(aton, FRESH.(nets := [Network(Trim(n.ssid), Trim(n.password))]), c);
  }

  lemma OneNetwork(n: Network)
    ensures NoLineEnds([n]) <==> '\n' !in n.ssid && '\n' !in n.password
  {
    assert [n][0] == n;
  }

  /** A saved network whose name and passphrase fit their fields is read back unchanged if and only
      if both are clean: no line end, no blank in front, no white space behind. */
  lemma SurvivesExactlyClean(aton: Aton, c: Settings, n: Network)
    requires ReadsPrinted(aton) && AddressesFit(c) && c.nets == [n] && |n.ssid| <= 32 && |n.password| <= 63
    ensures Load(aton, FRESH, SaveText(c)).nets == [n] <==> Clean(n.ssid) && Clean(n.password)
  {
    hide Load, SaveText, Trim;
    if '\n' in n.ssid || '\n' in n.password {
      LoadNoLineEnds(aton, FRESH, SaveText(c));
      OneNetwork(n);
    } else {
      LoadSaveTrims(aton, c, n);
      TrimFixed(n.ssid);
      TrimFixed(n.password);
    }
  }

  // ------------------------------------------------ limits and words

  /** A line longer than the buffer is read in pieces of 511 characters. */
  lemma LongLine(text: string)
    requires |text| > 511 && '\n' !in text[..511]
    ensures LineLength(text) == 511
  {
    assert forall k :: 0 <= k < 511 ==> text[k] == text[..511][k];
  }

  /** A key is cut to 63 characters and a value to 255. */
  lemma LongSetting(key: string, v: string)
    requires key != "" && '=' !in key && key[0] !in {' ', '\t', '#'}
    ensures SplitSetting(key + "=" + v) ==
      if Trim(Take(key, 63)) == "" then None else Some((Trim(Take(key, 63)), Trim(Take(v, 255))))
  {
    hide Trim;
    var line := key + "=" + v;
    assert line[0] == key[0];
    IndexOfAfter(key, '=', v);
    assert line[..|key|] == key && line[|key| + 1..] == v;
  }

  lemma Digits256(a: nat, b: nat, c: nat, d: nat)
    requires a < 256 && b < 256 && c < 256 && d < 256
    ensures var v := ((a * 256 + b) * 256 + c) * 256 + d;
      v < 0x1_0000_0000 && v / 0x100_0000 == a && v / 0x1_0000 % 256 == b && v / 0x100 % 256 == c && v % 256 == d
  {
    var ab := a * 256 + b;
    var abc := ab * 256 + c;
    var v := abc * 256 + d;
    assert v / 0x100 == abc && abc / 256 == ab && ab / 256 == a;
    assert v / 0x1_0000 == ab && v / 0x100_0000 == a;
  }

  /** An address is printed as four decimal numbers, its highest byte first. */
  lemma PrintIpIs(a: nat, b: nat, c: nat, d: nat)
    requires a < 256 && b < 256 && c < 256 && d < 256
    ensures var v := ((a * 256 + b) * 256 + c) * 256 + d;
      v < 0x1_0000_0000 && PrintIp(v) == Decimal(a) + "." + (Decimal(b) + "." + (Decimal(c) + "." + Decimal(d)))
  {
    hide Decimal;
    Digits256(a, b, c, d);
  }

  /** What the keys and their words set. */
  lemma BandWords(aton: Aton, c: Settings)
    ensures Apply(aton, c, "band", "2.4") == c.(band := Band24) && Apply(aton, c, "band", "5") == c.(band := Band5)
    ensures Apply(aton, c, "band", "both") == c.(band := Both) && Apply(aton, c, "mode", "eth") == c.(mode := Eth)
    ensures Apply(aton, c, "mode", "scan") == c.(mode := ScanOnly)
  {}

  lemma AddressKeys(aton: Aton, c: Settings, v: string)
    ensures Apply(aton, c, "ip", v) == c.(ip := aton(v)) && Apply(aton, c, "netmask", v) == c.(netmask := aton(v))
    ensures Apply(aton, c, "gateway", v) == c.(gateway := aton(v)) && Apply(aton, c, "dns", v) == c.(dns := aton(v))
  {}

  // ------------------------------------------------ inputs that show it

  const HOME := Network("A", "first")
  const AWAY := Network("B", "second")

  /** Two networks are saved, and the file names the first again with a new passphrase: the first
      keeps its old one, and the second's is overwritten. */
  lemma WrongNetworkGetsPassword(aton: Aton)
    ensures var c := FRESH.(nets := [HOME, AWAY]);
      Load(aton, c, Join(["network = A", "password = x"])).nets == [HOME, Network("B", "x")]
  {
    hide Load, Join, ApplyLines, SplitSetting, KeyText, Clean;
    var c := FRESH.(nets := [HOME, AWAY]);
    var a, b := "network = A", "password = x";
    ExampleTexts();
    LoadJoin(aton, c, [a, b]);
    TwoLines(aton, c, a, b);
    SettingReads("network", " ", "A");
    assert "network" + " " + "= " + "A" + "\n" == a + "\n";
    SettingReads("password", " ", "x");
    assert "password" + " " + "= " + "x" + "\n" == b + "\n";
    ExampleEntry(aton);
  }

  lemma ExampleTexts()
    ensures OneLine("network = A") && OneLine("password = x") && Clean("A") && Clean("x")
    ensures KeyText("network") && KeyText("password") && AllBlank(" ")
  {}

  lemma ExampleEntry(aton: Aton)
    ensures ApplyEntry(aton, FRESH.(nets := [HOME, AWAY]), "A", "x").nets == [HOME, Network("B", "x")]
  {
    hide Apply;
    var c := FRESH.(nets := [HOME, AWAY]);
    assert Find(c.nets, "A") == 0;
    ApplyNetwork(aton, c, "A");
    ApplyPassword(aton, c, "x");
  }

  lemma {:induction false} NetworkLinesSnoc(nets: seq<Network>, n: Network)
    ensures AllNetworkLines(nets + [n]) == AllNetworkLines(nets) + NetworkLines(n)
    decreases |nets|
  {
    hide NetworkLines;
    if nets == [] {
      assert [n][1..] == [] && AllNetworkLines([n]) == NetworkLines(n) + [];
    } else {
      assert (nets + [n])[1..] == nets[1..] + [n];
      NetworkLinesSnoc(nets[1..], n);
    }
  }

  /** A file that lists sixteen good networks and one more: the seventeenth is refused, and its
      passphrase replaces the sixteenth's. */
  lemma SeventeenthOverwrites(aton: Aton, nets: seq<Network>, extra: Network)
    requires GoodNets(nets) && |nets| == 16
    requires GoodNetwork(extra) && extra.password != "" && !Has(nets, extra.ssid)
    ensures Load(aton, FRESH, Join(AllNetworkLines(nets + [extra]))).nets == WithLast(nets, extra.password)
  {
    hide Load, Join, ApplyLines, AllNetworkLines, GoodNetwork, OneLine, Distinct, Find;
    GoodIsShort(nets + [extra]);
    NetworkLinesFit(nets + [extra]);
    NetworkLinesSnoc(nets, extra);
    LoadJoin(aton, FRESH, AllNetworkLines(nets + [extra]));
    ApplyLinesConcat(aton, FRESH, AllNetworkLines(nets), NetworkLines(extra));
    assert FRESH.nets + nets == nets;
    NetworksRead(aton, FRESH, nets);
    ExtraReads(aton, FRESH.(nets := nets), extra);
  }

  lemma ExtraReads(aton: Aton, c: Settings, extra: Network)
    requires |c.nets| == 16 && GoodNetwork(extra) && extra.password != "" && !Has(c.nets, extra.ssid)
    ensures ApplyLines(aton, c, NetworkLines(extra)).nets == WithLast(c.nets, extra.password)
  {
    hide ApplyLine, ApplyLines, Clean, Find, Apply;
    NetworkLineReads(aton, c, extra.ssid);
    ApplyNetwork(aton, c, extra.ssid);
    PasswordLineReads(aton, c, extra.password);
    ApplyPassword(aton, c, extra.password);
    BlankLine(aton, Apply(aton, c, "password", extra.password));
    var first, second := "network  = " + extra.ssid, "password = " + extra.password;
    assert NetworkLines(extra) == [first, second, ""];
    ThreeLines(aton, c, first, second, "");
  }

  /** Seventeen networks named x, xx, xxx and so on, with passphrases y, yy, yyy and so on. */
  function Many(n: nat): seq<Network> { seq(n, i requires 0 <= i < n => Network(Times('x', i + 1), Times('y', i + 1))) }

  function Times(c: char, n: nat): (s: string)
    ensures |s| == n && forall k :: 0 <= k < n ==> s[k] == c
  {
    seq(n, _ => c)
  }

  lemma SeventeenNetworks(aton: Aton)
    ensures Load(aton, FRESH, Join(AllNetworkLines(Many(17)))).nets == WithLast(Many(16), Times('y', 17))
  {
    var nets, extra := Many(16), Many(17)[16];
    assert Many(17) == nets + [extra];
    ManyGood();
    hide Load, Join, AllNetworkLines, GoodNetwork, Many, Times;
    SeventeenthOverwrites(aton, nets, extra);
  }

  lemma ManyGood()
    ensures GoodNets(Many(16)) && GoodNetwork(Many(17)[16]) && Many(17)[16].password == Times('y', 17)
    ensures !Has(Many(16), Many(17)[16].ssid)
  {
    hide Find;
    forall i | 0 <= i < 17 ensures GoodNetwork(Many(17)[i]) {}
    assert forall i :: 0 <= i < 16 ==> Many(16)[i] == Many(17)[i];
  }
}
