/** Runs of the daemon's set and forget commands, and the configuration object they change. */
module ConfigStore {
  import opened Options
  import opened Text
  import opened Config
  import opened ConfigFile

  datatype Command = Save(ssid: string, pass: string) | Forget(name: string)

  function Exec(nets: seq<Network>, c: Command): seq<Network> {
    var r := match c case Save(s, p) => SetNetwork(nets, s, p) case Forget(s) => ForgetNetwork(nets, s);
    match r case Some(ns) => ns case None => nets
  }

  function Run(nets: seq<Network>, cs: seq<Command>): seq<Network>
    decreases |cs|
  {
    if cs == [] then nets else Run(Exec(nets, cs[0]), cs[1..])
  }

  /** Names of up to 32 bytes and passphrases of up to 63, each on one line and without blanks
      at its ends; '#', '=' and inner spaces are allowed. */
  ghost predicate Proper(c: Command) {
    c.Save? ==> Clean(c.ssid) && |c.ssid| <= 32 && Clean(c.pass) && |c.pass| <= 63
  }

  lemma ExecKeeps(nets: seq<Network>, c: Command)
    requires GoodNets(nets) && Proper(c)
    ensures GoodNets(Exec(nets, c))
  {
    hide Clean, Find, Distinct;
    match c
    case Save(s, p) =>
      SetUpdates(nets, s, p, s);
    case Forget(s) =>
      ForgetRemoves(nets, s, s);
  }

  lemma {:induction false} RunKeeps(nets: seq<Network>, cs: seq<Command>)
    requires GoodNets(nets) && forall i :: 0 <= i < |cs| ==> Proper(cs[i])
    ensures GoodNets(Run(nets, cs))
    decreases |cs|
  {
    hide Proper, Exec, GoodNets;
    if cs != [] {
      ExecKeeps(nets, cs[0]);
      RunKeeps(Exec(nets, cs[0]), cs[1..]);
    }
  }

  /** After any run of commands, saving and loading restores the list, its order and its
      passphrases, together with the band and the addresses. */
  lemma RunRoundTrip(aton: Aton, c: Settings, cs: seq<Command>)
    requires ReadsPrinted(aton) && GoodNets(c.nets) && AddressesFit(c) && forall i :: 0 <= i < |cs| ==> Proper(cs[i])
    ensures var now := c.(nets := Run(c.nets, cs));
      Load(aton, FRESH, SaveText(now)) == now.(mode := Unset) && Distinct(now.nets)
  {
    hide Proper, Run, Load, SaveText;
    RunKeeps(c.nets, cs);
    LoadSave(aton, c.(nets := Run(c.nets, cs)));
  }

  /** What a run of commands leaves, as a map from names to passphrases: a save is refused only
      for the empty name, or for a new name when sixteen are known. */
  function Noted(b: map<string, string>, c: Command): map<string, string> {
    match c
    case Save(s, p) => if s == "" || (s !in b && |b| >= 16) then b else b[s := p]
    case Forget(n) => b - {n}
  }

  function Book(cs: seq<Command>): map<string, string> {
    if cs == [] then map[] else Noted(Book(cs[..|cs| - 1]), cs[|cs| - 1])
  }

  function Answer(b: map<string, string>, name: string): Option<string> {
    if name in b then Some(b[name]) else None
  }

  lemma {:induction false} RunSnoc(nets: seq<Network>, cs: seq<Command>)
    requires cs != []
    ensures Run(nets, cs) == Exec(Run(nets, cs[..|cs| - 1]), cs[|cs| - 1])
    decreases |cs|
  {
    hide Exec;
    if |cs| > 1 {
      var n := |cs| - 1;
      RunSnoc(Exec(nets, cs[0]), cs[1..]);
      assert cs[..n][1..] == cs[1..][..n - 1] && cs[1..][n - 1] == cs[n];
    } else {
      assert cs[1..] == [] && cs[..0] == [];
      assert Run(Exec(nets, cs[0]), []) == Exec(nets, cs[0]);
    }
  }

  /** The list and the map hold as much and answer alike. */
  ghost predicate Agree(nets: seq<Network>, b: map<string, string>) {
    |nets| == |b| && forall s :: Lookup(nets, s) == Answer(b, s)
  }

  lemma NotedSize(b: map<string, string>, s: string, p: string)
    ensures |b[s := p]| == if s in b then |b| else |b| + 1
    ensures |b - {s}| == if s in b then |b| - 1 else |b|
  {
    assert b[s := p].Keys == b.Keys + {s};
    assert (b - {s}).Keys == b.Keys - {s};
  }

  lemma SaveAgrees(nets: seq<Network>, s: string, p: string, b: map<string, string>)
    requires GoodNets(nets) && Proper(Save(s, p)) && Agree(nets, b)
    ensures Agree(Exec(nets, Save(s, p)), Noted(b, Save(s, p)))
  {
    hide Clean, Lookup, Distinct, SetNetwork, GoodNetwork;
    assert Lookup(nets, s) == Answer(b, s);
    NotedSize(b, s, p);
    SetUpdates(nets, s, p, s);
    SavedSize(nets, s, p);
    forall t ensures Lookup(Exec(nets, Save(s, p)), t) == Answer(Noted(b, Save(s, p)), t) { SetUpdates(nets, s, p, t); }
  }

  lemma ForgetAgrees(nets: seq<Network>, s: string, b: map<string, string>)
    requires GoodNets(nets) && Agree(nets, b)
    ensures Agree(Exec(nets, Forget(s)), Noted(b, Forget(s)))
  {
    hide Clean, Lookup, Distinct, ForgetNetwork, GoodNetwork;
    assert Lookup(nets, s) == Answer(b, s);
    NotedSize(b, s, "");
    ForgetRemoves(nets, s, s);
    forall t ensures Lookup(Exec(nets, Forget(s)), t) == Answer(Noted(b, Forget(s)), t) { ForgetRemoves(nets, s, t); }
  }

  lemma ExecAgrees(nets: seq<Network>, c: Command, b: map<string, string>)
    requires GoodNets(nets) && Proper(c) && Agree(nets, b)
    ensures Agree(Exec(nets, c), Noted(b, c))
  {
    hide Agree, Exec, Noted, GoodNets;
    match c
    case Save(s, p) => SaveAgrees(nets, s, p, b);
    case Forget(s) => ForgetAgrees(nets, s, b);
  }

  lemma SavedSize(nets: seq<Network>, s: string, p: string)
    ensures SetNetwork(nets, s, p).Some? ==>
      |SetNetwork(nets, s, p).value| == if Lookup(nets, s).Some? then |nets| else |nets| + 1
  {
    hide Find, Take;
  }

  /** After every run of commands, full list or not, the list answers every lookup as the map does
      and holds as many networks. */
  lemma {:induction false} RunAnswers(cs: seq<Command>)
    requires forall i :: 0 <= i < |cs| ==> Proper(cs[i])
    ensures Agree(Run([], cs), Book(cs))
    decreases |cs|
  {
    hide Proper, Exec, Agree, GoodNets;
    NothingAgrees();
    if cs != [] {
      var n := |cs| - 1;
      RunAnswers(cs[..n]);
      EmptyIsGood();
      RunKeeps([], cs[..n]);
      RunSnoc([], cs);
      ExecAgrees(Run([], cs[..n]), cs[n], Book(cs[..n]));
    }
  }

  lemma NothingAgrees()
    ensures Agree(Run([], []), Book([]))
  {}

  lemma EmptyIsGood()
    ensures GoodNets([])
  {}

  // ------------------------------------------------ the object in memory

  /** g_cfg: a table of sixteen entries, the number in use, and the settings. */
  class WifiConfig {
    const aton: Aton
    const nets: array<Network>
    var count: nat
    var band: Band
    var mode: Mode
    var ip: nat
    var netmask: nat
    var gateway: nat
    var dns: nat

    ghost predicate Valid()
      reads this
    {
      nets.Length == MAX_NETWORKS && count <= MAX_NETWORKS
    }

    ghost function Value(): Settings
      requires Valid()
      reads this, nets
    {
      Settings(nets[..count], band, mode, ip, netmask, gateway, dns)
    }

    constructor (aton: Aton)
      ensures Valid() && Value() == FRESH && fresh(nets) && this.aton == aton
    {
      this.aton := aton;
      nets := new Network[MAX_NETWORKS](_ => Network("", ""));
      count, band, mode, ip, netmask, gateway, dns := 0, Both, Unset, 0, 0, 0, 0;
    }

    /** The index of a name, or the count. */
    method Search(ssid: string) returns (i: nat)
      requires Valid()
      ensures i == Find(nets[..count], ssid)
    {
      i := 0;
      while i < count && nets[i].ssid != ssid
        invariant i <= count && i + Find(nets[i..count], ssid) == Find(nets[..count], ssid)
      {
        assert nets[i..count][1..] == nets[i + 1..count];
        i := i + 1;
      }
    }

    /** add_network: the index of the entry, or -1 when the table is full. */
    method AddNetwork(ssid: string) returns (at: int)
      requires Valid()
      modifies this`count, nets
      ensures Valid()
      ensures at >= 0 <==> Config.AddNetwork(old(Value().nets), ssid).Some?
      ensures at >= 0 ==> at == Find(old(Value().nets), ssid) < count
      ensures Value() ==
        if at >= 0 then old(Value()).(nets := Config.AddNetwork(old(Value().nets), ssid).value) else old(Value())
    {
      hide Find, Take;
      ghost var was := nets[..count];
      var i := Search(ssid);
      if i < count {
        return i;
      }
      if count >= MAX_NETWORKS {
        return -1;
      }
      nets[count] := Network(Take(ssid, SSID_MAX), "");
      count := count + 1;
      assert nets[..count - 1] == was;
      return count - 1;
    }

    /** config_set_network. */
    method SetNetwork(ssid: string, pass: string) returns (ok: bool)
      requires Valid()
      modifies this`count, nets
      ensures Valid()
      ensures ok <==> Config.SetNetwork(old(Value().nets), ssid, pass).Some?
      ensures Value() ==
        if ok then old(Value()).(nets := Config.SetNetwork(old(Value().nets), ssid, pass).value) else old(Value())
    {
      hide Find, Take;
      if ssid == "" {
        return false;
      }
      var at := AddNetwork(ssid);
      if at < 0 {
        return false;
      }
      ghost var mid := nets[..count];
      nets[at] := nets[at].(password := Take(pass, PASSWORD_MAX));
      assert nets[..count] == mid[at := mid[at].(password := Take(pass, PASSWORD_MAX))];
      return true;
    }

    /** config_forget_network: the entries behind the removed one move up. */
    method ForgetNetwork(ssid: string) returns (ok: bool)
      requires Valid()
      modifies this`count, nets
      ensures Valid()
      ensures ok <==> Config.ForgetNetwork(old(Value().nets), ssid).Some?
      ensures Value() ==
        if ok then old(Value()).(nets := Config.ForgetNetwork(old(Value().nets), ssid).value) else old(Value())
    {
      hide Find;
      var i := Search(ssid);
      if i == count {
        return false;
      }
      CloseGap(i);
      count := count - 1;
      return true;
    }

    /** Entries behind i move one place down. */
    method CloseGap(i: nat)
      requires Valid() && i < count
      modifies nets
      ensures nets[..count - 1] == old(nets[..i]) + old(nets[i + 1..count])
    {
      for j := i + 1 to count
        invariant forall k :: 0 <= k < i ==> nets[k] == old(nets[k])
        invariant forall k :: i <= k < j - 1 ==> nets[k] == old(nets[k + 1])
        invariant forall k :: j <= k < count ==> nets[k] == old(nets[k])
      {
        nets[j - 1] := nets[j];
      }
    }

    /** apply: one setting of the file. */
    method ApplySetting(key: string, val: string) returns (ok: bool)
      requires Valid()
      modifies this, nets
      ensures Valid() && Value() == Apply(aton, old(Value()), key, val) && ok == Accepts(old(Value()), key, val)
    {
      hide Find, Take, ParseBand, ParseMode;
      if key == "ssid" || key == "network" {
        var at := AddNetwork(val);
        return at >= 0;
      }
      if key == "password" || key == "pass" {
        if count == 0 {
          return false;
        }
        ghost var was := nets[..count];
        nets[count - 1] := nets[count - 1].(password := Take(val, PASSWORD_MAX));
        assert nets[..count] == was[count - 1 := was[count - 1].(password := Take(val, PASSWORD_MAX))];
        return true;
      }
      ok := ApplyScalar(key, val);
    }

    /** The settings that are not networks. */
    method ApplyScalar(key: string, val: string) returns (ok: bool)
      requires Valid() && key != "ssid" && key != "network" && key != "password" && key != "pass"
      modifies this`band, this`mode, this`ip, this`netmask, this`gateway, this`dns
      ensures Value() == Apply(aton, old(Value()), key, val) && ok == Accepts(old(Value()), key, val)
    {
      hide Find, Take, ParseBand, ParseMode;
      if key == "band" {
        match ParseBand(val)
        case Some(b) => band := b; return true;
        case None => return false;
      } else if key == "mode" {
        match ParseMode(val)
        case Some(m) => mode := m; return true;
        case None => return false;
      } else if key == "ip" {
        ip := aton(val);
      } else if key == "netmask" {
        netmask := aton(val);
      } else if key == "gateway" || key == "gw" {
        gateway := aton(val);
      } else if key == "dns" {
        dns := aton(val);
      } else {
        return false;
      }
      return true;
    }

    /** load_file, on the text of the file. */
    method LoadText(text: string)
      requires Valid()
      modifies this, nets
      ensures Valid() && Value() == Load(aton, old(Value()), text)
    {
      hide Apply, SplitSetting, LineLength;
      ghost var goal := Load(aton, Value(), text);
      var at := 0;
      while at < |text|
        invariant at <= |text| && Valid() && Load(aton, Value(), text[at..]) == goal
      {
        ghost var rest := text[at..];
        var n := LineLength(text[at..]);
        var line := text[at..at + n];
        assert rest[..n] == line && rest[n..] == text[at + n..];
        at := at + n;
        match SplitSetting(line)
        case Some(kv) => var _ := ApplySetting(kv.0, kv.1);
        case None =>
      }
    }

    /** config_save, up to the text it writes. */
    method SaveConfig() returns (text: string)
      requires Valid() && AddressesFit(Value())
      ensures text == SaveText(Value())
    {
      hide Join, Banner1, Banner2, AddressLine, NetworkLines, PrintIp;
      ghost var lines := Banner();
      text := PrintBanner();
      for i := 0 to count
        invariant text == Join(lines)
        invariant lines + AllNetworkLines(nets[i..count]) == Banner() + AllNetworkLines(nets[..count])
      {
        assert nets[i..count][0] == nets[i] && nets[i..count][1..] == nets[i + 1..count];
        text := PrintNetwork(text, lines, nets[i]);
        lines := lines + NetworkLines(nets[i]);
      }
      assert lines == Banner() + AllNetworkLines(nets[..count]);
      ghost var head := lines;
      PrintLine(lines, "band = " + BandText(band));
      text := text + ("band = " + BandText(band)) + "\n";
      lines := lines + ["band = " + BandText(band)];
      text := PrintAddress(text, lines, "ip      ", ip);
      lines := lines + AddressLine("ip      ", ip);
      text := PrintAddress(text, lines, "netmask ", netmask);
      lines := lines + AddressLine("netmask ", netmask);
      text := PrintAddress(text, lines, "gateway ", gateway);
      lines := lines + AddressLine("gateway ", gateway);
      text := PrintAddress(text, lines, "dns     ", dns);
      lines := lines + AddressLine("dns     ", dns);
      assert lines == head + SettingLines(Value());
    }
  }

  // ------------------------------------------------ printing line by line

  lemma JoinNothing()
    ensures Join([]) == ""
  {}

  lemma {:induction false} PrintLine(lines: seq<string>, l: string)
    ensures Join(lines + [l]) == Join(lines) + l + "\n"
    decreases |lines|
  {
    if lines == [] {
      assert lines + [l] == [l] && [l][1..] == [];
      assert l + "\n" + "" == "" + l + "\n";
    } else {
      PrintLine(lines[1..], l);
      assert (lines + [l])[1..] == lines[1..] + [l];
    }
  }

  method PrintBanner() returns (t: string)
    ensures t == Join(Banner())
  {
    hide Join, Banner1, Banner2;
    ghost var none: seq<string> := [];
    ghost var one, two := [Banner1()], [Banner1(), Banner2()];
    JoinNothing();
    PrintLine(none, Banner1());
    assert none + [Banner1()] == one;
    t := "" + Banner1() + "\n";
    PrintLine(one, Banner2());
    assert one + [Banner2()] == two;
    t := t + Banner2() + "\n";
    assert t == Join(two);
    PrintLine(two, "");
    t := t + "" + "\n";
    assert two + [""] == Banner();
  }

  method PrintNetwork(text: string, ghost lines: seq<string>, n: Network) returns (t: string)
    requires text == Join(lines)
    ensures t == Join(lines + NetworkLines(n))
  {
    hide Join;
    ghost var ls := lines + ["network  = " + n.ssid];
    PrintLine(lines, "network  = " + n.ssid);
    t := text + ("network  = " + n.ssid) + "\n";
    if n.password != "" {
      PrintLine(ls, "password = " + n.password);
      t := t + ("password = " + n.password) + "\n";
      ls := ls + ["password = " + n.password];
    }
    PrintLine(ls, "");
    t := t + "" + "\n";
    assert ls + [""] == lines + NetworkLines(n);
  }

  method PrintAddress(text: string, ghost lines: seq<string>, name: string, v: nat) returns (t: string)
    requires text == Join(lines) && v < ADDRESSES
    ensures t == Join(lines + AddressLine(name, v))
  {
    hide Join, PrintIp;
    if v == 0 {
      assert lines + AddressLine(name, v) == lines;
      return text;
    }
    var l := name + "= " + PrintIp(v);
    PrintLine(lines, l);
    t := text + l + "\n";
  }
}
