/** The daemon's saved networks and settings, and the text file that carries them between runs. */
module Config {
  import opened Options
  import opened Text

  datatype Band = Both | Band24 | Band5
  datatype Mode = Unset | ScanOnly | Eth

  datatype Network = Network(ssid: string, password: string)

  /** g_cfg; an address of 0 means unset. */
  datatype Settings = Settings(nets: seq<Network>, band: Band, mode: Mode, ip: nat, netmask: nat, gateway: nat, dns: nat)

  const MAX_NETWORKS: nat := 16
  const SSID_MAX: nat := 32
  const PASSWORD_MAX: nat := 63

  const FRESH := Settings([], Both, Unset, 0, 0, 0, 0)

  // ------------------------------------------------ known networks

  /** The first entry with this name, or the number of entries. */
  function Find(nets: seq<Network>, ssid: string): (i: nat)
    ensures i <= |nets| && (i < |nets| ==> nets[i].ssid == ssid)
    ensures forall k :: 0 <= k < i ==> nets[k].ssid != ssid
  {
    if nets == [] || nets[0].ssid == ssid then 0 else Find(nets[1..], ssid) + 1
  }

  predicate Has(nets: seq<Network>, ssid: string) { Find(nets, ssid) < |nets| }

  /** The list with an entry for the name, which is cut to the size of its field. */
  function AddNetwork(nets: seq<Network>, ssid: string): (r: Option<seq<Network>>) {
    if Has(nets, ssid) then Some(nets)
    else if |nets| >= MAX_NETWORKS then None
    else Some(nets + [Network(Take(ssid, SSID_MAX), "")])
  }

  /** Add a network or replace its passphrase; None is the error return. */
  function SetNetwork(nets: seq<Network>, ssid: string, pass: string): Option<seq<Network>> {
    if ssid == "" then None
    else
      match AddNetwork(nets, ssid)
      case None => None
      case Some(ns) =>
        var i := if Has(nets, ssid) then Find(nets, ssid) else |nets|;
        Some(ns[i := ns[i].(password := Take(pass, PASSWORD_MAX))])
  }

  function ForgetNetwork(nets: seq<Network>, ssid: string): Option<seq<Network>> {
    var i := Find(nets, ssid);
    if i < |nets| then Some(nets[..i] + nets[i + 1..]) else None
  }

  ghost predicate Distinct(nets: seq<Network>) {
    forall i, j :: 0 <= i < j < |nets| ==> nets[i].ssid != nets[j].ssid
  }

  /** network_match: what the list says of a name. */
  function Lookup(nets: seq<Network>, ssid: string): Option<string> {
    if Has(nets, ssid) then Some(nets[Find(nets, ssid)].password) else None
  }

  lemma FindAt(nets: seq<Network>, i: nat)
    requires i < |nets| && Distinct(nets)
    ensures Find(nets, nets[i].ssid) == i
  {}

  /** The name an entry is kept under: a new one is cut to the size of its field. */
  function Kept(nets: seq<Network>, ssid: string): string { if Has(nets, ssid) then ssid else Take(ssid, 32) }

  /** The entries after a save: the one of that name, wherever it stands, and the others as before. */
  lemma SetEntries(nets: seq<Network>, ssid: string, pass: string)
    ensures SetNetwork(nets, ssid, pass).None? <==> ssid == "" || (Lookup(nets, ssid).None? && |nets| >= 16)
    ensures SetNetwork(nets, ssid, pass).Some? ==>
      var r, i := SetNetwork(nets, ssid, pass).value, Find(nets, ssid);
      && |r| == (if i < |nets| then |nets| else i + 1) && i <= |nets|
      && r[i] == Network(Kept(nets, ssid), Take(pass, 63))
      && forall k :: 0 <= k < |nets| && k != i ==> r[k] == nets[k]
  {
    hide Take, Find;
  }

  /** Which entry a name finds once the entry at i carries the name m and the others are as before. */
  lemma FindIn(nets: seq<Network>, r: seq<Network>, i: nat, m: string, s: string)
    requires i <= |nets| && |r| == (if i < |nets| then |nets| else i + 1) && r[i].ssid == m
    requires forall k :: 0 <= k < |nets| && k != i ==> r[k] == nets[k]
    requires i < |nets| ==> nets[i].ssid == m && Find(nets, m) == i
    ensures Lookup(r, s) == if s == m && (i < |nets| || !Has(nets, s)) then Some(r[i].password) else Lookup(nets, s)
  {
    hide Find;
    var a, b := Find(nets, s), Find(r, s);
    assert b < |r| && b != i ==> nets[b].ssid == s;
    assert a < |nets| ==> r[a].ssid == s;
  }

  /** Saving a network changes what the list says of the name it is kept under and of no other (s is
      any name), moves no entry, and fails only for the empty name or for a new name when the list
      is full. A cut name that is saved already keeps its answer. */
  lemma SetUpdates(nets: seq<Network>, ssid: string, pass: string, s: string)
    ensures SetNetwork(nets, ssid, pass).None? <==> ssid == "" || (Lookup(nets, ssid).None? && |nets| >= 16)
    ensures SetNetwork(nets, ssid, pass).Some? ==>
      var r := SetNetwork(nets, ssid, pass).value;
      && Lookup(r, s) == (if s == Kept(nets, ssid) && (Has(nets, ssid) || !Has(nets, s)) then Some(Take(pass, 63))
                          else Lookup(nets, s))
      && |nets| <= |r| && (forall k :: 0 <= k < |nets| ==> r[k].ssid == nets[k].ssid)
      && (Distinct(nets) && |ssid| <= 32 ==> Distinct(r))
  {
    hide Take, SetNetwork, Find;
    SetEntries(nets, ssid, pass);
    match SetNetwork(nets, ssid, pass)
    case None =>
    case Some(r) => FindIn(nets, r, Find(nets, ssid), Kept(nets, ssid), s);
  }

  /** Forgetting removes one name, keeps the rest in order, and fails only for an unknown name. */
  lemma ForgetRemoves(nets: seq<Network>, ssid: string, s: string)
    requires Distinct(nets)
    ensures ForgetNetwork(nets, ssid).None? <==> Lookup(nets, ssid).None?
    ensures ForgetNetwork(nets, ssid).Some? ==>
      var r := ForgetNetwork(nets, ssid).value;
      Distinct(r) && Lookup(r, s) == (if s == ssid then None else Lookup(nets, s)) && |r| == |nets| - 1
  {
    var i := Find(nets, ssid);
    if i < |nets| {
      RemoveAt(nets, i, s);
    }
  }

  function Removed(nets: seq<Network>, i: nat): (r: seq<Network>)
    requires i < |nets|
    ensures |r| == |nets| - 1
  {
    nets[..i] + nets[i + 1..]
  }

  lemma RemovedAt(nets: seq<Network>, i: nat)
    requires i < |nets|
    ensures forall k :: 0 <= k < i ==> Removed(nets, i)[k] == nets[k]
    ensures forall k :: i < k < |nets| ==> Removed(nets, i)[k - 1] == nets[k]
    ensures forall k :: i <= k < |nets| - 1 ==> Removed(nets, i)[k] == nets[k + 1]
  {}

  lemma RemoveAt(nets: seq<Network>, i: nat, s: string)
    requires i < |nets| && Distinct(nets)
    ensures var r := Removed(nets, i);
      && Distinct(r) && (Has(r, s) <==> Has(nets, s) && s != nets[i].ssid)
      && (Has(r, s) ==> r[Find(r, s)] == nets[Find(nets, s)])
  {
    hide Removed, Find;
    var r := Removed(nets, i);
    RemovedAt(nets, i);
    if Has(r, s) {
      var k := Find(r, s);
      FindAt(nets, if k < i then k else k + 1);
    }
    if Has(nets, s) && s != nets[i].ssid {
      var k := Find(nets, s);
      assert r[if k < i then k else k - 1] == nets[k];
    }
  }

  /** A name too long for its field is compared whole but stored cut: the list stays free of
      duplicates exactly when the cut name is not saved already. */
  lemma SetKeepsDistinct(nets: seq<Network>, ssid: string, pass: string)
    requires Distinct(nets) && SetNetwork(nets, ssid, pass).Some? && forall i :: 0 <= i < |nets| ==> |nets[i].ssid| <= 32
    ensures Distinct(SetNetwork(nets, ssid, pass).value) <==> |ssid| <= 32 || !Has(nets, ssid[..32])
  {
    var r := SetNetwork(nets, ssid, pass).value;
    assert forall k :: 0 <= k < |nets| ==> r[k].ssid == nets[k].ssid;
    if |ssid| > 32 {
      assert !Has(nets, ssid);
      assert r[|nets|].ssid == ssid[..32];
    }
  }

  /** Such an input: a name of 33 bytes saved twice gives two entries of the same name. */
  lemma LongNameSavedTwice(name: string, pass: string)
    requires |name| == 32 + 1
    ensures var cut := name[..32];
      var once := SetNetwork([], name, pass).value;
      && SetNetwork([], name, pass).Some? && SetNetwork(once, name, pass).Some?
      && |SetNetwork(once, name, pass).value| == 2
      && SetNetwork(once, name, pass).value[0].ssid == SetNetwork(once, name, pass).value[1].ssid == cut
  {
    var once := SetNetwork([], name, pass).value;
    assert once[0].ssid == name[..32] && |once| == 1;
    assert once[0].ssid != name;
    assert !Has(once, name);
  }
}
