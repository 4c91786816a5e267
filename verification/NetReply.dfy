/** The daemon's line for one scanned network, and what the client reads back from it. */
module NetReply {
  import opened Options
  import opened Text
  import opened Json
  import Config

  /** One scan result. */
  datatype Entry = Entry(bssid: seq<nat>, channel: nat, ssid: string, privacy: bool, beacons: nat)

  /** The widths of the fields of the scan result. */
  ghost predicate Valid(e: Entry) {
    && |e.bssid| == 6 && (forall i :: 0 <= i < 6 ==> e.bssid[i] < 256)
    && e.channel < 256 && |e.ssid| <= 32 && e.beacons < 0x1_0000_0000
  }

  predicate MacChar(c: char) { IsDigit(c) || 'a' <= c <= 'f' || c == ':' }

  function HexDigit(n: nat): (c: char)
    requires n < 16
    ensures MacChar(c)
  {
    "0123456789abcdef"[n]
  }

  function MacText(m: seq<nat>): (r: string)
    requires m != [] && forall i :: 0 <= i < |m| ==> m[i] < 256
    ensures |r| == 3 * |m| - 1 && forall i :: 0 <= i < |r| ==> MacChar(r[i])
  {
    var h := [HexDigit(m[0] / 16), HexDigit(m[0] % 16)];
    if |m| == 1 then h else h + ":" + MacText(m[1..])
  }

  function BandText(channel: nat): (r: string)
    ensures |r| <= 3 && '"' !in r && '\n' !in r && '\\' !in r
  {
    if channel <= 14 then "2.4" else "5"
  }

  function BoolText(b: bool): (r: string)
    ensures |r| <= 5 && '"' !in r && '\n' !in r && StartsWith(r, "true") == b
  {
    assert "false"[..4][0] == 'f' && "true"[0] == 't';
    if b then "true" else "false"
  }

  // ------------------------------------------------ the line, field by field

  datatype Key = Network | Ssid | Bssid | Channel | Band | Beacons | Secure | Saved

  function KeyText(k: Key): string {
    match k
    case Network => "network" case Ssid => "ssid" case Bssid => "bssid" case Channel => "channel"
    case Band => "band" case Beacons => "beacons" case Secure => "secure" case Saved => "saved"
  }

  lemma KeyTextGood(k: Key)
    ensures GoodKey(KeyText(k)) && '\n' !in KeyText(k)
  {}

  lemma KeyTextInjective(a: Key, b: Key)
    requires KeyText(a) == KeyText(b)
    ensures a == b
  {
    var s, t := KeyText(a), KeyText(b);
    assert |s| == |t| && s[0] == t[0] && s[1] == t[1] && s[2] == t[2];
  }

  function Pair(key: Key, value: Piece, rest: seq<Piece>): seq<Piece> { [Name(KeyText(key)), value] + rest }

  function SavedPart(saved: bool): seq<Piece> { Pair(Saved, Raw(BoolText(saved) + "}}"), []) }

  function SecurePart(e: Entry, saved: bool): seq<Piece> {
    Pair(Secure, Raw(BoolText(e.privacy) + ","), SavedPart(saved))
  }

  function BeaconsPart(e: Entry, saved: bool): seq<Piece> {
    Pair(Beacons, Raw(Decimal(e.beacons) + ","), SecurePart(e, saved))
  }

  function BandPart(e: Entry, saved: bool): seq<Piece> {
    Pair(Band, Str(BandText(e.channel)), BeaconsPart(e, saved))
  }

  function ChannelPart(e: Entry, saved: bool): seq<Piece> {
    Pair(Channel, Raw(Decimal(e.channel) + ","), BandPart(e, saved))
  }

  function BssidPart(e: Entry, saved: bool): seq<Piece>
    requires Valid(e)
  {
    Pair(Bssid, Str(MacText(e.bssid)), ChannelPart(e, saved))
  }

  function SsidPart(e: Entry, saved: bool): seq<Piece>
    requires Valid(e)
  {
    Pair(Ssid, Str(Escape(e.ssid)), BssidPart(e, saved))
  }

  function Pieces(e: Entry, saved: bool): seq<Piece>
    requires Valid(e)
  {
    [Raw("{")] + Pair(Network, Raw("{"), SsidPart(e, saved))
  }

  /** The whole line with its line end. */
  function Line(e: Entry, saved: bool): string
    requires Valid(e)
  {
    Render(Pieces(e, saved)) + "\n"
  }

  /** The part of a reply a callback sees: up to the line end. */
  function Received(text: string): string { text[..IndexOf(text, '\n')] }

  // ------------------------------------------------ rendering

  ghost predicate GoodPieces(ps: seq<Piece>) {
    forall i :: 0 <= i < |ps| ==> GoodPiece(ps[i]) && '\n' !in Show(ps[i])
  }

  lemma RenderPair(key: Key, value: Piece, rest: seq<Piece>)
    ensures Render(Pair(key, value, rest)) == Show(Name(KeyText(key))) + (Show(value) + Render(rest))
    ensures Render([value] + rest) == Show(value) + Render(rest)
  {
    hide Show, KeyText;
    assert Pair(key, value, rest)[1..] == [value] + rest;
    assert ([value] + rest)[1..] == rest;
  }

  lemma FieldPair(own: Key, value: Piece, rest: seq<Piece>, key: Key)
    requires !value.Name?
    ensures Field(Pair(own, value, rest), KeyText(key)) ==
      if own == key then Some(Show(value) + Render(rest)) else Field(rest, KeyText(key))
  {
    hide Show, Render, KeyText;
    RenderPair(own, value, rest);
    if KeyText(own) == KeyText(key) { KeyTextInjective(own, key); }
    assert Pair(own, value, rest)[1..] == [value] + rest;
    assert ([value] + rest)[1..] == rest;
  }

  lemma PairGood(key: Key, value: Piece, rest: seq<Piece>)
    requires GoodPieces(rest) && GoodPiece(value) && '\n' !in Show(value)
    ensures GoodPieces(Pair(key, value, rest))
  {
    hide KeyText;
    KeyTextGood(key);
  }

  lemma MacGood(m: seq<nat>)
    requires m != [] && forall i :: 0 <= i < |m| ==> m[i] < 256
    ensures '"' !in MacText(m) && '\n' !in MacText(m) && '\\' !in MacText(m)
  {
    hide MacText;
  }

  lemma DecimalGood(n: nat)
    ensures '"' !in Decimal(n) && '\n' !in Decimal(n)
  {
    hide Decimal;
  }

  lemma StrGood(b: string)
    requires QuotesEscaped(b) && '\n' !in b
    ensures GoodPiece(Str(b)) && '\n' !in Show(Str(b))
  {}

  lemma RawGood(t: string)
    requires '"' !in t && '\n' !in t
    ensures GoodPiece(Raw(t + ",")) && '\n' !in Show(Raw(t + ",")) && GoodPiece(Raw(t + "}}")) && '\n' !in Show(Raw(t + "}}"))
  {}

  lemma PiecesGood(e: Entry, saved: bool)
    requires Valid(e)
    ensures GoodPieces(Pieces(e, saved))
  {
    hide Show, GoodPiece, Escape, Decimal, MacText, BandText, BoolText, KeyText, GoodPieces, Pair;
    MacGood(e.bssid); DecimalGood(e.channel); DecimalGood(e.beacons); EscapeQuotes(e.ssid);
    StrGood(Escape(e.ssid)); StrGood(MacText(e.bssid)); StrGood(BandText(e.channel));
    RawGood(Decimal(e.channel)); RawGood(Decimal(e.beacons)); RawGood(BoolText(e.privacy)); RawGood(BoolText(saved));
    NothingGood();
    PairGood(Saved, Raw(BoolText(saved) + "}}"), []);
    PairGood(Secure, Raw(BoolText(e.privacy) + ","), SavedPart(saved));
    PairGood(Beacons, Raw(Decimal(e.beacons) + ","), SecurePart(e, saved));
    PairGood(Band, Str(BandText(e.channel)), BeaconsPart(e, saved));
    PairGood(Channel, Raw(Decimal(e.channel) + ","), BandPart(e, saved));
    PairGood(Bssid, Str(MacText(e.bssid)), ChannelPart(e, saved));
    PairGood(Ssid, Str(Escape(e.ssid)), BssidPart(e, saved));
    BraceGood();
    PairGood(Network, Raw("{"), SsidPart(e, saved));
    BraceFirst(Pair(Network, Raw("{"), SsidPart(e, saved)));
  }

  lemma NothingGood()
    ensures GoodPieces([])
  {}

  lemma BraceGood()
    ensures GoodPiece(Raw("{")) && '\n' !in Show(Raw("{"))
  {}

  lemma BraceFirst(ps: seq<Piece>)
    requires GoodPieces(ps)
    ensures GoodPieces([Raw("{")] + ps)
  {}

  lemma {:induction false} RenderOneLine(ps: seq<Piece>)
    requires GoodPieces(ps)
    ensures '\n' !in Render(ps)
    decreases |ps|
  {
    hide Show, GoodPiece;
    if ps != [] { RenderOneLine(ps[1..]); }
  }

  /** The client sees the rendered fields and nothing else. */
  lemma ReceivedLine(e: Entry, saved: bool)
    requires Valid(e)
    ensures Received(Line(e, saved)) == Render(Pieces(e, saved))
  {
    hide Render, Pieces;
    PiecesGood(e, saved);
    RenderOneLine(Pieces(e, saved));
    IndexOfAfter(Render(Pieces(e, saved)), '\n', "");
    assert Render(Pieces(e, saved)) + "\n" + "" == Line(e, saved);
  }

  // ------------------------------------------------ reading the fields back

  /** The value of a field as text, and all that follows it on the line. */
  function ValueText(e: Entry, saved: bool, key: Key): string
    requires Valid(e)
  {
    match key
    case Network => "{" + Render(SsidPart(e, saved))
    case Ssid => Show(Str(Escape(e.ssid))) + Render(BssidPart(e, saved))
    case Bssid => Show(Str(MacText(e.bssid))) + Render(ChannelPart(e, saved))
    case Channel => Decimal(e.channel) + "," + Render(BandPart(e, saved))
    case Band => Show(Str(BandText(e.channel))) + Render(BeaconsPart(e, saved))
    case Beacons => Decimal(e.beacons) + "," + Render(SecurePart(e, saved))
    case Secure => BoolText(e.privacy) + "," + Render(SavedPart(saved))
    case Saved => BoolText(saved) + "}}" + Render([])
  }

  lemma BraceSkipped(ps: seq<Piece>, key: string)
    ensures Field([Raw("{")] + ps, key) == Field(ps, key)
  {
    assert ([Raw("{")] + ps)[1..] == ps;
  }

  lemma FieldOf(e: Entry, saved: bool, key: Key)
    requires Valid(e)
    ensures Field(Pieces(e, saved), KeyText(key)) == Some(ValueText(e, saved, key))
  {
    hide Field, Pair, Render, KeyText, Escape, Decimal, MacText, BandText, BoolText;
    BraceSkipped(Pair(Network, Raw("{"), SsidPart(e, saved)), KeyText(key));
    FieldPair(Network, Raw("{"), SsidPart(e, saved), key);
    FieldPair(Ssid, Str(Escape(e.ssid)), BssidPart(e, saved), key);
    FieldPair(Bssid, Str(MacText(e.bssid)), ChannelPart(e, saved), key);
    FieldPair(Channel, Raw(Decimal(e.channel) + ","), BandPart(e, saved), key);
    FieldPair(Band, Str(BandText(e.channel)), BeaconsPart(e, saved), key);
    FieldPair(Beacons, Raw(Decimal(e.beacons) + ","), SecurePart(e, saved), key);
    FieldPair(Secure, Raw(BoolText(e.privacy) + ","), SavedPart(saved), key);
    FieldPair(Saved, Raw(BoolText(saved) + "}}"), [], key);
  }

  lemma FieldPairOther(own: Key, value: Piece, rest: seq<Piece>, key: string)
    requires !value.Name? && KeyText(own) != key
    ensures Field(Pair(own, value, rest), key) == Field(rest, key)
  {
    hide Show, Render, KeyText;
    assert Pair(own, value, rest)[1..] == [value] + rest;
    assert ([value] + rest)[1..] == rest;
  }

  lemma FieldOfNone(e: Entry, saved: bool, key: string)
    requires Valid(e) && forall k :: KeyText(k) != key
    ensures Field(Pieces(e, saved), key) == None
  {
    hide Pair, Render, KeyText, Escape, Decimal, MacText, BandText, BoolText;
    BraceSkipped(Pair(Network, Raw("{"), SsidPart(e, saved)), key);
    FieldPairOther(Network, Raw("{"), SsidPart(e, saved), key);
    FieldPairOther(Ssid, Str(Escape(e.ssid)), BssidPart(e, saved), key);
    FieldPairOther(Bssid, Str(MacText(e.bssid)), ChannelPart(e, saved), key);
    FieldPairOther(Channel, Raw(Decimal(e.channel) + ","), BandPart(e, saved), key);
    FieldPairOther(Band, Str(BandText(e.channel)), BeaconsPart(e, saved), key);
    FieldPairOther(Beacons, Raw(Decimal(e.beacons) + ","), SecurePart(e, saved), key);
    FieldPairOther(Secure, Raw(BoolText(e.privacy) + ","), SavedPart(saved), key);
    FieldPairOther(Saved, Raw(BoolText(saved) + "}}"), [], key);
  }

  /** Searching the line for a key lands on the daemon's own field. */
  lemma Located(e: Entry, saved: bool, key: Key, tail: string)
    requires Valid(e) && |tail| <= 1 && StartsWith(ValueText(e, saved, key), tail)
    ensures After(Received(Line(e, saved)), Pattern(KeyText(key), tail)) == Some(ValueText(e, saved, key)[|tail|..])
  {
    hide Field, Pieces, Line, Received, KeyText, ValueText, After, Pattern, GoodPiece, Show;
    ReceivedLine(e, saved);
    PiecesGood(e, saved);
    KeyTextGood(key);
    FieldOf(e, saved, key);
    AfterRender(Pieces(e, saved), KeyText(key), tail);
  }

  /** A key the daemon did not write is not found, whatever the network is called. */
  lemma NotLocated(e: Entry, saved: bool, key: string)
    requires Valid(e) && GoodKey(key) && forall k :: KeyText(k) != key
    ensures BoolField(Received(Line(e, saved)), key) == Missing
    ensures forall room: nat :: StringField(Received(Line(e, saved)), key, room) == None
    ensures forall d: int :: IntField(Received(Line(e, saved)), key, d) == d
  {
    hide Field, Pieces, Line, Received, KeyText, After, Pattern, GoodPiece, GoodKey, Show;
    ReceivedLine(e, saved);
    PiecesGood(e, saved);
    FieldOfNone(e, saved, key);
    AfterRender(Pieces(e, saved), key, "");
    AfterRender(Pieces(e, saved), key, "\"");
  }

  lemma ShownString(b: string, rest: string)
    ensures StartsWith(Show(Str(b)) + rest, "\"")
    ensures (Show(Str(b)) + rest)[1..] == b + "\"" + ("," + rest)
  {
    assert Show(Str(b)) + rest == "\"" + (b + "\"" + ("," + rest));
  }

  lemma {:induction false} UnescapePlain(b: string, rest: string, room: nat)
    requires '"' !in b && '\\' !in b && |b| <= room
    ensures Unescape(b + "\"" + rest, room) == b
    decreases |b|
  {
    var s := b + "\"" + rest;
    if b != "" {
      assert s[0] == b[0] && s[1..] == b[1..] + "\"" + rest;
      UnescapePlain(b[1..], rest, room - 1);
    }
  }

  lemma {:induction false} DigitRunStops(d: string, rest: string)
    requires (forall i :: 0 <= i < |d| ==> IsDigit(d[i])) && (rest == "" || !IsDigit(rest[0]))
    ensures DigitRun(d + rest) == d
    decreases |d|
  {
    if d == "" {
      assert d + rest == rest;
    } else {
      assert (d + rest)[0] == d[0] && (d + rest)[1..] == d[1..] + rest;
      DigitRunStops(d[1..], rest);
    }
  }

  lemma LeadingDecimal(n: nat, rest: string)
    requires rest == "" || !IsDigit(rest[0])
    ensures LeadingInt(Decimal(n) + rest) == n
  {
    hide Decimal, DigitRun, DecimalValue;
    DigitRunStops(Decimal(n), rest);
    DecimalInverse(n);
    assert (Decimal(n) + rest)[0] == Decimal(n)[0];
  }

  lemma ReadsString(e: Entry, saved: bool, key: Key, b: string, rest: string, room: nat)
    requires Valid(e) && ValueText(e, saved, key) == Show(Str(b)) + rest
    ensures StringField(Received(Line(e, saved)), KeyText(key), room) == Some(Unescape(b + "\"" + ("," + rest), room))
  {
    hide Show, ValueText, Line, Received, KeyText, After, Pattern, Unescape, StartsWith;
    ShownString(b, rest);
    Located(e, saved, key, "\"");
  }

  lemma ReadsNumber(e: Entry, saved: bool, key: Key, n: nat, rest: string)
    requires Valid(e) && ValueText(e, saved, key) == Decimal(n) + "," + rest
    ensures forall d: int :: IntField(Received(Line(e, saved)), KeyText(key), d) == n
  {
    hide ValueText, Line, Received, KeyText, After, Pattern, LeadingInt, Decimal;
    var v := ValueText(e, saved, key);
    assert v[..0] == "" && v[0..] == v;
    Located(e, saved, key, "");
    assert v == Decimal(n) + ("," + rest);
    LeadingDecimal(n, "," + rest);
  }

  lemma ReadsFlag(e: Entry, saved: bool, key: Key, b: bool, rest: string)
    requires Valid(e) && ValueText(e, saved, key) == BoolText(b) + rest
    ensures BoolField(Received(Line(e, saved)), KeyText(key)) == if b then Yes else No
  {
    hide ValueText, Line, Received, KeyText, After, Pattern;
    var v := ValueText(e, saved, key);
    assert v[..0] == "" && v[0..] == v;
    Located(e, saved, key, "");
    assert v[0] == BoolText(b)[0] && "true"[0] == 't' && "false"[0] == 'f';
  }

  lemma StringsRead(e: Entry, saved: bool)
    requires Valid(e)
    ensures var l := Received(Line(e, saved));
      && StringField(l, KeyText(Ssid), 63) == Some(Printable(e.ssid))
      && StringField(l, KeyText(Bssid), 23) == Some(MacText(e.bssid))
      && StringField(l, KeyText(Band), 7) == Some(BandText(e.channel))
  {
    hide Line, Received, KeyText, StringField, Show, Render, Escape, Printable, Unescape, MacText, BandText;
    var r1, r2, r3 := Render(BssidPart(e, saved)), Render(ChannelPart(e, saved)), Render(BeaconsPart(e, saved));
    ReadsString(e, saved, Ssid, Escape(e.ssid), r1, 63);
    UnescapeEscape(e.ssid, "," + r1, 63);
    ReadsString(e, saved, Bssid, MacText(e.bssid), r2, 23);
    MacGood(e.bssid);
    UnescapePlain(MacText(e.bssid), "," + r2, 23);
    ReadsString(e, saved, Band, BandText(e.channel), r3, 7);
    UnescapePlain(BandText(e.channel), "," + r3, 7);
  }

  lemma FlagsRead(e: Entry, saved: bool)
    requires Valid(e)
    ensures var l := Received(Line(e, saved));
      && BoolField(l, KeyText(Secure)) == (if e.privacy then Yes else No)
      && BoolField(l, KeyText(Saved)) == (if saved then Yes else No)
  {
    hide Line, Received, KeyText, BoolField, Show, Render, BoolText;
    var r4, r5 := "," + Render(SavedPart(saved)), "}}" + Render([]);
    assert ValueText(e, saved, Secure) == BoolText(e.privacy) + r4;
    ReadsFlag(e, saved, Secure, e.privacy, r4);
    assert ValueText(e, saved, Saved) == BoolText(saved) + r5;
    ReadsFlag(e, saved, Saved, saved, r5);
  }

  /** The client's scan callback reads back every field the daemon wrote: the name without control
      characters other than the line end, and the other fields unchanged. */
  lemma ScanLineReads(e: Entry, saved: bool)
    requires Valid(e)
    ensures var l := Received(Line(e, saved));
      && StringField(l, "ssid", 63) == Some(Printable(e.ssid))
      && StringField(l, "bssid", 23) == Some(MacText(e.bssid))
      && StringField(l, "band", 7) == Some(if e.channel <= 14 then "2.4" else "5")
      && IntField(l, "channel", 0) == e.channel
      && IntField(l, "beacons", 0) == e.beacons
      && BoolField(l, "secure") == (if e.privacy then Yes else No)
      && BoolField(l, "saved") == (if saved then Yes else No)
  {
    hide Line, Received, KeyText, StringField, IntField, BoolField, Show, Render, Printable, MacText, Decimal;
    KeyFormats();
    NameKey();
    StringsRead(e, saved);
    FlagsRead(e, saved);
    ReadsNumber(e, saved, Channel, e.channel, Render(BandPart(e, saved)));
    ReadsNumber(e, saved, Beacons, e.beacons, Render(SecurePart(e, saved)));
  }

  lemma NameKey()
    ensures KeyText(Ssid) == "ssid"
  {}

  // ------------------------------------------------ writing the line

  /** The text of the first format, and of the one behind the name. */
  function Opening(): string { "{" + ("\"network\":" + ("{" + "\"ssid\":")) }

  function Closing(e: Entry, saved: bool): string
    requires Valid(e)
  {
    "," + Render(BssidPart(e, saved)) + "\n"
  }

  lemma LineParts(e: Entry, saved: bool)
    requires Valid(e)
    ensures Line(e, saved) == Opening() + ("\"" + Escape(e.ssid) + "\"") + Closing(e, saved)
  {
    hide Render, Pair, Escape, BssidPart;
    var tail, name := Render(BssidPart(e, saved)), Escape(e.ssid);
    RenderPair(Ssid, Str(name), BssidPart(e, saved));
    RenderPair(Network, Raw("{"), SsidPart(e, saved));
    RenderPair(Network, Raw("{"), Pair(Network, Raw("{"), SsidPart(e, saved)));
    KeyLiterals();
    var ssid, network := Show(Name(KeyText(Ssid))), Show(Name(KeyText(Network)));
    assert Render(Pieces(e, saved)) == "{" + (network + ("{" + (ssid + (Show(Str(name)) + tail))));
    assert Show(Str(name)) + tail + "\n" == "\"" + name + "\"" + Closing(e, saved);
  }

  /** The line as the two formats spell it: its start, and then part by part. */
  lemma LineFormat(e: Entry, saved: bool)
    requires Valid(e)
    ensures Line(e, saved) == "{\"network\":{\"ssid\":\"" + Escape(e.ssid) + "\"," + Render(BssidPart(e, saved)) + "\n"
  {
    hide Escape, Pair, Render, Line, BssidPart;
    LineParts(e, saved);
    var name, rest := Escape(e.ssid), Render(BssidPart(e, saved));
    assert Opening() + ("\"" + name + "\"") + ("," + rest + "\n") == "{\"network\":{\"ssid\":\"" + name + "\"," + rest + "\n";
  }

  lemma StringFormats(e: Entry, saved: bool)
    requires Valid(e)
    ensures Render(BssidPart(e, saved)) == "\"bssid\":\"" + MacText(e.bssid) + "\"," + Render(ChannelPart(e, saved))
    ensures Render(BandPart(e, saved)) ==
      "\"band\":\"" + (if e.channel <= 14 then "2.4" else "5") + "\"," + Render(BeaconsPart(e, saved))
  {
    hide MacText, BandText, Pair, Render, KeyText, ChannelPart, BeaconsPart;
    KeyFormats();
    BandTextIs(e.channel);
    RenderPair(Bssid, Str(MacText(e.bssid)), ChannelPart(e, saved));
    RenderPair(Band, Str(BandText(e.channel)), BeaconsPart(e, saved));
    StringFormat("\"bssid\":", MacText(e.bssid), Render(ChannelPart(e, saved)));
    StringFormat("\"band\":", BandText(e.channel), Render(BeaconsPart(e, saved)));
    assert "\"bssid\":" + "\"" == "\"bssid\":\"" && "\"band\":" + "\"" == "\"band\":\"";
  }

  lemma BandTextIs(channel: nat)
    ensures BandText(channel) == if channel <= 14 then "2.4" else "5"
  {}

  lemma StringFormat(k: string, b: string, rest: string)
    ensures k + (Show(Str(b)) + rest) == (k + "\"") + b + "\"," + rest
  {}

  lemma TextFormat(k: string, t: string, u: string, rest: string)
    ensures k + (Show(Raw(t + u)) + rest) == k + t + u + rest
  {}

  lemma NumberFormats(e: Entry, saved: bool)
    requires Valid(e)
    ensures Render(ChannelPart(e, saved)) == "\"channel\":" + Decimal(e.channel) + "," + Render(BandPart(e, saved))
    ensures Render(BeaconsPart(e, saved)) == "\"beacons\":" + Decimal(e.beacons) + "," + Render(SecurePart(e, saved))
  {
    hide Decimal, Pair, Render, KeyText, BandPart, SecurePart, Show;
    KeyFormats();
    RenderPair(Channel, Raw(Decimal(e.channel) + ","), BandPart(e, saved));
    RenderPair(Beacons, Raw(Decimal(e.beacons) + ","), SecurePart(e, saved));
    TextFormat("\"channel\":", Decimal(e.channel), ",", Render(BandPart(e, saved)));
    TextFormat("\"beacons\":", Decimal(e.beacons), ",", Render(SecurePart(e, saved)));
  }

  lemma FlagFormats(e: Entry, saved: bool)
    requires Valid(e)
    ensures Render(SecurePart(e, saved)) == "\"secure\":" + (if e.privacy then "true" else "false") + "," + Render(SavedPart(saved))
    ensures Render(SavedPart(saved)) == "\"saved\":" + (if saved then "true" else "false") + "}}"
  {
    hide Pair, Render, KeyText, BoolText, Show;
    KeyFormats();
    RenderNothing();
    BoolTextIs(e.privacy);
    BoolTextIs(saved);
    RenderPair(Secure, Raw(BoolText(e.privacy) + ","), SavedPart(saved));
    RenderPair(Saved, Raw(BoolText(saved) + "}}"), []);
    TextFormat("\"secure\":", BoolText(e.privacy), ",", Render(SavedPart(saved)));
    TextFormat("\"saved\":", BoolText(saved), "}}", "");
  }

  lemma BoolTextIs(b: bool)
    ensures BoolText(b) == if b then "true" else "false"
  {}

  lemma KeyFormats()
    ensures KeyText(Bssid) == "bssid" && KeyText(Channel) == "channel" && KeyText(Band) == "band"
    ensures KeyText(Beacons) == "beacons" && KeyText(Secure) == "secure" && KeyText(Saved) == "saved"
    ensures Show(Name("bssid")) == "\"bssid\":" && Show(Name("channel")) == "\"channel\":" && Show(Name("band")) == "\"band\":"
    ensures Show(Name("beacons")) == "\"beacons\":" && Show(Name("secure")) == "\"secure\":" && Show(Name("saved")) == "\"saved\":"
  {}

  function HexValue(c: char): int { if IsDigit(c) then c as int - '0' as int else c as int - 'a' as int + 10 }

  lemma HexDigitValue(n: nat)
    requires n < 16
    ensures HexValue(HexDigit(n)) == n && HexDigit(n) != ':'
  {}

  /** An address is printed byte by byte: two hexadecimal digits, the high one first, and colons between. */
  lemma {:induction false} MacReads(m: seq<nat>, i: nat)
    requires i < |m| && forall k :: 0 <= k < |m| ==> m[k] < 256
    ensures 16 * HexValue(MacText(m)[3 * i]) + HexValue(MacText(m)[3 * i + 1]) == m[i]
    ensures i + 1 < |m| ==> MacText(m)[3 * i + 2] == ':'
    decreases i
  {
    hide HexDigit, HexValue;
    HexDigitValue(m[0] / 16);
    HexDigitValue(m[0] % 16);
    if i > 0 {
      MacReads(m[1..], i - 1);
      var h := [HexDigit(m[0] / 16), HexDigit(m[0] % 16)];
      assert MacText(m) == (h + ":") + MacText(m[1..]) && |h + ":"| == 3;
    }
  }

  lemma KeyLiterals()
    ensures Show(Name(KeyText(Ssid))) == "\"ssid\":" && Show(Name(KeyText(Network))) == "\"network\":"
  {}

  function Pow10(k: nat): nat { if k == 0 then 1 else 10 * Pow10(k - 1) }

  lemma {:induction false} DecimalLength(n: nat, k: nat)
    requires k >= 1 && n < Pow10(k)
    ensures |Decimal(n)| <= k
  {
    if n >= 10 { DecimalLength(n / 10, k - 1); }
  }

  lemma Pow10Values()
    ensures Pow10(3) == 1000 && Pow10(10) == 10_000_000_000
  {
    assert Pow10(3) == 1000;
    assert Pow10(6) == 1_000_000;
    assert Pow10(9) == 1_000_000_000;
  }

  lemma PairLength(key: Key, value: Piece, rest: seq<Piece>)
    ensures |Render(Pair(key, value, rest))| <= 10 + |Show(value)| + |Render(rest)|
  {
    hide Render, Pair;
    RenderPair(key, value, rest);
    assert |KeyText(key)| <= 7;
  }

  lemma ClosingLength(e: Entry, saved: bool)
    requires Valid(e)
    ensures |Closing(e, saved)| <= 200
  {
    hide Render, Pair, Decimal, MacText, BandText, BoolText;
    Pow10Values();
    DecimalLength(e.channel, 3);
    DecimalLength(e.beacons, 10);
    RenderNothing();
    PairLength(Saved, Raw(BoolText(saved) + "}}"), []);
    PairLength(Secure, Raw(BoolText(e.privacy) + ","), SavedPart(saved));
    PairLength(Beacons, Raw(Decimal(e.beacons) + ","), SecurePart(e, saved));
    PairLength(Band, Str(BandText(e.channel)), BeaconsPart(e, saved));
    PairLength(Channel, Raw(Decimal(e.channel) + ","), BandPart(e, saved));
    PairLength(Bssid, Str(MacText(e.bssid)), ChannelPart(e, saved));
  }

  lemma RenderNothing()
    ensures Render([]) == ""
  {}

  const LINE_CAP: nat := 512

  /** net_line: the caller's buffer always holds the whole line and its zero byte. */
  method WriteLine(buf: array<char>, e: Entry, nets: seq<Config.Network>) returns (n: nat)
    requires Valid(e) && buf.Length == LINE_CAP
    modifies buf
    ensures n < buf.Length && buf[n] == '\0'
    ensures buf[..n] == Line(e, Config.Has(nets, e.ssid))
  {
    hide Line, Closing, Escape, QuotedWithin;
    var saved := Config.Has(nets, e.ssid);
    LineParts(e, saved);
    ClosingLength(e, saved);
    OpeningLength();
    n := Append(buf, 0, Opening());
    assert buf[..n] == Opening();
    QuotedFits(e.ssid, buf.Length - n);
    n := JsonStr(buf, n, e.ssid);
    assert buf[..n] == Opening() + ("\"" + Escape(e.ssid) + "\"");
    n := Append(buf, n, Closing(e, saved));
  }

  lemma OpeningLength()
    ensures |Opening()| <= 19
  {}
}
