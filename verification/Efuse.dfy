/** The EFUSE decoder: a physical map of headed sections, each of up to four words, is expanded
    into the logical map. */
module Efuse {
  import opened Bytes

  // ------------------------------------------------ headers

  predicate TwoByte(h1: Byte) { h1 & 0x1f == 0x0f }

  predicate InvalidHeader(h1: Byte, h2: Byte) { h1 == 0xff || (TwoByte(h1) && h2 == 0xff) }

  function Block2(h1: Byte, h2: Byte): Byte { ((h2 & 0xf0) >> 1) | ((h1 >> 5) & 0x07) }
  function Block1(h1: Byte): Byte { (h1 & 0xf0) >> 4 }
  function LowNibble(h: Byte): Byte { h & 0x0f }

  /** A set bit of the word-enable nibble disables its word. */
  predicate Enabled(en: Byte, i: nat)
    requires i < 4
  {
    if i == 0 then en & 1 == 0 else if i == 1 then en & 2 == 0 else if i == 2 then en & 4 == 0 else en & 8 == 0
  }

  function BlockOf(h1: Byte, h2: Byte): Byte { if TwoByte(h1) then Block2(h1, h2) else Block1(h1) }
  function EnableOf(h1: Byte, h2: Byte): Byte { if TwoByte(h1) then LowNibble(h2) else LowNibble(h1) }
  function HeaderLength(h1: Byte): nat { if TwoByte(h1) then 2 else 1 }

  function LogicalIndex(blk: Byte, i: nat): (n: nat)
    ensures n % 2 == 0
  {
    8 * Value(blk) + 2 * i
  }

  // ------------------------------------------------ the decoder

  /** A logical map, how far the physical map has been read, and whether all went well. */
  datatype Outcome = Outcome(ok: bool, log: Octets, at: nat)

  ghost predicate Bounds(phy: Octets, limit: nat, log: Octets) { limit < |phy| && |log| % 2 == 0 }

  function PutWord(log: Octets, to: nat, lo: Byte, hi: Byte): (r: Octets)
    requires to + 1 < |log|
    ensures |r| == |log|
  {
    log[to := lo][to + 1 := hi]
  }

  /** The words of one section from word i on. */
  function ReadWords(phy: Octets, limit: nat, log: Octets, blk: Byte, en: Byte, i: nat, at: nat): (r: Outcome)
    requires Bounds(phy, limit, log) && i <= 4
    ensures |r.log| == |log| && r.at >= at
    decreases 4 - i
  {
    hide Enabled, LogicalIndex, PutWord;
    if i == 4 then Outcome(true, log, at)
    else if !Enabled(en, i) then ReadWords(phy, limit, log, blk, en, i + 1, at)
    else
      var to := LogicalIndex(blk, i);
      if at + 1 > limit || to + 1 > |log| then Outcome(false, log, at)
      else ReadWords(phy, limit, PutWord(log, to, phy[at], phy[at + 1]), blk, en, i + 1, at + 2)
  }

  function SectionRead(phy: Octets, limit: nat, log: Octets, at: nat): (r: Outcome)
    requires Bounds(phy, limit, log) && at < limit
    ensures |r.log| == |log| && r.at > at
  {
    var h1, h2 := phy[at], phy[at + 1];
    ReadWords(phy, limit, log, BlockOf(h1, h2), EnableOf(h1, h2), 0, at + HeaderLength(h1))
  }

  function Scan(phy: Octets, limit: nat, log: Octets, at: nat): (r: Outcome)
    requires Bounds(phy, limit, log)
    ensures |r.log| == |log|
    decreases limit - at
  {
    if at >= limit || InvalidHeader(phy[at], phy[at + 1]) then Outcome(true, log, at)
    else
      var r := SectionRead(phy, limit, log, at);
      if r.ok then Scan(phy, limit, r.log, r.at) else r
  }

  method CopyWord(phy: array<Byte>, at: nat, log: array<Byte>, to: nat)
    requires phy != log && at + 1 < phy.Length && to + 1 < log.Length
    modifies log
    ensures log[..] == PutWord(old(log[..]), to, phy[..][at], phy[..][at + 1])
  {
    log[to] := phy[at];
    log[to + 1] := phy[at + 1];
  }

  /** The inner loop over the four words of a section. */
  method CopyWords(phy: array<Byte>, limit: nat, log: array<Byte>, blk: Byte, en: Byte, start: nat) returns (ok: bool, at: nat)
    requires phy != log && limit < phy.Length && log.Length % 2 == 0
    modifies log
    ensures at >= start
    ensures ReadWords(phy[..], limit, old(log[..]), blk, en, 0, start) == Outcome(ok, log[..], at)
  {
    hide Enabled, LogicalIndex, PutWord;
    ghost var image, goal := phy[..], ReadWords(phy[..], limit, log[..], blk, en, 0, start);
    at := start;
    for i := 0 to 4
      invariant phy[..] == image && at >= start
      invariant ReadWords(image, limit, log[..], blk, en, i, at) == goal
    {
      if !Enabled(en, i) {
        continue;
      }
      var to := LogicalIndex(blk, i);
      if at + 1 > limit || to + 1 > log.Length {
        return false, at;
      }
      CopyWord(phy, at, log, to);
      at := at + 2;
    }
    return true, at;
  }

  /** The decoder, as written: for every physical map, every read and write is within its map. */
  method DumpLogicalMap(phy: array<Byte>, protect: nat, log: array<Byte>) returns (ok: bool)
    requires phy != log && 1 <= protect <= phy.Length && log.Length % 2 == 0
    modifies log
    ensures var r := Scan(phy[..], phy.Length - protect, old(log[..]), 0); ok == r.ok && log[..] == r.log
  {
    hide InvalidHeader, TwoByte, Block1, Block2, LowNibble, ReadWords;
    var limit := phy.Length - protect;
    ghost var image, goal := phy[..], Scan(phy[..], limit, log[..], 0);
    var at := 0;
    while at < limit
      invariant phy[..] == image
      invariant Scan(image, limit, log[..], at) == goal
      decreases limit - at
    {
      var h1, h2 := phy[at], phy[at + 1];
      if InvalidHeader(h1, h2) {
        return true;
      }
      var blk, en;
      ghost var start := at;
      if TwoByte(h1) {
        blk, en := Block2(h1, h2), LowNibble(h2);
        at := at + 2;
      } else {
        blk, en := Block1(h1), LowNibble(h1);
        at := at + 1;
      }
      assert at == start + HeaderLength(h1) && blk == BlockOf(h1, h2) && en == EnableOf(h1, h2);
      var read;
      read, at := CopyWords(phy, limit, log, blk, en, at);
      assert phy[..] == image;
      if !read {
        return false;
      }
    }
    return true;
  }

  // ------------------------------------------------ sections

  datatype Word = Absent | Present(lo: Byte, hi: Byte)

  /** A section: its block, which header form it uses, and its four words. */
  datatype RawSection = Section(wide: bool, blk: Byte, words: seq<Word>)

  type Section = s: RawSection | |s.words| == 4 witness Section(false, 0, [Absent, Absent, Absent, Absent])

  function Bit(w: Word, m: Byte): Byte { if w.Absent? then m else 0 }

  function EnableNibble(ws: seq<Word>): Byte
    requires |ws| == 4
  {
    Bit(ws[0], 1) | Bit(ws[1], 2) | Bit(ws[2], 4) | Bit(ws[3], 8)
  }

  ghost predicate Empty(ws: seq<Word>) { forall i :: 0 <= i < |ws| ==> ws[i].Absent? }

  /** Exactly the sections a header can announce: a section without words must not read as the
      end of the map or as the other header form. */
  ghost predicate Readable(s: Section)
  {
    if s.wide then s.blk < 128 && !(Empty(s.words) && s.blk >= 120)
    else s.blk < 16 && !(Empty(s.words) && (s.blk & 1 == 0 || s.blk == 15))
  }

  function Header(s: Section): (h: Octets)
    ensures |h| == if s.wide then 2 else 1
  {
    var en := EnableNibble(s.words);
    if s.wide then [((s.blk & 7) << 5) | 0x0f, ((s.blk >> 3) << 4) | en] else [(s.blk << 4) | en]
  }

  function WordBytes(w: Word): Octets {
    match w case Absent => [] case Present(lo, hi) => [lo, hi]
  }

  /** Words i.. in order. */
  function EncodeWords(ws: seq<Word>, i: nat): Octets
    requires i <= |ws|
    decreases |ws| - i
  {
    if i == |ws| then [] else WordBytes(ws[i]) + EncodeWords(ws, i + 1)
  }

  function EncodeSection(s: Section): Octets
  {
    Header(s) + EncodeWords(s.words, 0)
  }

  ghost predicate AllReadable(ss: seq<Section>) { forall k :: 0 <= k < |ss| ==> Readable(ss[k]) }

  function Encode(ss: seq<Section>): Octets
  {
    if ss == [] then [] else EncodeSection(ss[0]) + Encode(ss[1..])
  }

  /** Every word the section carries has a place in a logical map of the given size. */
  ghost predicate InRange(s: Section, size: nat) {
    forall i :: 0 <= i < |s.words| ==> s.words[i].Absent? || LogicalIndex(s.blk, i) < size
  }

  ghost predicate AllInRange(ss: seq<Section>, size: nat) { forall k :: 0 <= k < |ss| ==> InRange(ss[k], size) }

  /** The byte a section puts at logical address a, if it has one. */
  predicate Covers(s: Section, a: nat)
  {
    a / 8 == Value(s.blk) && s.words[a % 8 / 2].Present?
  }

  function ByteAt(s: Section, a: nat): Byte
    requires Covers(s, a)
  {
    if a % 2 == 0 then s.words[a % 8 / 2].lo else s.words[a % 8 / 2].hi
  }

  /** The last section that covers an address decides its byte. */
  function LastWrite(ss: seq<Section>, a: nat, blank: Byte): Byte
  {
    if ss == [] then blank
    else if Covers(ss[|ss| - 1], a) then ByteAt(ss[|ss| - 1], a)
    else LastWrite(ss[..|ss| - 1], a, blank)
  }

  // ------------------------------------------------ headers read back

  lemma EnableBits(ws: seq<Word>)
    requires |ws| == 4
    ensures EnableNibble(ws) < 16
    ensures forall i :: 0 <= i < 4 ==> (Enabled(EnableNibble(ws), i) <==> ws[i].Present?)
    ensures EnableNibble(ws) == 15 <==> Empty(ws)
  {
    hide Enabled;
    var a, b, c, d := ws[0].Absent?, ws[1].Absent?, ws[2].Absent?, ws[3].Absent?;
    NibbleBits(a, b, c, d);
    assert Empty(ws) <==> a && b && c && d;
  }

  lemma NibbleBits(a: bool, b: bool, c: bool, d: bool)
    ensures var n: Byte := (if a then 1 else 0) | (if b then 2 else 0) | (if c then 4 else 0) | (if d then 8 else 0);
      && n < 16 && (n == 15 <==> a && b && c && d)
      && Enabled(n, 0) == !a && Enabled(n, 1) == !b && Enabled(n, 2) == !c && Enabled(n, 3) == !d
  {}

  /** Header arithmetic, both ways. */
  lemma HeaderBits(blk: Byte, en: Byte)
    requires en < 16
    ensures blk < 16 ==>
      var h := (blk << 4) | en;
      && Block1(h) == blk && LowNibble(h) == en
      && (h == 0xff <==> blk == 15 && en == 15) && (TwoByte(h) <==> blk & 1 == 0 && en == 15)
    ensures blk < 128 ==>
      var h1, h2 := ((blk & 7) << 5) | 0x0f, ((blk >> 3) << 4) | en;
      && Block2(h1, h2) == blk && LowNibble(h2) == en
      && TwoByte(h1) && h1 != 0xff && (h2 == 0xff <==> blk >= 120 && en == 15)
  {}

  lemma HeaderReads(s: Section, next: Byte)
    requires Readable(s)
    ensures var h1, h2 := Header(s)[0], if s.wide then Header(s)[1] else next;
      && !InvalidHeader(h1, h2) && TwoByte(h1) == s.wide
      && BlockOf(h1, h2) == s.blk && EnableOf(h1, h2) == EnableNibble(s.words)
  {
    hide Block1, Block2, LowNibble, TwoByte, EnableNibble;
    EnableBits(s.words);
    HeaderBits(s.blk, EnableNibble(s.words));
  }

  // ------------------------------------------------ overlaying

  /** The logical map after writing words i.. of a section. */
  function WriteWords(log: Octets, blk: Byte, ws: seq<Word>, i: nat): (r: Octets)
    requires |ws| == 4 && i <= 4 && |log| % 2 == 0
    requires forall k :: i <= k < 4 ==> ws[k].Absent? || LogicalIndex(blk, k) < |log|
    ensures |r| == |log|
    decreases 4 - i
  {
    if i == 4 then log
    else match ws[i]
      case Absent => WriteWords(log, blk, ws, i + 1)
      case Present(lo, hi) =>
        WriteWords(PutWord(log, LogicalIndex(blk, i), lo, hi), blk, ws, i + 1)
  }

  lemma {:induction false} WriteWordsAt(log: Octets, blk: Byte, ws: seq<Word>, i: nat, a: nat)
    requires |ws| == 4 && i <= 4 && |log| % 2 == 0 && a < |log|
    requires forall k :: i <= k < 4 ==> ws[k].Absent? || LogicalIndex(blk, k) < |log|
    ensures WriteWords(log, blk, ws, i)[a] ==
      if a / 8 == Value(blk) && a % 8 / 2 >= i && ws[a % 8 / 2].Present? then
        if a % 2 == 0 then ws[a % 8 / 2].lo else ws[a % 8 / 2].hi
      else log[a]
    decreases 4 - i
  {
    hide Value;
    if i < 4 {
      match ws[i]
      case Absent => WriteWordsAt(log, blk, ws, i + 1, a);
      case Present(lo, hi) =>
        WriteWordsAt(PutWord(log, LogicalIndex(blk, i), lo, hi), blk, ws, i + 1, a);
    }
  }

  function WriteSection(log: Octets, s: Section): (r: Octets)
    requires |log| % 2 == 0 && InRange(s, |log|)
    ensures |r| == |log|
  {
    WriteWords(log, s.blk, s.words, 0)
  }

  function WriteAll(log: Octets, ss: seq<Section>): (r: Octets)
    requires |log| % 2 == 0 && AllReadable(ss) && AllInRange(ss, |log|)
    ensures |r| == |log|
    decreases |ss|
  {
    if ss == [] then log else WriteAll(WriteSection(log, ss[0]), ss[1..])
  }

  /** Writing sections in order leaves, at each address, the last write or the old byte. */
  lemma {:induction false} WriteAllAt(log: Octets, ss: seq<Section>, a: nat)
    requires |log| % 2 == 0 && AllReadable(ss) && AllInRange(ss, |log|) && a < |log|
    ensures WriteAll(log, ss)[a] == LastWrite(ss, a, log[a])
    decreases |ss|
  {
    hide WriteSection, InRange, Covers, ByteAt;
    if ss != [] {
      var next := WriteSection(log, ss[0]);
      WriteAllAt(next, ss[1..], a);
      WriteSectionAt(log, ss[0], a);
      LastWriteSection(ss, a, log[a]);
    }
  }

  lemma WriteSectionAt(log: Octets, s: Section, a: nat)
    requires |log| % 2 == 0 && InRange(s, |log|) && a < |log|
    ensures WriteSection(log, s)[a] == if Covers(s, a) then ByteAt(s, a) else log[a]
  {
    hide WriteWords, Value, LogicalIndex;
    WriteWordsAt(log, s.blk, s.words, 0, a);
  }

  lemma {:induction false} LastWriteSection(ss: seq<Section>, a: nat, blank: Byte)
    requires ss != []
    ensures LastWrite(ss, a, blank) == LastWrite(ss[1..], a, if Covers(ss[0], a) then ByteAt(ss[0], a) else blank)
    decreases |ss|
  {
    hide Covers, ByteAt;
    if |ss| > 1 {
      var n := |ss| - 1;
      assert ss[1..][n - 1] == ss[n] && ss[1..][..n - 1] == ss[..n][1..];
      LastWriteSection(ss[..n], a, blank);
    } else {
      assert ss[..0] == [] && ss[1..] == [];
    }
  }

  // ------------------------------------------------ decoding what was encoded

  ghost predicate At(phy: Octets, at: nat, s: Octets) { at + |s| <= |phy| && phy[at..at + |s|] == s }

  lemma AtSplit(phy: Octets, at: nat, a: Octets, b: Octets)
    ensures At(phy, at, a + b) <==> At(phy, at, a) && At(phy, at + |a|, b)
  {
    if At(phy, at, a + b) {
      assert phy[at..at + |a|] == (a + b)[..|a|] == a;
      assert phy[at + |a|..at + |a| + |b|] == (a + b)[|a|..] == b;
    }
    if At(phy, at, a) && At(phy, at + |a|, b) {
      assert phy[at..at + |a + b|] == phy[at..at + |a|] + phy[at + |a|..at + |a| + |b|];
    }
  }

  lemma AtTwo(phy: Octets, at: nat, lo: Byte, hi: Byte)
    ensures At(phy, at, [lo, hi]) <==> at + 1 < |phy| && phy[at] == lo && phy[at + 1] == hi
  {
    if at + 1 < |phy| { assert phy[at..at + 2] == [phy[at], phy[at + 1]]; }
  }

  lemma {:induction false} ReadWordsEncoded(phy: Octets, limit: nat, log: Octets, blk: Byte, ws: seq<Word>, i: nat, at: nat)
    requires Bounds(phy, limit, log) && |ws| == 4 && i <= 4
    requires forall k :: i <= k < 4 ==> ws[k].Absent? || LogicalIndex(blk, k) < |log|
    requires At(phy, at, EncodeWords(ws, i)) && at + |EncodeWords(ws, i)| <= limit
    ensures ReadWords(phy, limit, log, blk, EnableNibble(ws), i, at) ==
      Outcome(true, WriteWords(log, blk, ws, i), at + |EncodeWords(ws, i)|)
    decreases 4 - i
  {
    hide Enabled, EnableNibble, LogicalIndex, PutWord, At;
    EnableBits(ws);
    if i < 4 {
      var rest := EncodeWords(ws, i + 1);
      match ws[i]
      case Absent =>
        assert EncodeWords(ws, i) == rest;
        ReadWordsEncoded(phy, limit, log, blk, ws, i + 1, at);
      case Present(lo, hi) =>
        AtSplit(phy, at, [lo, hi], rest);
        AtTwo(phy, at, lo, hi);
        ReadWordsEncoded(phy, limit, PutWord(log, LogicalIndex(blk, i), lo, hi), blk, ws, i + 1, at + 2);
    }
  }

  lemma ScanSection(phy: Octets, limit: nat, log: Octets, s: Section, at: nat)
    requires Bounds(phy, limit, log) && Readable(s) && InRange(s, |log|)
    requires At(phy, at, EncodeSection(s)) && at + |EncodeSection(s)| <= limit
    ensures Scan(phy, limit, log, at) == Scan(phy, limit, WriteSection(log, s), at + |EncodeSection(s)|)
  {
    hide InvalidHeader, TwoByte, BlockOf, EnableOf, EnableNibble, Readable, ReadWords, WriteWords, LogicalIndex;
    var h := Header(s);
    AtSplit(phy, at, h, EncodeWords(s.words, 0));
    assert phy[at] == phy[at..at + |h|][0];
    if s.wide { assert phy[at + 1] == phy[at..at + |h|][1]; }
    HeaderReads(s, phy[at + 1]);
    ReadWordsEncoded(phy, limit, log, s.blk, s.words, 0, at + |h|);
  }

  lemma {:induction false} ScanEncoded(phy: Octets, limit: nat, log: Octets, ss: seq<Section>, at: nat)
    requires Bounds(phy, limit, log) && AllReadable(ss) && AllInRange(ss, |log|)
    requires At(phy, at, Encode(ss)) && at + |Encode(ss)| <= limit
    requires at + |Encode(ss)| == limit || phy[at + |Encode(ss)|] == 0xff
    ensures Scan(phy, limit, log, at) == Outcome(true, WriteAll(log, ss), at + |Encode(ss)|)
    decreases |ss|
  {
    hide Readable, InRange, EncodeSection, SectionRead, WriteSection;
    if ss != [] {
      AtSplit(phy, at, EncodeSection(ss[0]), Encode(ss[1..]));
      ScanSection(phy, limit, log, ss[0], at);
      ScanEncoded(phy, limit, WriteSection(log, ss[0]), ss[1..], at + |EncodeSection(ss[0])|);
    }
  }

  function Blank(size: nat): (s: Octets)
    ensures |s| == size && forall i :: 0 <= i < size ==> s[i] == 0xff
  {
    seq(size, _ => 0xff)
  }

  /** Decoding an encoded section list that fits gives, at every logical address, the last
      section's byte there, and 0xff where no section wrote. */
  lemma DecodeEncode(phy: Octets, limit: nat, size: nat, ss: seq<Section>)
    requires limit < |phy| && size % 2 == 0 && AllReadable(ss) && AllInRange(ss, size)
    requires |Encode(ss)| <= limit && phy[..|Encode(ss)|] == Encode(ss)
    requires |Encode(ss)| == limit || phy[|Encode(ss)|] == 0xff
    ensures Scan(phy, limit, Blank(size), 0).ok
    ensures Scan(phy, limit, Blank(size), 0).log == seq(size, a requires 0 <= a < size => LastWrite(ss, a, 0xff))
  {
    hide Readable, InRange, Encode, Scan, WriteAll, LastWrite;
    var log := Blank(size);
    assert phy[0..0 + |Encode(ss)|] == phy[..|Encode(ss)|];
    ScanEncoded(phy, limit, log, ss, 0);
    forall a | 0 <= a < size ensures WriteAll(log, ss)[a] == LastWrite(ss, a, 0xff) { WriteAllAt(log, ss, a); }
  }

  // ------------------------------------------------ every map that decodes is an encoding

  /** The words a map holds at a position, under an enable nibble. */
  function ParseWords(phy: Octets, en: Byte, i: nat, at: nat): (ws: seq<Word>)
    requires i <= 4
    ensures |ws| == 4 - i
    decreases 4 - i
  {
    if i == 4 then []
    else if Enabled(en, i) && at + 1 < |phy| then
      [Present(phy[at], phy[at + 1])] + ParseWords(phy, en, i + 1, at + 2)
    else [Absent] + ParseWords(phy, en, i + 1, at)
  }

  /** Words i.. of a section, read at a position: enabled, in range, encoded there, and written. */
  ghost predicate WordsRead(phy: Octets, limit: nat, log: Octets, blk: Byte, en: Byte, i: nat, at: nat, ws: seq<Word>)
    requires Bounds(phy, limit, log) && i <= 4 && |ws| == 4
  {
    && (forall k :: i <= k < 4 ==> (ws[k].Present? <==> Enabled(en, k)) && (ws[k].Absent? || LogicalIndex(blk, k) < |log|))
    && At(phy, at, EncodeWords(ws, i))
    && ReadWords(phy, limit, log, blk, en, i, at) ==
      Outcome(true, WriteWords(log, blk, ws, i), at + |EncodeWords(ws, i)|)
  }

  lemma PresentRead(phy: Octets, limit: nat, log: Octets, blk: Byte, en: Byte, i: nat, at: nat, ws: seq<Word>, lo: Byte, hi: Byte)
    requires Bounds(phy, limit, log) && i < 4 && |ws| == 4 && Enabled(en, i) && ws[i] == Present(lo, hi)
    requires at + 1 <= limit && lo == phy[at] && hi == phy[at + 1] && LogicalIndex(blk, i) < |log|
    requires WordsRead(phy, limit, PutWord(log, LogicalIndex(blk, i), lo, hi), blk, en, i + 1, at + 2, ws)
    ensures WordsRead(phy, limit, log, blk, en, i, at, ws)
  {
    hide Enabled, LogicalIndex, PutWord, At;
    AtTwo(phy, at, lo, hi);
    AtSplit(phy, at, [lo, hi], EncodeWords(ws, i + 1));
  }

  lemma AbsentRead(phy: Octets, limit: nat, log: Octets, blk: Byte, en: Byte, i: nat, at: nat, ws: seq<Word>)
    requires Bounds(phy, limit, log) && i < 4 && |ws| == 4 && !Enabled(en, i) && ws[i] == Absent
    requires WordsRead(phy, limit, log, blk, en, i + 1, at, ws)
    ensures WordsRead(phy, limit, log, blk, en, i, at, ws)
  {
    hide Enabled, LogicalIndex, At;
    assert EncodeWords(ws, i) == EncodeWords(ws, i + 1);
  }

  lemma {:induction false} ParseWordsReads(phy: Octets, limit: nat, log: Octets, blk: Byte, en: Byte, i: nat, at: nat, ws: seq<Word>)
    requires Bounds(phy, limit, log) && i <= 4 && at <= |phy|
    requires |ws| == 4 && ws[i..] == ParseWords(phy, en, i, at)
    requires ReadWords(phy, limit, log, blk, en, i, at).ok
    ensures WordsRead(phy, limit, log, blk, en, i, at, ws)
    decreases 4 - i
  {
    hide Enabled, LogicalIndex, PutWord, WordsRead;
    if i == 4 {
      NoWordsRead(phy, limit, log, blk, en, at, ws);
    } else {
      assert ws[i..][0] == ws[i] && ws[i..][1..] == ws[i + 1..];
      if Enabled(en, i) {
        var lo, hi := phy[at], phy[at + 1];
        ParseWordsReads(phy, limit, PutWord(log, LogicalIndex(blk, i), lo, hi), blk, en, i + 1, at + 2, ws);
        PresentRead(phy, limit, log, blk, en, i, at, ws, lo, hi);
      } else {
        ParseWordsReads(phy, limit, log, blk, en, i + 1, at, ws);
        AbsentRead(phy, limit, log, blk, en, i, at, ws);
      }
    }
  }

  lemma NoWordsRead(phy: Octets, limit: nat, log: Octets, blk: Byte, en: Byte, at: nat, ws: seq<Word>)
    requires Bounds(phy, limit, log) && |ws| == 4 && at <= |phy|
    ensures WordsRead(phy, limit, log, blk, en, 4, at, ws)
  {
    AtNothing(phy, at);
  }

  lemma AtNothing(phy: Octets, at: nat)
    requires at <= |phy|
    ensures At(phy, at, [])
  {}

  /** A valid header is the header of the block and nibble read from it. */
  lemma HeaderBack(h1: Byte, h2: Byte)
    requires !InvalidHeader(h1, h2)
    ensures var blk, en := BlockOf(h1, h2), EnableOf(h1, h2);
      && en < 16
      && (if TwoByte(h1) then
            && blk < 128 && !(en == 15 && blk >= 120)
            && h1 == ((blk & 7) << 5) | 0x0f && h2 == ((blk >> 3) << 4) | en
          else
            && blk < 16 && !(en == 15 && (blk & 1 == 0 || blk == 15))
            && h1 == (blk << 4) | en)
  {}

  lemma NibbleBack(en: Byte, ws: seq<Word>)
    requires |ws| == 4 && en < 16 && forall k :: 0 <= k < 4 ==> (ws[k].Present? <==> Enabled(en, k))
    ensures EnableNibble(ws) == en
  {
    var a, b, c, d := ws[0].Absent?, ws[1].Absent?, ws[2].Absent?, ws[3].Absent?;
    NibbleOf(en, a, b, c, d);
  }

  lemma NibbleOf(en: Byte, a: bool, b: bool, c: bool, d: bool)
    requires en < 16 && Enabled(en, 0) == !a && Enabled(en, 1) == !b && Enabled(en, 2) == !c && Enabled(en, 3) == !d
    ensures (if a then 1 else 0) | (if b then 2 else 0) | (if c then 4 else 0) | (if d then 8 else 0) == en
  {}

  /** The section a valid header starts. */
  function ParseSection(phy: Octets, at: nat): (s: Section)
    requires at + 1 < |phy|
  {
    var h1, h2 := phy[at], phy[at + 1];
    Section(TwoByte(h1), BlockOf(h1, h2), ParseWords(phy, EnableOf(h1, h2), 0, at + HeaderLength(h1)))
  }

  /** The header of the parsed section is the one that was read. */
  lemma HeaderParsed(phy: Octets, at: nat)
    requires at + 1 < |phy| && !InvalidHeader(phy[at], phy[at + 1])
    requires var s, en := ParseSection(phy, at), EnableOf(phy[at], phy[at + 1]);
      forall k :: 0 <= k < 4 ==> (s.words[k].Present? <==> Enabled(en, k))
    ensures Readable(ParseSection(phy, at)) && At(phy, at, Header(ParseSection(phy, at)))
  {
    hide InvalidHeader, TwoByte, BlockOf, EnableOf, EnableNibble, ParseWords, Enabled;
    var h1, h2 := phy[at], phy[at + 1];
    var en, s := EnableOf(h1, h2), ParseSection(phy, at);
    HeaderBack(h1, h2);
    NibbleBack(en, s.words);
    EnableBits(s.words);
    assert phy[at..at + 2] == [h1, h2] && phy[at..at + 1] == [h1];
  }

  lemma ParseSectionReads(phy: Octets, limit: nat, log: Octets, at: nat)
    requires Bounds(phy, limit, log) && at < limit && !InvalidHeader(phy[at], phy[at + 1])
    requires SectionRead(phy, limit, log, at).ok
    ensures var s := ParseSection(phy, at);
      && Readable(s) && InRange(s, |log|) && At(phy, at, EncodeSection(s)) && at + |EncodeSection(s)| <= |phy|
      && SectionRead(phy, limit, log, at) == Outcome(true, WriteSection(log, s), at + |EncodeSection(s)|)
  {
    hide Header, Readable, InvalidHeader, TwoByte, BlockOf, EnableOf, EnableNibble, ReadWords, WriteWords, EncodeWords, ParseWords, LogicalIndex, Enabled;
    var h1, h2 := phy[at], phy[at + 1];
    var en, s := EnableOf(h1, h2), ParseSection(phy, at);
    assert s.words[0..] == s.words;
    ParseWordsReads(phy, limit, log, s.blk, en, 0, at + HeaderLength(h1), s.words);
    HeaderParsed(phy, at);
    AtSplit(phy, at, Header(s), EncodeWords(s.words, 0));
  }

  /** The sections a physical map holds, read until the end marker. */
  function Parse(phy: Octets, limit: nat, log: Octets, at: nat): (ss: seq<Section>)
    requires Bounds(phy, limit, log)
    decreases limit - at
  {
    if at >= limit || InvalidHeader(phy[at], phy[at + 1]) then []
    else
      var r := SectionRead(phy, limit, log, at);
      if r.ok then [ParseSection(phy, at)] + Parse(phy, limit, r.log, r.at) else []
  }

  lemma NoSections(phy: Octets, at: nat, log: Octets)
    requires at <= |phy| && |log| % 2 == 0
    ensures At(phy, at, Encode([])) && Encode([]) == [] && WriteAll(log, []) == log
  {}

  /** A section followed by more sections. */
  lemma SectionFirst(phy: Octets, at: nat, log: Octets, s: Section, rest: seq<Section>)
    requires |log| % 2 == 0 && Readable(s) && InRange(s, |log|) && AllReadable(rest) && AllInRange(rest, |log|)
    requires At(phy, at, EncodeSection(s)) && At(phy, at + |EncodeSection(s)|, Encode(rest))
    ensures var ss := [s] + rest;
      && AllReadable(ss) && AllInRange(ss, |log|) && At(phy, at, Encode(ss))
      && |Encode(ss)| == |EncodeSection(s)| + |Encode(rest)|
      && WriteAll(log, ss) == WriteAll(WriteSection(log, s), rest)
  {
    hide Readable, InRange, WriteSection, EncodeSection, At;
    var ss := [s] + rest;
    assert ss[0] == s && ss[1..] == rest;
    AtSplit(phy, at, EncodeSection(s), Encode(rest));
  }

  /** Conversely, every map the decoder accepts is the encoding of readable, in-range sections,
      and the logical map is their overlay. */
  lemma {:induction false} ScanParses(phy: Octets, limit: nat, log: Octets, at: nat)
    requires Bounds(phy, limit, log) && Scan(phy, limit, log, at).ok && at <= |phy|
    ensures var ss := Parse(phy, limit, log, at);
      && AllReadable(ss) && AllInRange(ss, |log|) && At(phy, at, Encode(ss))
      && Scan(phy, limit, log, at) == Outcome(true, WriteAll(log, ss), at + |Encode(ss)|)
    decreases limit - at
  {
    hide Readable, InRange, SectionRead, WriteSection, ParseSection, EncodeSection, InvalidHeader, At;
    NoSections(phy, at, log);
    if at < limit && !InvalidHeader(phy[at], phy[at + 1]) {
      var r, s := SectionRead(phy, limit, log, at), ParseSection(phy, at);
      ParseSectionReads(phy, limit, log, at);
      ScanParses(phy, limit, r.log, r.at);
      SectionFirst(phy, at, log, s, Parse(phy, limit, r.log, r.at));
    }
  }

  /** A decoded byte that is not 0xff was written by a section of the physical map. */
  lemma DecodedMap(phy: Octets, limit: nat, size: nat)
    requires limit < |phy| && size % 2 == 0 && Scan(phy, limit, Blank(size), 0).ok
    ensures var ss, r := Parse(phy, limit, Blank(size), 0), Scan(phy, limit, Blank(size), 0);
      && |Encode(ss)| <= |phy| && phy[..|Encode(ss)|] == Encode(ss)
      && r.log == seq(size, a requires 0 <= a < size => LastWrite(ss, a, 0xff))
  {
    hide Readable, InRange, Encode, Scan, WriteAll, LastWrite, Parse;
    var log := Blank(size);
    ScanParses(phy, limit, log, 0);
    var ss := Parse(phy, limit, log, 0);
    assert phy[0..0 + |Encode(ss)|] == phy[..|Encode(ss)|];
    forall a | 0 <= a < size ensures WriteAll(log, ss)[a] == LastWrite(ss, a, 0xff) { WriteAllAt(log, ss, a); }
  }

  // ------------------------------------------------ two sections by hand

  lemma ExampleHeaders()
    ensures HeaderLength(0x1d) == 1
    ensures BlockOf(0x2f, 0x1e) == 9 && EnableOf(0x2f, 0x1e) == 0x0e && HeaderLength(0x2f) == 2
    ensures forall h: Byte :: BlockOf(0x1d, h) == 1 && EnableOf(0x1d, h) == 0x0d
  {}

  lemma ExampleWords()
    ensures !Enabled(0x0d, 0) && Enabled(0x0d, 1) && !Enabled(0x0d, 2) && !Enabled(0x0d, 3)
    ensures Enabled(0x0e, 0) && !Enabled(0x0e, 1) && !Enabled(0x0e, 2) && !Enabled(0x0e, 3)
    ensures LogicalIndex(1, 1) == 10 && LogicalIndex(9, 0) == 72
  {}

  /** Header 1d: block 1, word 1, which is bytes 10 and 11 of the logical map. */
  lemma ShortSection(phy: Octets, limit: nat, log: Octets, at: nat)
    requires Bounds(phy, limit, log) && at + 2 <= limit && |log| >= 12 && phy[at] == 0x1d
    ensures SectionRead(phy, limit, log, at) == Outcome(true, log[10 := phy[at + 1]][11 := phy[at + 2]], at + 3)
  {
    hide BlockOf, EnableOf, HeaderLength, Enabled, LogicalIndex;
    ExampleHeaders();
    ExampleWords();
    var l := PutWord(log, 10, phy[at + 1], phy[at + 2]);
    assert ReadWords(phy, limit, l, 1, 0x0d, 3, at + 3) == Outcome(true, l, at + 3);
    assert ReadWords(phy, limit, l, 1, 0x0d, 2, at + 3) == Outcome(true, l, at + 3);
    assert ReadWords(phy, limit, log, 1, 0x0d, 1, at + 1) == Outcome(true, l, at + 3);
  }

  /** Header 2f 1e: block 9, word 0, which is bytes 72 and 73. */
  lemma WideSection(phy: Octets, limit: nat, log: Octets, at: nat)
    requires Bounds(phy, limit, log) && at + 3 <= limit && |log| >= 74 && phy[at] == 0x2f && phy[at + 1] == 0x1e
    ensures SectionRead(phy, limit, log, at) == Outcome(true, log[72 := phy[at + 2]][73 := phy[at + 3]], at + 4)
  {
    hide BlockOf, EnableOf, HeaderLength, Enabled, LogicalIndex;
    ExampleHeaders();
    ExampleWords();
    var l := PutWord(log, 72, phy[at + 2], phy[at + 3]);
    assert ReadWords(phy, limit, l, 9, 0x0e, 3, at + 4) == Outcome(true, l, at + 4);
    assert ReadWords(phy, limit, l, 9, 0x0e, 2, at + 4) == Outcome(true, l, at + 4);
    assert ReadWords(phy, limit, l, 9, 0x0e, 1, at + 4) == Outcome(true, l, at + 4);
  }
}
