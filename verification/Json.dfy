/** The daemon's one-line replies and the client's readers: a value is found by searching the
    line for its quoted key. */
module Json {
  import opened Options
  import opened Text

  predicate StartsWith(s: string, p: string) { |p| <= |s| && s[..|p|] == p }

  /** strstr: what follows the first occurrence of p. */
  function After(s: string, p: string): (r: Option<string>)
    decreases |s|
  {
    if StartsWith(s, p) then Some(s[|p|..])
    else if s == "" then None
    else After(s[1..], p)
  }

  // ------------------------------------------------ escaping

  function EscapeChar(c: char): (r: string)
    ensures |r| <= 2
  {
    if c == '"' || c == '\\' then ['\\', c]
    else if c == '\n' then "\\n"
    else if c < ' ' then ""
    else [c]
  }

  function Escape(s: string): (r: string)
    ensures |r| <= 2 * |s|
  {
    if s == "" then "" else EscapeChar(s[0]) + Escape(s[1..])
  }

  /** What survives: everything but control characters other than the line end. */
  function Printable(s: string): (r: string)
    ensures |r| <= |s|
  {
    if s == "" then ""
    else if s[0] < ' ' && s[0] != '\n' then Printable(s[1..])
    else [s[0]] + Printable(s[1..])
  }

  /** The escaped text that fits: one more character as long as more than two bytes are free. */
  function EscapeWithin(s: string, room: int): (r: string)
    ensures |r| < room || r == ""
  {
    if s == "" || room <= 2 then ""
    else EscapeChar(s[0]) + EscapeWithin(s[1..], room - |EscapeChar(s[0])|)
  }

  /** A string value in a buffer with the given free space. */
  function QuotedWithin(s: string, room: nat): (r: string)
    ensures |r| <= room
  {
    if room == 0 then "" else
      var body := "\"" + EscapeWithin(s, room - 1);
      if |body| < room then body + "\"" else body
  }

  lemma {:induction false} EscapeFits(s: string, room: int)
    requires 2 * |s| < room
    ensures EscapeWithin(s, room) == Escape(s)
    decreases |s|
  {
    hide EscapeChar;
    if s != "" { EscapeFits(s[1..], room - |EscapeChar(s[0])|); }
  }

  lemma QuotedFits(s: string, room: nat)
    requires 2 * |s| + 2 <= room
    ensures QuotedWithin(s, room) == "\"" + Escape(s) + "\""
  {
    hide Escape, EscapeWithin;
    EscapeFits(s, room - 1);
    var body := "\"" + EscapeWithin(s, room - 1);
    assert |body| < room;
  }

  lemma EscapeStep(s: string, i: nat, room: int)
    requires i <= |s|
    ensures i == |s| || room <= 2 ==> EscapeWithin(s[i..], room) == ""
    ensures i < |s| && room > 2 ==>
      EscapeWithin(s[i..], room) == EscapeChar(s[i]) + EscapeWithin(s[i + 1..], room - |EscapeChar(s[i])|)
  {
    hide EscapeChar;
    if i < |s| { assert s[i..][0] == s[i] && s[i..][1..] == s[i + 1..]; }
  }

  lemma Regroup(a: string, b: string, c: string)
    ensures a + (b + c) == a + b + c
  {}

  /** The loop of json_str, between the quotes. */
  method PutEscaped(dst: array<char>, len: nat, s: string) returns (n: nat)
    requires len <= dst.Length
    modifies dst
    ensures n <= dst.Length && dst[..n] == old(dst[..len]) + EscapeWithin(s, dst.Length - len)
  {
    hide EscapeWithin, EscapeChar;
    var cap := dst.Length;
    ghost var goal := dst[..len] + EscapeWithin(s, cap - len);
    n := len;
    var i := 0;
    assert s[0..] == s;
    while i < |s| && n + 2 < cap
      invariant i <= |s| && len <= n <= cap
      invariant dst[..n] + EscapeWithin(s[i..], cap - n) == goal
    {
      EscapeStep(s, i, cap - n);
      Regroup(dst[..n], EscapeChar(s[i]), EscapeWithin(s[i + 1..], cap - n - |EscapeChar(s[i])|));
      n := PutChar(dst, n, s[i]);
      i := i + 1;
    }
    EscapeStep(s, i, cap - n);
  }

  /** json_str: every write stays below the capacity. */
  method JsonStr(dst: array<char>, len: nat, s: string) returns (n: nat)
    requires len <= dst.Length
    modifies dst
    ensures n <= dst.Length && dst[..n] == old(dst[..len]) + QuotedWithin(s, dst.Length - len)
  {
    hide EscapeWithin, EscapeChar;
    var cap := dst.Length;
    ghost var was := dst[..len];
    n := len;
    if n == cap {
      return;
    }
    dst[n] := '"';
    n := n + 1;
    ghost var goal := was + ("\"" + EscapeWithin(s, cap - n));
    assert dst[..n] == was + "\"";
    Regroup(was, "\"", EscapeWithin(s, cap - n));
    n := PutEscaped(dst, n, s);
    assert dst[..n] == goal;
    if n < cap {
      dst[n] := '"';
      n := n + 1;
      assert dst[..n] == goal + "\"";
    }
  }

  /** One character of a string value. */
  method PutChar(dst: array<char>, at: nat, c: char) returns (n: nat)
    requires at + 2 < dst.Length
    modifies dst
    ensures n == at + |EscapeChar(c)| && dst[..n] == old(dst[..at]) + EscapeChar(c)
  {
    n := at;
    if c == '"' || c == '\\' {
      dst[n], dst[n + 1] := '\\', c;
      n := n + 2;
    } else if c == '\n' {
      dst[n], dst[n + 1] := '\\', 'n';
      n := n + 2;
    } else if c < ' ' {
    } else {
      dst[n] := c;
      n := n + 1;
    }
  }

  /** appendf with its text already formatted: what does not fit is cut, and a zero byte follows. */
  method Append(dst: array<char>, len: nat, t: string) returns (n: nat)
    requires len <= dst.Length
    modifies dst
    ensures len < dst.Length ==> n == (if len + |t| <= dst.Length then len + |t| else dst.Length)
    ensures len == dst.Length ==> n == len && dst[..] == old(dst[..])
    ensures len + |t| < dst.Length ==> dst[..n] == old(dst[..len]) + t && dst[n] == '\0'
    ensures len < dst.Length <= len + |t| ==>
      dst[..n - 1] == old(dst[..len]) + t[..dst.Length - 1 - len] && dst[n - 1] == '\0'
  {
    if len == dst.Length {
      return len;
    }
    var k := if |t| < dst.Length - len then |t| else dst.Length - 1 - len;
    forall i | 0 <= i < k { dst[len + i] := t[i]; }
    dst[len + k] := '\0';
    n := len + |t|;
    if n > dst.Length { n := dst.Length; }
  }

  // ------------------------------------------------ the client's readers

  const PATTERN_MAX: nat := 63

  function Pattern(key: string, tail: string): string { Take("\"" + key + "\":" + tail, PATTERN_MAX) }

  /** The value up to its closing quote, at most room characters. */
  function Unescape(s: string, room: nat): (r: string)
    ensures |r| <= room
    decreases |s|
  {
    if s == "" || s[0] == '"' || room == 0 then ""
    else if s[0] == '\\' && |s| > 1 then [if s[1] == 'n' then '\n' else s[1]] + Unescape(s[2..], room - 1)
    else [s[0]] + Unescape(s[1..], room - 1)
  }

  function StringField(line: string, key: string, room: nat): Option<string> {
    match After(line, Pattern(key, "\"")) case Some(t) => Some(Unescape(t, room)) case None => None
  }

  /** The character an encoded position stands for, and how much of the text it takes. */
  function Decoded(t: string, p: nat): char
    requires p < |t|
  {
    if t[p] == '\\' && p + 1 < |t| then if t[p + 1] == 'n' then '\n' else t[p + 1] else t[p]
  }

  function Taken(t: string, p: nat): (w: nat)
    requires p < |t|
    ensures 1 <= w <= |t| - p
  {
    if t[p] == '\\' && p + 1 < |t| then 2 else 1
  }

  lemma UnescapeStep(t: string, p: nat, room: nat)
    requires p <= |t|
    ensures p == |t| || t[p] == '"' || room == 0 ==> Unescape(t[p..], room) == ""
    ensures p < |t| && t[p] != '"' && room > 0 ==>
      Unescape(t[p..], room) == [Decoded(t, p)] + Unescape(t[p + Taken(t, p)..], room - 1)
  {
    if p < |t| { assert t[p..][1..] == t[p + 1..]; }
    if p + 1 < |t| { assert t[p..][2..] == t[p + 2..]; }
  }

  method StoreAt(out: array<char>, n: nat, c: char)
    requires n < out.Length
    modifies out
    ensures out[..n + 1] == old(out[..n]) + [c]
  {
    out[n] := c;
  }

  /** The copying loop of js_str. */
  method CopyValue(t: string, out: array<char>) returns (n: nat)
    requires out.Length >= 1
    modifies out
    ensures n < out.Length && out[n] == '\0' && out[..n] == Unescape(t, out.Length - 1)
  {
    hide Unescape;
    var p := 0;
    n := 0;
    assert t[0..] == t;
    while p < |t| && t[p] != '"' && n + 1 < out.Length
      invariant p <= |t| && n < out.Length
      invariant out[..n] + Unescape(t[p..], out.Length - 1 - n) == Unescape(t, out.Length - 1)
    {
      UnescapeStep(t, p, out.Length - 1 - n);
      Regroup(out[..n], [Decoded(t, p)], Unescape(t[p + Taken(t, p)..], out.Length - 2 - n));
      var c, w := t[p], 1;
      if t[p] == '\\' && p + 1 < |t| {
        c, w := if t[p + 1] == 'n' then '\n' else t[p + 1], 2;
      }
      StoreAt(out, n, c);
      n := n + 1;
      p := p + w;
    }
    UnescapeStep(t, p, out.Length - 1 - n);
    out[n] := '\0';
  }

  /** js_str, writing the value and its zero byte into a buffer. */
  method JsStr(line: string, key: string, out: array<char>) returns (found: bool, n: nat)
    requires out.Length >= 1
    modifies out
    ensures found == StringField(line, key, out.Length - 1).Some?
    ensures found ==> n < out.Length && out[n] == '\0' && out[..n] == StringField(line, key, out.Length - 1).value
  {
    hide After, Pattern, Unescape;
    match After(line, Pattern(key, "\""))
    case None =>
      return false, 0;
    case Some(t) =>
      n := CopyValue(t, out);
      return true, n;
  }

  datatype Flag = Missing | No | Yes

  function BoolField(line: string, key: string): Flag {
    match After(line, Pattern(key, ""))
    case None => Missing
    case Some(t) => if StartsWith(t, "true") then Yes else No
  }

  /** The leading digits of a text. */
  function DigitRun(s: string): (r: string)
    ensures forall i :: 0 <= i < |r| ==> IsDigit(r[i])
  {
    if s == "" || !IsDigit(s[0]) then "" else [s[0]] + DigitRun(s[1..])
  }

  predicate IsSpace(c: char) { c == ' ' || '\t' <= c <= '\r' }

  function SkipSpace(s: string): string {
    if s != "" && IsSpace(s[0]) then SkipSpace(s[1..]) else s
  }

  /** strtol in base ten, without its overflow. */
  function LeadingInt(s: string): int {
    var t := SkipSpace(s);
    if t != "" && t[0] == '-' then 0 - DecimalValue(DigitRun(t[1..]))
    else if t != "" && t[0] == '+' then DecimalValue(DigitRun(t[1..]))
    else DecimalValue(DigitRun(t))
  }

  function IntField(line: string, key: string, default: int): int {
    match After(line, Pattern(key, "")) case Some(t) => LeadingInt(t) case None => default
  }

  // ------------------------------------------------ escaping is undone

  lemma {:induction false} UnescapeEscape(s: string, rest: string, room: nat)
    requires |s| <= room
    ensures Unescape(Escape(s) + "\"" + rest, room) == Printable(s)
    decreases |s|
  {
    hide EscapeChar;
    var tail := "\"" + rest;
    if s == "" {
      assert Escape(s) + "\"" + rest == tail;
    } else {
      var c, more := s[0], Escape(s[1..]) + "\"" + rest;
      assert Escape(s) + "\"" + rest == EscapeChar(c) + more;
      if c < ' ' && c != '\n' {
        UnescapeEscape(s[1..], rest, room);
      } else {
        UnescapeEscape(s[1..], rest, room - 1);
      }
      UnescapeOne(c, more, room);
    }
  }

  lemma UnescapeOne(c: char, more: string, room: nat)
    requires room > 0
    ensures Unescape(EscapeChar(c) + more, room) ==
      if c < ' ' && c != '\n' then Unescape(more, room) else [c] + Unescape(more, room - 1)
  {
    var e := EscapeChar(c);
    assert |e| == 0 ==> e + more == more;
    assert |e| == 1 ==> (e + more)[1..] == more;
    assert |e| == 2 ==> (e + more)[2..] == more;
  }

  /** Every quote is behind a backslash. */
  ghost predicate QuotesEscaped(b: string) {
    forall i :: 0 <= i < |b| && b[i] == '"' ==> i > 0 && b[i - 1] == '\\'
  }

  lemma {:induction false} EscapeQuotes(s: string)
    ensures QuotesEscaped(Escape(s)) && '\n' !in Escape(s)
  {
    if s != "" {
      var e, r := EscapeChar(s[0]), Escape(s[1..]);
      EscapeQuotes(s[1..]);
      assert forall i :: |e| <= i < |e + r| ==> (e + r)[i] == r[i - |e|];
    }
  }

  /** The escapes of the format: a backslash in front of quotes and backslashes, and \n for a line end. */
  lemma EscapesAre(more: string, room: nat)
    requires room > 0
    ensures Escape("\"") == "\\\"" && Escape("\\") == "\\\\" && Escape("\n") == "\\n" && Escape("\r") == Escape("\t") == ""
    ensures Unescape("\\n" + more, room) == "\n" + Unescape(more, room - 1)
    ensures Unescape("\\\"" + more, room) == "\"" + Unescape(more, room - 1)
    ensures Unescape("\\\\" + more, room) == "\\" + Unescape(more, room - 1)
  {
    assert ("\\n" + more)[2..] == more && ("\\\"" + more)[2..] == more && ("\\\\" + more)[2..] == more;
    assert Escape("") == "";
    assert "\""[1..] == "" && "\\"[1..] == "" && "\n"[1..] == "" && "\r"[1..] == "" && "\t"[1..] == "";
  }

  // ------------------------------------------------ lines made of fields

  /** A key, a string value with the comma behind it, or text without quotes. */
  datatype Piece = Name(name: string) | Str(body: string) | Raw(text: string)

  function Show(p: Piece): string {
    match p
    case Name(n) => "\"" + n + "\":"
    case Str(b) => "\"" + b + "\","
    case Raw(t) => t
  }

  function Render(ps: seq<Piece>): string {
    if ps == [] then "" else Show(ps[0]) + Render(ps[1..])
  }

  ghost predicate GoodPiece(p: Piece) {
    match p
    case Name(n) => '"' !in n
    case Str(b) => QuotesEscaped(b)
    case Raw(t) => '"' !in t
  }

  /** Keys the readers are asked for. */
  ghost predicate GoodKey(key: string) {
    1 <= |key| <= 59 && '"' !in key && '\\' !in key && key[0] != ',' && key[0] != ':'
  }

  /** The text behind the first field with this key. */
  function Field(ps: seq<Piece>, key: string): Option<string> {
    if ps == [] then None
    else if ps[0] == Name(key) then Some(Render(ps[1..]))
    else Field(ps[1..], key)
  }

  ghost predicate IsMatch(s: string, p: nat, key: string) {
    && p + |key| + 2 < |s| && s[p] == '"' && s[p + 1 + |key|] == '"' && s[p + 2 + |key|] == ':'
    && forall i :: p < i <= p + |key| ==> s[i] == key[i - p - 1]
  }

  lemma PatternMatches(s: string, p: nat, key: string, tail: string)
    requires p <= |s| && |key| <= 59 && |tail| <= 1 && StartsWith(s[p..], Pattern(key, tail))
    ensures IsMatch(s, p, key)
  {
    var pat := "\"" + key + "\":" + tail;
    assert pat == Pattern(key, tail);
    assert forall i :: 0 <= i < |pat| ==> pat[i] == s[p..][..|pat|][i] == s[p + i];
    assert forall i :: 0 <= i < |key| ==> pat[i + 1] == key[i];
    assert pat[1 + |key|] == '"' && pat[2 + |key|] == ':';
    forall i | p < i <= p + |key| ensures s[i] == key[i - p - 1] { assert pat[i - p] == s[p + (i - p)]; }
    assert s[p + (1 + |key|)] == '"' && s[p + (2 + |key|)] == ':' && s[p + 0] == '"';
  }

  /** No occurrence starts inside a piece, unless the piece is the key itself. */
  lemma NoMatchInRaw(t: string, rest: string, p: nat, key: string)
    requires p < |t| && '"' !in t
    ensures !IsMatch(t + rest, p, key)
  {
    assert (t + rest)[p] == t[p];
  }

  lemma NoMatchInName(n: string, rest: string, p: nat, key: string)
    requires p < |n| + 3 && '"' !in n && GoodKey(key) && n != key
    ensures !IsMatch(Show(Name(n)) + rest, p, key)
  {
    var s := Show(Name(n)) + rest;
    assert forall i :: 0 <= i < |n| ==> s[i + 1] == n[i];
    assert forall i :: 1 <= i <= |n| ==> s[i] == n[i - 1];
    assert s[|n| + 1] == '"' && s[|n| + 2] == ':';
  }

  lemma NoMatchInString(b: string, rest: string, p: nat, key: string)
    requires p < |b| + 3 && QuotesEscaped(b) && GoodKey(key)
    ensures !IsMatch(Show(Str(b)) + rest, p, key)
  {
    hide QuotesEscaped;
    var s := Show(Str(b)) + rest;
    assert forall i :: 1 <= i <= |b| ==> s[i] == b[i - 1];
    assert s[|b| + 1] == '"' && s[|b| + 2] == ',';
    if p <= |b| { NoMatchInBody(s, b, p, key); }
  }

  lemma NoMatchInBody(s: string, b: string, p: nat, key: string)
    requires p <= |b| && QuotesEscaped(b) && GoodKey(key) && |b| + 3 <= |s|
    requires (forall i :: 1 <= i <= |b| ==> s[i] == b[i - 1]) && s[|b| + 1] == '"' && s[|b| + 2] == ','
    ensures !IsMatch(s, p, key)
  {
    var q := p + 1 + |key|;
    assert 2 <= q <= |b| && s[q] == '"' ==> s[q - 1] == '\\';
  }

  lemma NoMatchInPiece(x: Piece, rest: string, p: nat, key: string)
    requires GoodPiece(x) && GoodKey(key) && x != Name(key) && p < |Show(x)|
    ensures !IsMatch(Show(x) + rest, p, key)
  {
    hide IsMatch, GoodKey, QuotesEscaped;
    match x
    case Name(n) => NoMatchInName(n, rest, p, key);
    case Str(b) => NoMatchInString(b, rest, p, key);
    case Raw(t) => NoMatchInRaw(t, rest, p, key);
  }

  lemma {:induction false} AfterSkips(s: string, k: nat, pat: string)
    requires k <= |s| && forall p :: 0 <= p < k ==> !StartsWith(s[p..], pat)
    ensures After(s, pat) == After(s[k..], pat)
    decreases k
  {
    hide StartsWith;
    if k == 0 {
      assert s[0..] == s;
    } else {
      assert s[0..] == s && s[1..][k - 1..] == s[k..];
      assert forall p :: 0 <= p < k - 1 ==> s[1..][p..] == s[p + 1..];
      AfterSkips(s[1..], k - 1, pat);
    }
  }

  lemma SkipPiece(x: Piece, rest: string, key: string, tail: string)
    requires GoodPiece(x) && GoodKey(key) && x != Name(key) && |tail| <= 1
    ensures After(Show(x) + rest, Pattern(key, tail)) == After(rest, Pattern(key, tail))
  {
    hide IsMatch, Show, Pattern, GoodPiece, After, StartsWith;
    var s, k := Show(x) + rest, |Show(x)|;
    forall p | 0 <= p < k ensures !StartsWith(s[p..], Pattern(key, tail)) {
      NoMatchInPiece(x, rest, p, key);
      if StartsWith(s[p..], Pattern(key, tail)) { PatternMatches(s, p, key, tail); }
    }
    AfterSkips(s, k, Pattern(key, tail));
    assert s[k..] == rest;
  }

  lemma FoundPiece(rest: string, key: string, tail: string)
    requires |key| <= 59 && |tail| <= 1 && StartsWith(rest, tail)
    ensures After(Show(Name(key)) + rest, Pattern(key, tail)) == Some(rest[|tail|..])
  {
    var s, pat := Show(Name(key)) + rest, "\"" + key + "\":" + tail;
    assert pat == Pattern(key, tail);
    assert rest == tail + rest[|tail|..];
    assert s == pat + rest[|tail|..];
    assert s[..|pat|] == pat && s[|pat|..] == rest[|tail|..];
  }

  lemma FoundNothing(key: string, tail: string)
    ensures After("", Pattern(key, tail)) == None
  {
    assert |"\"" + key + "\":" + tail| >= 3;
  }

  /** Searching a rendered line finds the first field with the key, whatever the strings contain. */
  lemma {:induction false} AfterRender(ps: seq<Piece>, key: string, tail: string)
    requires (forall i :: 0 <= i < |ps| ==> GoodPiece(ps[i])) && GoodKey(key) && |tail| <= 1
    requires Field(ps, key).Some? ==> StartsWith(Field(ps, key).value, tail)
    ensures After(Render(ps), Pattern(key, tail)) ==
      match Field(ps, key) case Some(t) => Some(t[|tail|..]) case None => None
    decreases |ps|
  {
    hide Show, Pattern, GoodPiece, After, StartsWith, GoodKey;
    if ps == [] {
      FoundNothing(key, tail);
    } else if ps[0] == Name(key) {
      KeyShort(key);
      FoundPiece(Render(ps[1..]), key, tail);
      TailFits(Render(ps[1..]), tail);
    } else {
      SkipPiece(ps[0], Render(ps[1..]), key, tail);
      AfterRender(ps[1..], key, tail);
    }
  }

  lemma KeyShort(key: string)
    requires GoodKey(key)
    ensures |key| <= 59
  {}

  lemma TailFits(s: string, tail: string)
    requires StartsWith(s, tail)
    ensures |tail| <= |s|
  {}
}
