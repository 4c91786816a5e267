/** C strings as character sequences, one character per byte, and the trimming, searching and
    number printing that the configuration file and the daemon's replies share. */
module Text {
  /** strncpy into a buffer of n + 1 bytes. */
  function Take(s: string, n: nat): (r: string)
    ensures |r| <= n && (|s| <= n ==> r == s)
  {
    if |s| <= n then s else s[..n]
  }

  // ------------------------------------------------ trimming

  predicate Blank(c: char) { c == ' ' || c == '\t' }

  predicate Space(c: char) { c == '\n' || c == '\r' || c == ' ' || c == '\t' }

  function TrimLeft(s: string): (r: string)
    ensures |r| <= |s|
    decreases |s|
  {
    if s != "" && Blank(s[0]) then TrimLeft(s[1..]) else s
  }

  function TrimRight(s: string): (r: string)
    ensures |r| <= |s|
    decreases |s|
  {
    if s != "" && Space(s[|s| - 1]) then TrimRight(s[..|s| - 1]) else s
  }

  function Trim(s: string): string { TrimRight(TrimLeft(s)) }

  /** A value that stands on one line and that trimming leaves alone. */
  predicate Clean(s: string) {
    '\n' !in s && (s == "" || (s[0] !in {' ', '\t'} && s[|s| - 1] !in {' ', '\t', '\r', '\n'}))
  }

  ghost predicate AllBlank(s: string) { forall i :: 0 <= i < |s| ==> Blank(s[i]) }

  lemma {:induction false} TrimLeftBlanks(b: string, s: string)
    requires AllBlank(b)
    ensures TrimLeft(b + s) == TrimLeft(s)
    decreases |b|
  {
    if b == "" {
      assert b + s == s;
    } else {
      assert (b + s)[0] == b[0] && (b + s)[1..] == b[1..] + s;
      TrimLeftBlanks(b[1..], s);
    }
  }

  lemma {:induction false} TrimRightSpaces(s: string, b: string)
    requires forall i :: 0 <= i < |b| ==> Space(b[i])
    ensures TrimRight(s + b) == TrimRight(s)
    decreases |b|
  {
    if b == "" {
      assert s + b == s;
    } else {
      var n := |b| - 1;
      assert (s + b)[|s| + n] == b[n] && (s + b)[..|s| + n] == s + b[..n];
      TrimRightSpaces(s, b[..n]);
    }
  }

  /** Trimming takes off exactly the blanks around a clean value and its line end. */
  lemma TrimPadded(b: string, v: string, e: string)
    requires AllBlank(b) && Clean(v) && (e == "\n" || AllBlank(e))
    ensures Trim(b + v + e) == v
  {
    assert b + v + e == b + (v + e);
    TrimLeftBlanks(b, v + e);
    BlanksAreSpaces(e);
    if v == "" {
      assert v + e == e;
      TrimOnlySpaces(e);
    } else {
      assert (v + e)[0] == v[0];
      TrimRightSpaces(v, e);
    }
  }

  lemma BlanksAreSpaces(e: string)
    requires e == "\n" || AllBlank(e)
    ensures forall i :: 0 <= i < |e| ==> Space(e[i])
  {}

  lemma TrimOnlySpaces(e: string)
    requires e == "\n" || AllBlank(e)
    ensures TrimRight(TrimLeft(e)) == ""
  {
    if AllBlank(e) {
      TrimLeftBlanks(e, "");
      assert e + "" == e;
    } else {
      TrimRightSpaces("", e);
      assert "" + e == e;
    }
  }

  lemma {:induction false} TrimLeftBeforeEnd(v: string)
    requires '\n' !in v
    ensures TrimLeft(v + "\n") == TrimLeft(v) + "\n"
    decreases |v|
  {
    if v == "" {
      assert v + "\n" == "\n";
    } else {
      assert (v + "\n")[0] == v[0] && (v + "\n")[1..] == v[1..] + "\n";
      TrimLeftBeforeEnd(v[1..]);
    }
  }

  /** The blank in front of a value and the line end behind it are always trimmed off. */
  lemma TrimLine(v: string)
    requires '\n' !in v
    ensures Trim(" " + v + "\n") == Trim(v)
  {
    assert " " + v + "\n" == " " + (v + "\n");
    TrimLeftBlanks(" ", v + "\n");
    TrimLeftBeforeEnd(v);
    TrimRightSpaces(TrimLeft(v), "\n");
  }

  /** Trimming leaves exactly the clean one-line values alone. */
  lemma TrimFixed(v: string)
    requires '\n' !in v
    ensures Trim(v) == v <==> Clean(v)
  {
    assert |TrimRight(TrimLeft(v))| <= |TrimLeft(v)| <= |v|;
    if v != "" && Blank(v[0]) { assert |TrimLeft(v)| <= |v[1..]|; }
    if v != "" && !Blank(v[0]) && Space(v[|v| - 1]) { assert |TrimRight(v)| <= |v[..|v| - 1]|; }
  }

  /** No line end before the last character. */
  ghost predicate EndOnly(s: string) { forall i :: 0 <= i < |s| - 1 ==> s[i] != '\n' }

  lemma {:induction false} TrimLeftEnd(s: string)
    requires EndOnly(s)
    ensures EndOnly(TrimLeft(s))
    decreases |s|
  {
    if s != "" && Blank(s[0]) {
      assert forall i :: 0 <= i < |s[1..]| ==> s[1..][i] == s[i + 1];
      TrimLeftEnd(s[1..]);
    }
  }

  lemma {:induction false} TrimRightPart(s: string)
    ensures forall c :: c in TrimRight(s) ==> c in s
    decreases |s|
  {
    if s != "" && Space(s[|s| - 1]) { TrimRightPart(s[..|s| - 1]); }
  }

  /** What is trimmed from one line has no line end. */
  lemma TrimOneLine(s: string)
    requires EndOnly(s)
    ensures '\n' !in Trim(s)
  {
    TrimLeftEnd(s);
    var t := TrimLeft(s);
    if t != "" {
      TrimRightPart(t[..|t| - 1]);
      assert '\n' !in t[..|t| - 1];
      assert t == t[..|t| - 1] + [t[|t| - 1]];
    }
  }

  /** trim, in place on a buffer that holds n characters. */
  method TrimBuffer(s: array<char>, n: nat) returns (m: nat)
    requires n <= s.Length
    modifies s
    ensures m <= n && s[..m] == Trim(old(s[..n]))
  {
    hide Blank, Space;
    ghost var whole := s[..n];
    var p := 0;
    while p < n && Blank(s[p])
      invariant p <= n && TrimLeft(s[p..n]) == TrimLeft(whole)
    {
      assert s[p..n][1..] == s[p + 1..n];
      p := p + 1;
    }
    ghost var kept := s[p..n];
    assert kept == TrimLeft(whole);
    m := n - p;
    forall i | 0 <= i < m { s[i] := s[i + p]; }
    assert s[..m] == kept;
    while m > 0 && Space(s[m - 1])
      invariant m <= n && TrimRight(s[..m]) == TrimRight(kept)
    {
      assert s[..m][..m - 1] == s[..m - 1];
      m := m - 1;
    }
  }

  // ------------------------------------------------ searching

  /** strchr: the first position of a character, or the length. */
  function IndexOf(s: string, c: char): (i: nat)
    ensures i <= |s| && (i < |s| ==> s[i] == c) && forall k :: 0 <= k < i ==> s[k] != c
    decreases |s|
  {
    if s == "" then 0 else if s[0] == c then 0 else IndexOf(s[1..], c) + 1
  }

  lemma IndexOfAfter(a: string, c: char, b: string)
    requires c !in a
    ensures IndexOf(a + [c] + b, c) == |a|
  {
    var s := a + [c] + b;
    assert s[|a|] == c;
    assert forall k :: 0 <= k < |a| ==> s[k] == a[k];
  }

  // ------------------------------------------------ decimal numbers

  predicate IsDigit(c: char) { '0' <= c <= '9' }

  function DigitValue(c: char): (n: nat)
    requires IsDigit(c)
    ensures n < 10
  {
    c as int - '0' as int
  }

  function Digit(n: nat): (c: char)
    requires n < 10
    ensures IsDigit(c) && DigitValue(c) == n
  {
    "0123456789"[n]
  }

  function Decimal(n: nat): (s: string)
    ensures |s| >= 1 && forall i :: 0 <= i < |s| ==> IsDigit(s[i])
  {
    if n < 10 then [Digit(n)] else Decimal(n / 10) + [Digit(n % 10)]
  }

  function DecimalValue(s: string): nat
    requires forall i :: 0 <= i < |s| ==> IsDigit(s[i])
  {
    if s == "" then 0 else 10 * DecimalValue(s[..|s| - 1]) + DigitValue(s[|s| - 1])
  }

  lemma {:induction false} DecimalInverse(n: nat)
    ensures DecimalValue(Decimal(n)) == n
    ensures Decimal(n)[0] == '0' ==> Decimal(n) == "0"
    ensures n > 0 ==> Decimal(n)[0] != '0'
  {
    if n >= 10 {
      DecimalInverse(n / 10);
      var d := Digit(n % 10);
      assert (Decimal(n / 10) + [d])[..|Decimal(n)| - 1] == Decimal(n / 10);
    } else {
      assert [Digit(n)][..0] == "";
    }
  }
}
