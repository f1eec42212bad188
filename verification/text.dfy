/**
 Line-level text handling shared by both edge-list readers and the writer:
 splitting a line on whitespace (Rust's `str::split_whitespace`), parsing a
 token as a `usize` (Rust's `str::parse::<usize>`), printing a number in
 decimal (Rust's `{}` formatting of an integer), and the shape of an edge line.

 Simplifications: whitespace is the ASCII subset of Rust's `char::is_whitespace`
 (tab, line feed, vertical tab, form feed, carriage return, space); the Unicode
 spaces beyond ASCII are not modelled. `usize` is taken to be 64 bits wide.
 */
module Text {
  import opened Wrappers

  /** Largest value of a 64-bit `usize`; a longer decimal string fails to parse. */
  const UsizeMax: nat := 0xFFFF_FFFF_FFFF_FFFF

  predicate IsSpace(c: char) {
    c == ' ' || ('\t' <= c <= '\r')
  }

  predicate IsDigit(c: char) {
    '0' <= c <= '9'
  }

  predicate NoSpace(s: string) {
    forall i :: 0 <= i < |s| ==> !IsSpace(s[i])
  }

  predicate AllDigits(s: string) {
    forall i :: 0 <= i < |s| ==> IsDigit(s[i])
  }

  /** A line with nothing but whitespace, the empty line included. */
  predicate Blank(s: string) {
    forall i :: 0 <= i < |s| ==> IsSpace(s[i])
  }

  /** A token as `split_whitespace` yields it: non-empty and free of whitespace. */
  predicate IsToken(t: string) {
    |t| > 0 && NoSpace(t)
  }

  // ---------------------------------------------------------------------------
  // Splitting on whitespace
  // ---------------------------------------------------------------------------

  /** Length of the run of non-whitespace characters at the front of `s`. */
  function TokenLength(s: string): (n: nat)
    ensures n <= |s|
    decreases |s|
  {
    if |s| == 0 || IsSpace(s[0]) then 0
    else 1 + TokenLength(s[1..])
  }

  /** The run `TokenLength` measures is whitespace-free and ends at whitespace or at the end. */
  lemma {:induction false} TokenLengthIsMaximal(s: string)
    ensures NoSpace(s[..TokenLength(s)])
    ensures TokenLength(s) < |s| ==> IsSpace(s[TokenLength(s)])
    decreases |s|
  {
    if |s| > 0 && !IsSpace(s[0]) {
      var m := TokenLength(s[1..]);
      TokenLengthIsMaximal(s[1..]);
      assert s[..m + 1] == [s[0]] + s[1..][..m];
    }
  }

  /**
   The maximal whitespace-free runs of `s`, left to right: leading, trailing and
   repeated whitespace produce no empty tokens, as with `split_whitespace`.
   */
  function Tokens(s: string): seq<string>
    decreases |s|
  {
    if |s| == 0 then []
    else if IsSpace(s[0]) then Tokens(s[1..])
    else
      var n := TokenLength(s);
      [s[..n]] + Tokens(s[n..])
  }

  /** A line splits into no tokens exactly when it is blank. */
  lemma {:induction false} NoTokensIffBlank(s: string)
    ensures |Tokens(s)| == 0 <==> Blank(s)
    decreases |s|
  {
    if |s| > 0 && IsSpace(s[0]) {
      NoTokensIffBlank(s[1..]);
      assert forall i :: 0 < i < |s| ==> s[i] == s[1..][i - 1];
    }
  }

  /** Every piece `Tokens` yields is a token: non-empty and whitespace-free. */
  lemma {:induction false} TokensAreTokens(s: string)
    ensures forall i :: 0 <= i < |Tokens(s)| ==> IsToken(Tokens(s)[i])
    decreases |s|
  {
    if |s| > 0 {
      if IsSpace(s[0]) {
        TokensAreTokens(s[1..]);
      } else {
        var n := TokenLength(s);
        TokenLengthIsMaximal(s);
        TokensAreTokens(s[n..]);
        var ts := Tokens(s);
        forall i | 0 <= i < |ts| ensures IsToken(ts[i]) {
          if i > 0 {
            assert ts[i] == Tokens(s[n..])[i - 1];
          }
        }
      }
    }
  }

  /** The words of `ts` joined by single spaces: the inverse of `Tokens` on tokens. */
  function Unwords(ts: seq<string>): string
    decreases |ts|
  {
    if |ts| == 0 then ""
    else if |ts| == 1 then ts[0]
    else ts[0] + " " + Unwords(ts[1..])
  }

  lemma {:induction false} TokenLengthOfToken(t: string, rest: string)
    requires IsToken(t)
    requires |rest| == 0 || IsSpace(rest[0])
    ensures TokenLength(t + rest) == |t|
    decreases |t|
  {
    var s := t + rest;
    if |t| == 1 {
      assert s[1..] == rest;
      if |rest| > 0 {
        assert TokenLength(rest) == 0;
      }
    } else {
      assert s[1..] == t[1..] + rest;
      TokenLengthOfToken(t[1..], rest);
    }
  }

  /** A leading token followed by whitespace or the end of the line is split off whole. */
  lemma {:induction false} TokensOfTokenThen(t: string, rest: string)
    requires IsToken(t)
    requires |rest| == 0 || IsSpace(rest[0])
    ensures Tokens(t + rest) == [t] + Tokens(rest)
  {
    var s := t + rest;
    TokenLengthOfToken(t, rest);
    assert s[..|t|] == t;
    assert s[|t|..] == rest;
  }

  /** Splitting joined tokens gives the tokens back. */
  lemma {:induction false} TokensOfUnwords(ts: seq<string>)
    requires forall i :: 0 <= i < |ts| ==> IsToken(ts[i])
    ensures Tokens(Unwords(ts)) == ts
    decreases |ts|
  {
    if |ts| == 0 {
    } else if |ts| == 1 {
      TokensOfTokenThen(ts[0], "");
      assert ts[0] + "" == ts[0];
    } else {
      var tail := Unwords(ts[1..]);
      var rest := " " + tail;
      assert Unwords(ts) == ts[0] + rest;
      TokensOfTokenThen(ts[0], rest);
      assert rest[1..] == tail;
      TokensOfUnwords(ts[1..]);
      assert ts == [ts[0]] + ts[1..];
    }
  }

  /** A line of two tokens separated by one space splits into exactly those two tokens. */
  lemma TokensOfPair(a: string, b: string)
    requires IsToken(a) && IsToken(b)
    ensures Tokens(a + " " + b) == [a, b]
  {
    TokensOfUnwords([a, b]);
    assert Unwords([a, b]) == a + " " + Unwords([b]);
  }

  // ---------------------------------------------------------------------------
  // Decimal numbers
  // ---------------------------------------------------------------------------

  function DigitValue(c: char): (d: nat)
    requires IsDigit(c)
    ensures d < 10
  {
    c as int - '0' as int
  }

  function DigitChar(d: nat): (c: char)
    requires d < 10
    ensures IsDigit(c) && DigitValue(c) == d
  {
    ('0' as int + d) as char
  }

  /** The number a string of decimal digits denotes, most significant digit first. */
  function DigitsValue(s: string): nat
    requires AllDigits(s)
    decreases |s|
  {
    if |s| == 0 then 0
    else DigitsValue(s[..|s| - 1]) * 10 + DigitValue(s[|s| - 1])
  }

  /**
   Parses a token as a 64-bit `usize`: an optional `+` sign, then at least one
   ASCII digit (leading zeros allowed), with a value that fits. Anything else,
   including a `-` sign, is an error.
   */
  function ParseUsize(t: string): (r: Option<nat>)
    ensures r.Some? ==> r.value <= UsizeMax
    ensures r.Some? ==> |t| > 0 && (t[0] == '+' || IsDigit(t[0]))
  {
    var digits := if |t| > 0 && t[0] == '+' then t[1..] else t;
    if |digits| == 0 || !AllDigits(digits) then None
    else
      var n := DigitsValue(digits);
      if n <= UsizeMax then Some(n) else None
  }

  /** The decimal representation of `n`, without sign or leading zeros. */
  function NatToString(n: nat): (r: string)
    ensures |r| > 0 && AllDigits(r)
    ensures r[0] == '0' <==> n == 0
    decreases n
  {
    if n < 10 then [DigitChar(n)]
    else NatToString(n / 10) + [DigitChar(n % 10)]
  }

  lemma {:induction false} NatToStringShape(n: nat)
    ensures DigitsValue(NatToString(n)) == n
    decreases n
  {
    if n >= 10 {
      NatToStringShape(n / 10);
      var s := NatToString(n);
      assert s[..|s| - 1] == NatToString(n / 10);
    }
  }

  /** Printing a `usize` in decimal and parsing it back gives the same number. */
  lemma ParsePrintRoundTrip(n: nat)
    requires n <= UsizeMax
    ensures IsToken(NatToString(n))
    ensures ParseUsize(NatToString(n)) == Some(n)
  {
    NatToStringShape(n);
    var s := NatToString(n);
    assert IsDigit(s[0]);
  }

  // ---------------------------------------------------------------------------
  // Edge lines
  // ---------------------------------------------------------------------------

  /** How an input line reads as an edge: not two tokens, or two parse results. */
  datatype LineShape = NotAPair | Pair(source: Option<nat>, target: Option<nat>)

  function ClassifyLine(line: string): (r: LineShape)
    ensures r.Pair? && r.source.Some? ==> r.source.value <= UsizeMax
    ensures r.Pair? && r.target.Some? ==> r.target.value <= UsizeMax
    ensures |line| > 0 && line[0] == '#' ==> !(r.Pair? && r.source.Some?)
  {
    HashStartsFirstToken(line);
    var parts := Tokens(line);
    if |parts| != 2 then NotAPair
    else Pair(ParseUsize(parts[0]), ParseUsize(parts[1]))
  }

  /** A line whose first character is `#` has a first token that starts with `#`. */
  lemma HashStartsFirstToken(line: string)
    ensures |line| > 0 && line[0] == '#' ==>
      |Tokens(line)| > 0 && |Tokens(line)[0]| > 0 && Tokens(line)[0][0] == '#'
  {
    if |line| > 0 && line[0] == '#' {
      assert !IsSpace(line[0]);
      var n := TokenLength(line);
      assert Tokens(line)[0] == line[..n];
    }
  }
}
