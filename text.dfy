/**
 * String operations shared by the firmware and the dashboard: the
 * JavaScript `trim` and `split` of a string, the whitespace JSON allows
 * around a value, and the decimal rendering and reading of integers
 * (Arduino's `String(int)` and the integer case of a JSON number).
 */
module Text {
  import opened Optional

  // ---------------------------------------------------------------- Trimming

  /** The characters JavaScript's `String.prototype.trim` removes:
      the WhiteSpace and LineTerminator productions of ECMAScript. */
  predicate IsJsWhitespace(c: char) {
    || c == ' ' || c == '\t' || c == '\n' || c == '\r'
    || c == '\U{B}' || c == '\U{C}' || c == '\U{A0}' || c == '\U{1680}'
    || ('\U{2000}' <= c <= '\U{200A}')
    || c == '\U{2028}' || c == '\U{2029}' || c == '\U{202F}' || c == '\U{205F}'
    || c == '\U{3000}' || c == '\U{FEFF}'
  }

  /** The whitespace JSON allows around a value (section 2 of RFC 8259):
      space, horizontal tab, line feed and carriage return. */
  predicate IsJsonWhitespace(c: char) {
    c == ' ' || c == '\t' || c == '\n' || c == '\r'
  }

  /** `s` without its leading characters of class `ws`: empty, or starting
      with a character outside the class. */
  function TrimStart(s: string, ws: char -> bool): (r: string)
    ensures |r| <= |s|
    ensures r == [] || !ws(r[0])
  {
    if s != [] && ws(s[0]) then TrimStart(s[1..], ws) else s
  }

  /** `TrimStart` keeps a suffix of `s` and removes only characters of the class. */
  lemma {:induction false} TrimStartRemovesWhitespace(s: string, ws: char -> bool)
    ensures var r := TrimStart(s, ws);
            r == s[|s| - |r|..] && forall i :: 0 <= i < |s| - |r| ==> ws(s[i])
  {
    if s != [] && ws(s[0]) {
      TrimStartRemovesWhitespace(s[1..], ws);
      assert forall i :: 1 <= i < |s| - |TrimStart(s, ws)| ==> s[i] == s[1..][i - 1];
    }
  }

  /** `s` without its trailing characters of class `ws`: empty, or ending
      with a character outside the class. */
  function TrimEnd(s: string, ws: char -> bool): (r: string)
    ensures |r| <= |s|
    ensures r == [] || !ws(r[|r| - 1])
  {
    if s != [] && ws(s[|s| - 1]) then TrimEnd(s[..|s| - 1], ws) else s
  }

  /** `TrimEnd` keeps a prefix of `s` and removes only characters of the class. */
  lemma {:induction false} TrimEndRemovesWhitespace(s: string, ws: char -> bool)
    ensures var r := TrimEnd(s, ws);
            r == s[..|r|] && forall i :: |r| <= i < |s| ==> ws(s[i])
  {
    if s != [] && ws(s[|s| - 1]) {
      var front := s[..|s| - 1];
      TrimEndRemovesWhitespace(front, ws);
      assert forall i :: |TrimEnd(s, ws)| <= i < |front| ==> s[i] == front[i];
    }
  }

  /** `s` with the characters of class `ws` removed at both ends. */
  function TrimBy(s: string, ws: char -> bool): string {
    TrimEnd(TrimStart(s, ws), ws)
  }

  /** JavaScript's `s.trim()`. */
  function Trim(s: string): string {
    TrimBy(s, IsJsWhitespace)
  }

  /** The text of a JSON value without the whitespace JSON allows around it. */
  function JsonTrim(s: string): string {
    TrimBy(s, IsJsonWhitespace)
  }

  /** Trailing characters of the class do not change the trim. */
  lemma {:induction false} TrimIgnoresTrailing(s: string, w: string, ws: char -> bool)
    requires forall i :: 0 <= i < |w| ==> ws(w[i])
    requires s != [] && !ws(s[0]) && !ws(s[|s| - 1])
    ensures TrimBy(s + w, ws) == s
  {
    assert (s + w)[0] == s[0];
    assert TrimStart(s + w, ws) == s + w;
    TrimEndDrops(s, w, ws);
  }

  lemma {:induction false} TrimEndDrops(s: string, w: string, ws: char -> bool)
    requires forall i :: 0 <= i < |w| ==> ws(w[i])
    requires s != [] && !ws(s[|s| - 1])
    ensures TrimEnd(s + w, ws) == s
  {
    if w == [] {
      assert s + w == s;
    } else {
      var w' := w[..|w| - 1];
      assert (s + w)[..|s + w| - 1] == s + w';
      TrimEndDrops(s, w', ws);
    }
  }

  /** A string that starts with a character outside the class keeps that
      character first when trimmed. */
  lemma TrimKeepsSolidHead(s: string, ws: char -> bool)
    requires s != [] && !ws(s[0])
    ensures TrimBy(s, ws) != [] && TrimBy(s, ws)[0] == s[0]
  {
    assert TrimStart(s, ws) == s;
    TrimEndRemovesWhitespace(s, ws);
  }

  // --------------------------------------------------------------- Splitting

  /** JavaScript's `s.split(sep)` for a one-character separator: the pieces
      between separators, always at least one. */
  function Split(s: string, sep: char): (r: seq<string>)
    ensures |r| == multiset(s)[sep] + 1
    ensures forall i :: 0 <= i < |r| ==> sep !in r[i]
  {
    if s == [] then [[]]
    else
      var rest := Split(s[1..], sep);
      assert s == [s[0]] + s[1..];
      if s[0] == sep then [[]] + rest
      else [[s[0]] + rest[0]] + rest[1..]
  }

  /** The pieces with `sep` between each two of them: how the firmware puts
      the members of its JSON line together, and the inverse of `Split`. */
  function Join(pieces: seq<string>, sep: char): string
    requires pieces != []
  {
    if |pieces| == 1 then pieces[0] else pieces[0] + [sep] + Join(pieces[1..], sep)
  }

  /** A piece free of the separator, followed by the separator, splits off as one piece. */
  lemma {:induction false} SplitAfterPiece(p: string, sep: char, t: string)
    requires sep !in p
    ensures Split(p + [sep] + t, sep) == [p] + Split(t, sep)
  {
    var s := p + [sep] + t;
    if p == [] {
      assert s[1..] == t;
    } else {
      assert s[1..] == p[1..] + [sep] + t;
      SplitAfterPiece(p[1..], sep, t);
      assert [s[0]] + p[1..] == p;
    }
  }

  /** A string free of the separator is a single piece. */
  lemma {:induction false} SplitWithoutSeparator(p: string, sep: char)
    requires sep !in p
    ensures Split(p, sep) == [p]
  {
    if p != [] {
      SplitWithoutSeparator(p[1..], sep);
      assert [p[0]] + p[1..] == p;
    }
  }

  /** Splitting undoes joining, when no piece holds the separator. */
  lemma {:induction false} SplitJoin(pieces: seq<string>, sep: char)
    requires pieces != []
    requires forall i :: 0 <= i < |pieces| ==> sep !in pieces[i]
    ensures Split(Join(pieces, sep), sep) == pieces
  {
    if |pieces| == 1 {
      SplitWithoutSeparator(pieces[0], sep);
    } else {
      SplitJoin(pieces[1..], sep);
      SplitAfterPiece(pieces[0], sep, Join(pieces[1..], sep));
    }
  }

  lemma JoinCons(p: string, rest: seq<string>, sep: char)
    requires rest != []
    ensures Join([p] + rest, sep) == p + [sep] + Join(rest, sep)
  {
    assert ([p] + rest)[1..] == rest;
  }

  lemma JoinHead(c: char, p: string, rest: seq<string>, sep: char)
    ensures Join([[c] + p] + rest, sep) == [c] + Join([p] + rest, sep)
  {
    if rest != [] {
      JoinCons([c] + p, rest, sep);
      JoinCons(p, rest, sep);
    }
  }

  /** Joining undoes splitting. */
  lemma {:induction false} JoinSplit(s: string, sep: char)
    ensures Join(Split(s, sep), sep) == s
  {
    if s != [] {
      var tail := s[1..];
      var rest := Split(tail, sep);
      JoinSplit(tail, sep);
      assert s == [s[0]] + tail;
      if s[0] == sep {
        assert Split(s, sep) == [[]] + rest;
        JoinCons([], rest, sep);
      } else {
        assert Split(s, sep) == [[s[0]] + rest[0]] + rest[1..];
        assert rest == [rest[0]] + rest[1..];
        JoinHead(s[0], rest[0], rest[1..], sep);
      }
    }
  }

  // ----------------------------------------------------------------- Decimal

  predicate IsDigit(c: char) {
    '0' <= c <= '9'
  }

  predicate AllDigits(s: string) {
    forall i :: 0 <= i < |s| ==> IsDigit(s[i])
  }

  function DigitChar(d: nat): (c: char)
    requires d < 10
    ensures IsDigit(c)
  {
    ('0' as int + d) as char
  }

  function DigitValue(c: char): nat
    requires IsDigit(c)
  {
    c as int - '0' as int
  }

  /** The base-10 digits of `n`, most significant first, without leading zeros. */
  function NatDigits(n: nat): (s: string)
    ensures s != [] && AllDigits(s)
    ensures s[0] == '0' <==> n == 0
  {
    if n < 10 then [DigitChar(n)] else NatDigits(n / 10) + [DigitChar(n % 10)]
  }

  /** Arduino's `String(n)` for an `int`: an optional minus sign and the digits. */
  function DecimalString(n: int): (s: string)
    ensures s != [] && forall i :: 0 <= i < |s| ==> IsDigit(s[i]) || s[i] == '-'
  {
    if n < 0 then "-" + NatDigits(-n) else NatDigits(n)
  }

  /** The value of a string of digits. */
  function DigitsValue(s: string): nat
    requires AllDigits(s)
  {
    if s == [] then 0 else DigitsValue(s[..|s| - 1]) * 10 + DigitValue(s[|s| - 1])
  }

  /** A JSON integer: digits without a superfluous leading zero. */
  predicate IsJsonDigits(s: string) {
    s != [] && AllDigits(s) && (s[0] == '0' ==> |s| == 1)
  }

  /** Reads a JSON integer (`-`? digits); anything else is rejected. */
  function ParseDecimal(s: string): Option<int> {
    if s != [] && s[0] == '-' && IsJsonDigits(s[1..]) then Some(0 - DigitsValue(s[1..]))
    else if IsJsonDigits(s) then Some(DigitsValue(s))
    else None
  }

  /** The number of digits `s` starts with. */
  function LeadingDigits(s: string): (k: nat)
    ensures k <= |s| && (k == |s| || !IsDigit(s[k]))
    ensures forall i :: 0 <= i < k ==> IsDigit(s[i])
  {
    if s == [] || !IsDigit(s[0]) then 0
    else
      var k := LeadingDigits(s[1..]);
      assert forall i :: 1 <= i < k + 1 ==> s[i] == s[1..][i - 1];
      1 + k
  }

  /** A JSON number in fixed-point notation (section 6 of RFC 8259 without an
      exponent): an optional minus sign, an integer part without a
      superfluous leading zero, and optionally a point followed by digits.
      This is what formatting a finite float with a fixed number of decimals
      prints. */
  predicate IsJsonFixedPoint(t: string) {
    var u := if t != [] && t[0] == '-' then t[1..] else t;
    var k := LeadingDigits(u);
    IsJsonDigits(u[..k]) && (k == |u| || (u[k] == '.' && k + 1 < |u| && AllDigits(u[k + 1..])))
  }

  /** A fixed-point number is made of digits, a minus sign and a point only. */
  lemma FixedPointCharacters(t: string)
    requires IsJsonFixedPoint(t)
    ensures forall i :: 0 <= i < |t| ==> IsDigit(t[i]) || t[i] == '-' || t[i] == '.'
  {
    var u := if t != [] && t[0] == '-' then t[1..] else t;
    var k := LeadingDigits(u);
    var off := |t| - |u|;
    forall i | 0 <= i < |t| ensures IsDigit(t[i]) || t[i] == '-' || t[i] == '.' {
      if i >= off {
        var j := i - off;
        assert t[i] == u[j];
        if j > k {
          assert u[j] == u[k + 1..][j - k - 1];
        }
      }
    }
  }

  lemma {:induction false} NatDigitsValue(n: nat)
    ensures DigitsValue(NatDigits(n)) == n
  {
    if n >= 10 {
      var s := NatDigits(n);
      NatDigitsValue(n / 10);
      assert s[..|s| - 1] == NatDigits(n / 10);
    }
  }

  /** Reading back what `DecimalString` wrote gives the same integer. */
  lemma DecimalRoundTrip(n: int)
    ensures ParseDecimal(DecimalString(n)) == Some(n)
  {
    if n < 0 {
      var s := DecimalString(n);
      assert s[1..] == NatDigits(-n);
      NatDigitsValue(-n);
    } else {
      NatDigitsValue(n);
    }
  }
}
