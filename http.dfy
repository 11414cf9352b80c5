/**
 * The shape of an HTTP/1.1 response message (section 2.1 of RFC 9112:
 * a start-line, then header field lines, then an empty line, then the body),
 * checked on the sequence of lines a server prints, and the bytes those lines
 * become on the wire when every line is ended by CR LF.
 */
module Http {
  import opened Text

  const CRLF := "\r\n"

  /** The bytes that printing `lines` one `println` at a time puts on the wire. */
  function Wire(lines: seq<string>): string {
    if lines == [] then "" else lines[0] + CRLF + Wire(lines[1..])
  }

  /** The lines a reader splitting the wire at LF sees: each printed line still
      carries its CR. */
  function CrEnded(lines: seq<string>): (r: seq<string>)
    ensures |r| == |lines| && forall i :: 0 <= i < |lines| ==> r[i] == lines[i] + "\r"
  {
    seq(|lines|, i requires 0 <= i < |lines| => lines[i] + "\r")
  }

  /** Splitting the wire at LF gives back every printed line with its CR, and
      one empty piece after the last line ending. */
  lemma {:induction false} SplitWire(lines: seq<string>)
    requires forall i :: 0 <= i < |lines| ==> '\n' !in lines[i]
    ensures Split(Wire(lines), '\n') == CrEnded(lines) + [""]
  {
    if lines != [] {
      var rest := lines[1..];
      var head := lines[0] + "\r";
      forall i | 0 <= i < |rest| ensures '\n' !in rest[i] {
        assert rest[i] == lines[i + 1];
      }
      var w := Wire(rest);
      SplitWire(rest);
      CrKeepsOut(lines[0]);
      CrLfEnding(lines[0], w);
      assert Wire(lines) == head + ['\n'] + w;
      SplitAfterPiece(head, '\n', w);
      CrEndedCons(lines);
      assert [head] + (CrEnded(rest) + [""]) == ([head] + CrEnded(rest)) + [""];
    }
  }

  lemma CrEndedCons(lines: seq<string>)
    requires lines != []
    ensures CrEnded(lines) == [lines[0] + "\r"] + CrEnded(lines[1..])
  {
  }

  lemma CrKeepsOut(l: string)
    requires '\n' !in l
    ensures '\n' !in l + "\r"
  {
    assert forall i :: 0 <= i < |l + "\r"| ==> (l + "\r")[i] == if i < |l| then l[i] else '\r';
  }

  lemma CrLfEnding(l: string, rest: string)
    ensures l + CRLF + rest == (l + "\r") + ['\n'] + rest
  {
    assert CRLF == "\r" + ['\n'];
  }

  // ---------------------------------------------- Section 2.1 of RFC 9112

  /** `tchar` of section 5.6.2 of RFC 9110. */
  predicate IsTokenChar(c: char) {
    || ('a' <= c <= 'z') || ('A' <= c <= 'Z') || IsDigit(c)
    || c == '!' || c == '#' || c == '$' || c == '%' || c == '&' || c == '\''
    || c == '*' || c == '+' || c == '-' || c == '.' || c == '^' || c == '_'
    || c == '`' || c == '|' || c == '~'
  }

  predicate IsToken(s: string) {
    s != [] && forall c :: c in s ==> IsTokenChar(c)
  }

  predicate NoLineBreak(s: string) {
    '\r' !in s && '\n' !in s
  }

  /** `status-line = HTTP-version SP status-code SP [reason-phrase]` for HTTP/1.1. */
  predicate IsStatusLine(l: string) {
    && |l| >= 13 && l[..9] == "HTTP/1.1 "
    && IsDigit(l[9]) && IsDigit(l[10]) && IsDigit(l[11])
    && l[12] == ' ' && NoLineBreak(l[13..])
  }

  function StatusCode(l: string): nat
    requires IsStatusLine(l)
  {
    DigitsValue(l[9..12])
  }

  /** `field-line = field-name ":" OWS field-value OWS`, `field-name` a token. */
  predicate IsFieldLine(l: string) {
    exists i :: 0 < i < |l| && l[i] == ':' && IsToken(l[..i]) && NoLineBreak(l[i + 1..])
  }

  /** `lines` are a status line, header field lines and an empty line,
      followed by the body lines `body`. */
  predicate IsResponse(lines: seq<string>, body: seq<string>) {
    && |lines| >= 2 && IsStatusLine(lines[0])
    && exists k :: 1 <= k < |lines| && lines[k] == [] && lines[k + 1..] == body
                   && forall j :: 1 <= j < k ==> IsFieldLine(lines[j])
  }
}
