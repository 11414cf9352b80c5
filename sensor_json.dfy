/**
 * The one-line JSON object the firmware sends and the dashboard reads:
 * `{"temperatureC":<c>,"temperatureF":<f>,"moisture":<m>,"raindrop":<r>}`
 * with the keys in that fixed order.
 */
module SensorJson {
  import opened Optional
  import opened Text

  /** The readings of one request. The temperatures are kept as the text the
      firmware's float formatting produced; the two percentages are integers. */
  datatype Snapshot = Snapshot(temperatureC: string, temperatureF: string, moisture: int, raindrop: int)

  const KEY_TEMPERATURE_C := "\"temperatureC\":"
  const KEY_TEMPERATURE_F := "\"temperatureF\":"
  const KEY_MOISTURE := "\"moisture\":"
  const KEY_RAINDROP := "\"raindrop\":"

  /** Text that holds neither the member separator nor a line break, so that
      it keeps the layout of the line it is put in. */
  predicate IsPlainText(t: string) {
    ',' !in t && '\n' !in t
  }

  /** A JSON number is plain text. */
  lemma NumberTextIsPlain(t: string)
    requires IsJsonFixedPoint(t)
    ensures IsPlainText(t)
  {
    FixedPointCharacters(t);
  }

  /** Examples of text a float formatting may print for a reading that is
      not finite, bare or padded to a minimum width: none is a JSON number.
      `NonNumberRejected` covers every such text, whatever its spelling. */
  lemma NotANumberText()
    ensures !IsJsonFixedPoint("nan") && !IsJsonFixedPoint("inf")
    ensures !IsJsonFixedPoint(" nan") && !IsJsonFixedPoint(" inf")
  {
    assert LeadingDigits("nan") == 0 && LeadingDigits("inf") == 0;
    assert LeadingDigits(" nan") == 0 && LeadingDigits(" inf") == 0;
  }

  /** The JSON line for one snapshot. */
  function JsonLine(s: Snapshot): (line: string)
    ensures |line| >= 2 && line[0] == '{' && line[|line| - 1] == '}'
  {
    "{" + FieldsText(s) + "}"
  }

  /** The four `"key":value` members, comma separated, in the fixed order. */
  function FieldsText(s: Snapshot): string {
    Join(Members(s), ',')
  }

  /** The members text spelled out: each member followed by a comma, the last
      one without. */
  lemma FieldsTextSpelled(s: Snapshot)
    ensures var m := Members(s);
            FieldsText(s) == m[0] + "," + m[1] + "," + m[2] + "," + m[3]
  {
    var m := Members(s);
    JoinFour(m[0], m[1], m[2], m[3], ',');
    assert m == [m[0], m[1], m[2], m[3]];
  }

  lemma JoinFour(a: string, b: string, c: string, d: string, sep: char)
    ensures Join([a, b, c, d], sep) == a + [sep] + b + [sep] + c + [sep] + d
  {
    JoinCons(a, [b, c, d], sep);
    assert [a, b, c, d] == [a] + [b, c, d];
    JoinCons(b, [c, d], sep);
    assert [b, c, d] == [b] + [c, d];
    JoinCons(c, [d], sep);
    assert [c, d] == [c] + [d];
  }

  /** The JSON line as the firmware builds it: the opening brace, then each
      member with its trailing comma appended in turn, then the closing brace. */
  lemma JsonLineByAppends(s: Snapshot)
    ensures JsonLine(s) == "{" + (KEY_TEMPERATURE_C + s.temperatureC + ",")
                               + (KEY_TEMPERATURE_F + s.temperatureF + ",")
                               + (KEY_MOISTURE + DecimalString(s.moisture) + ",")
                               + (KEY_RAINDROP + DecimalString(s.raindrop)) + "}"
  {
    var m := Members(s);
    FieldsTextSpelled(s);
    Reassociate("{", m[0], m[1], m[2], m[3], ",", "}");
  }

  lemma Reassociate(open: string, a: string, b: string, c: string, d: string, sep: string, close: string)
    ensures open + (a + sep) + (b + sep) + (c + sep) + d + close == open + (a + sep + b + sep + c + sep + d) + close
  {
  }

  /** The value text of a `"key":value` member, if it carries that key. */
  function MemberValue(key: string, member: string): (v: Option<string>)
    ensures v.Some? ==> member == key + v.value
  {
    if key <= member then Some(member[|key|..]) else None
  }

  /**
   * Reads a line in the firmware's layout back into a snapshot: the
   * whitespace JSON allows around the object is ignored, both temperatures
   * must be JSON numbers and both percentages JSON integers; any other text
   * is rejected.
   */
  function ParseReading(line: string): (r: Option<Snapshot>)
    ensures r.Some? ==> var t := JsonTrim(line); |t| >= 2 && t[0] == '{' && t[|t| - 1] == '}'
    ensures r.Some? ==> IsJsonFixedPoint(r.value.temperatureC) && IsJsonFixedPoint(r.value.temperatureF)
  {
    var t := JsonTrim(line);
    if |t| < 2 || t[0] != '{' || t[|t| - 1] != '}' then None
    else ParseMembers(Split(t[1..|t| - 1], ','))
  }

  /** Reads the four members, in the fixed key order. */
  function ParseMembers(members: seq<string>): Option<Snapshot> {
    if |members| != 4 then None
    else
      var c := MemberValue(KEY_TEMPERATURE_C, members[0]);
      var f := MemberValue(KEY_TEMPERATURE_F, members[1]);
      var m := MemberValue(KEY_MOISTURE, members[2]);
      var r := MemberValue(KEY_RAINDROP, members[3]);
      if c.None? || f.None? || m.None? || r.None? then None
      else if !IsJsonFixedPoint(c.value) || !IsJsonFixedPoint(f.value) then None
      else
        var mv := ParseDecimal(m.value);
        var rv := ParseDecimal(r.value);
        if mv.None? || rv.None? then None
        else Some(Snapshot(c.value, f.value, mv.value, rv.value))
  }

  function Members(s: Snapshot): seq<string> {
    [KEY_TEMPERATURE_C + s.temperatureC,
     KEY_TEMPERATURE_F + s.temperatureF,
     KEY_MOISTURE + DecimalString(s.moisture),
     KEY_RAINDROP + DecimalString(s.raindrop)]
  }

  lemma NoCommaInDecimal(n: int)
    ensures ',' !in DecimalString(n) && '\n' !in DecimalString(n)
  {
    var s := DecimalString(n);
    forall i | 0 <= i < |s| ensures s[i] != ',' && s[i] != '\n' {
    }
  }

  lemma MembersKeepOut(s: Snapshot, c: char)
    requires c == ',' || c == '\n'
    requires IsPlainText(s.temperatureC) && IsPlainText(s.temperatureF)
    ensures forall i :: 0 <= i < 4 ==> c !in Members(s)[i]
  {
    NoCommaInDecimal(s.moisture);
    NoCommaInDecimal(s.raindrop);
  }

  /** A JSON line never holds a line break when its temperatures do not. */
  lemma JsonLineIsOneLine(s: Snapshot)
    requires IsPlainText(s.temperatureC) && IsPlainText(s.temperatureF)
    ensures '\n' !in JsonLine(s)
  {
    MembersKeepOut(s, '\n');
    JoinKeepsOut(Members(s), ',', '\n');
  }

  lemma {:induction false} JoinKeepsOut(pieces: seq<string>, sep: char, c: char)
    requires pieces != [] && c != sep
    requires forall i :: 0 <= i < |pieces| ==> c !in pieces[i]
    ensures c !in Join(pieces, sep)
  {
    if |pieces| > 1 {
      JoinKeepsOut(pieces[1..], sep, c);
    }
  }

  lemma ParseOwnMembers(s: Snapshot)
    requires IsJsonFixedPoint(s.temperatureC) && IsJsonFixedPoint(s.temperatureF)
    ensures ParseMembers(Members(s)) == Some(s)
  {
    var members := Members(s);
    assert KEY_TEMPERATURE_C <= members[0];
    assert KEY_TEMPERATURE_F <= members[1];
    assert KEY_MOISTURE <= members[2];
    assert KEY_RAINDROP <= members[3];
    DecimalRoundTrip(s.moisture);
    DecimalRoundTrip(s.raindrop);
  }

  /** Parsing the line the firmware wrote, with any trailing JSON whitespace
      such as the carriage return of its line ending, gives back the snapshot
      when both temperatures are numbers. */
  lemma JsonRoundTrip(s: Snapshot, trailing: string)
    requires IsJsonFixedPoint(s.temperatureC) && IsJsonFixedPoint(s.temperatureF)
    requires forall i :: 0 <= i < |trailing| ==> IsJsonWhitespace(trailing[i])
    ensures ParseReading(JsonLine(s) + trailing) == Some(s)
  {
    NumberTextIsPlain(s.temperatureC);
    NumberTextIsPlain(s.temperatureF);
    OwnMembersSplit(s, trailing);
    ParseOwnMembers(s);
  }

  /** A line the firmware wrote for a temperature text that is not a JSON
      number, such as `nan`, and holds no comma or line break, is rejected. */
  lemma NonNumberRejected(s: Snapshot, trailing: string)
    requires IsPlainText(s.temperatureC) && IsPlainText(s.temperatureF)
    requires !IsJsonFixedPoint(s.temperatureC) || !IsJsonFixedPoint(s.temperatureF)
    requires forall i :: 0 <= i < |trailing| ==> IsJsonWhitespace(trailing[i])
    ensures ParseReading(JsonLine(s) + trailing) == None
  {
    OwnMembersSplit(s, trailing);
    var members := Members(s);
    assert KEY_TEMPERATURE_C <= members[0] && members[0][|KEY_TEMPERATURE_C|..] == s.temperatureC;
    assert KEY_TEMPERATURE_F <= members[1] && members[1][|KEY_TEMPERATURE_F|..] == s.temperatureF;
  }

  /** Trimmed of its trailing JSON whitespace and split at the commas between
      its braces, the firmware's line gives back its four members. */
  lemma OwnMembersSplit(s: Snapshot, trailing: string)
    requires IsPlainText(s.temperatureC) && IsPlainText(s.temperatureF)
    requires forall i :: 0 <= i < |trailing| ==> IsJsonWhitespace(trailing[i])
    ensures var t := JsonTrim(JsonLine(s) + trailing);
            t == JsonLine(s) && Split(t[1..|t| - 1], ',') == Members(s)
  {
    var line := JsonLine(s);
    TrimIgnoresTrailing(line, trailing, IsJsonWhitespace);
    assert line[1..|line| - 1] == FieldsText(s);
    MembersKeepOut(s, ',');
    SplitJoin(Members(s), ',');
  }
}
