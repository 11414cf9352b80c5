/**
 * The dashboard reading what the firmware wrote on one connection: the
 * firmware answers each of the `n` line feeds of the request with a full
 * response, printed line by line with CR LF; the browser takes the first
 * response's status line and header lines, and the text the dashboard gets
 * is everything after the first empty line. That text is split at LF,
 * filtered and the last JSON line is parsed and shown.
 */
module EndToEnd {
  import opened Optional
  import opened Text
  import opened SensorJson
  import opened Http
  import opened Firmware
  import opened Dashboard

  /** A sample whose formatted temperatures hold neither a comma nor a line
      break, so that its JSON line keeps its layout. */
  predicate Sendable(sample: RawSample) {
    IsPlainText(sample.temperatureC) && IsPlainText(sample.temperatureF)
  }

  /** A sample whose formatted temperatures are both JSON numbers. */
  predicate Numeric(sample: RawSample) {
    IsJsonFixedPoint(sample.temperatureC) && IsJsonFixedPoint(sample.temperatureF)
  }

  /**
   * What `response.text()` gives the dashboard for a connection on which
   * the firmware answered `n` line feeds. The browser reads the status line
   * and the header lines of the first response; as that response says
   * `Connection: close` and gives no length, its body runs from after its
   * empty line to the close, and so holds the later responses whole.
   * Without any answer the connection closes empty and the fetch fails.
   */
  function FetchedText(n: nat, sensors: nat -> RawSample): (text: Option<string>)
    ensures text.Some? <==> n > 0
  {
    if n == 0 then None
    else
      ResponsesLayout(n, sensors, 0);
      Some(Wire(Responses(n, sensors)[5..]))
  }

  /** The JSON lines of the first `n` responses as the dashboard sees them
      after splitting at LF: each still ends in the CR of its line ending. */
  function Bodies(n: nat, sensors: nat -> RawSample): (b: seq<string>)
    ensures |b| == n
  {
    if n == 0 then [] else Bodies(n - 1, sensors) + [JsonLine(Measure(sensors(n - 1))) + "\r"]
  }

  lemma CrEndedAppend(a: seq<string>, b: seq<string>)
    ensures CrEnded(a + b) == CrEnded(a) + CrEnded(b)
  {
  }

  /** No line of `lines` holds a line feed. */
  predicate AreLines(lines: seq<string>) {
    forall i :: 0 <= i < |lines| ==> '\n' !in lines[i]
  }

  lemma {:induction false} BlocksAreLines(n: nat, block: nat -> seq<string>)
    requires forall k: nat :: k < n ==> AreLines(block(k))
    ensures AreLines(Blocks(n, block))
  {
    if n > 0 {
      BlocksAreLines(n - 1, block);
      var before := Blocks(n - 1, block);
      assert Blocks(n, block) == before + block(n - 1);
      forall i | 0 <= i < |Blocks(n, block)| ensures '\n' !in Blocks(n, block)[i] {
        if i >= |before| {
          assert Blocks(n, block)[i] == block(n - 1)[i - |before|];
        }
      }
    }
  }

  /** No printed line holds a line feed when every sample is sendable. */
  lemma ResponsesAreLines(n: nat, sensors: nat -> RawSample)
    requires forall k: nat :: k < n ==> Sendable(sensors(k))
    ensures AreLines(Responses(n, sensors))
  {
    var block := (k: nat) => HttpResponse(Measure(sensors(k)));
    forall k: nat | k < n ensures AreLines(block(k)) {
      assert block(k) == HttpResponse(Measure(sensors(k)));
      ResponseLinesAreLines(Measure(sensors(k)));
    }
    BlocksAreLines(n, block);
  }

  /** A printed line starting with a character other than whitespace and `{`
      is not kept once split at LF. */
  lemma HeaderIsNotJson(l: string)
    requires l != [] && !IsJsWhitespace(l[0]) && l[0] != '{'
    ensures !LooksLikeJson(l + "\r")
  {
    assert (l + "\r")[0] == l[0];
    TrimKeepsSolidHead(l + "\r", IsJsWhitespace);
  }

  /** The empty line, split at LF, is a lone CR and is not kept. */
  lemma EmptyLineIsNotJson()
    ensures !LooksLikeJson("" + "\r")
  {
    assert "" + "\r" == "\r";
    assert "\r"[1..] == [];
  }

  /** A JSON line, split at LF, still looks like JSON. */
  lemma JsonLineIsJson(s: Snapshot)
    ensures LooksLikeJson(JsonLine(s) + "\r")
  {
    TrimIgnoresTrailing(JsonLine(s), "\r", IsJsWhitespace);
  }

  /** Six lines of which only the last looks like JSON keep only that one. */
  lemma LastOfSixKept(a: string, b: string, c: string, d: string, e: string, f: string)
    requires !LooksLikeJson(a) && !LooksLikeJson(b) && !LooksLikeJson(c)
    requires !LooksLikeJson(d) && !LooksLikeJson(e) && LooksLikeJson(f)
    ensures JsonLines([a, b, c, d, e, f]) == [f]
  {
    var headers := [a, b, c, d, e];
    assert [a, b, c, d, e, f] == headers + [f];
    NoneKept(headers, LooksLikeJson);
    FilterAppend(headers, [f], LooksLikeJson);
    FilterSingle(f, LooksLikeJson);
  }

  lemma CrEndedSix(a: string, b: string, c: string, d: string, e: string, f: string)
    ensures CrEnded([a, b, c, d, e, f]) == [a + "\r", b + "\r", c + "\r", d + "\r", e + "\r", f + "\r"]
  {
  }

  /** None of the lines before the body, split at LF, looks like JSON. */
  lemma HeadersSkipped()
    ensures !LooksLikeJson(STATUS_LINE + "\r") && !LooksLikeJson(CONTENT_TYPE + "\r")
    ensures !LooksLikeJson(ALLOW_ORIGIN + "\r") && !LooksLikeJson(CONNECTION_CLOSE + "\r")
    ensures !LooksLikeJson("" + "\r")
  {
    assert STATUS_LINE[0] == 'H' && CONTENT_TYPE[0] == 'C' && ALLOW_ORIGIN[0] == 'A' && CONNECTION_CLOSE[0] == 'C';
    HeaderIsNotJson(STATUS_LINE);
    HeaderIsNotJson(CONTENT_TYPE);
    HeaderIsNotJson(ALLOW_ORIGIN);
    HeaderIsNotJson(CONNECTION_CLOSE);
    EmptyLineIsNotJson();
  }

  /** Of the six lines of one response, as split at LF, only the JSON line
      is kept. */
  lemma OneResponseSelection(s: Snapshot)
    ensures JsonLines(CrEnded(HttpResponse(s))) == [JsonLine(s) + "\r"]
  {
    HeadersSkipped();
    JsonLineIsJson(s);
    CrEndedSix(STATUS_LINE, CONTENT_TYPE, ALLOW_ORIGIN, CONNECTION_CLOSE, "", JsonLine(s));
    LastOfSixKept(STATUS_LINE + "\r", CONTENT_TYPE + "\r", ALLOW_ORIGIN + "\r", CONNECTION_CLOSE + "\r",
                  "" + "\r", JsonLine(s) + "\r");
  }

  /** Of all printed lines, as split at LF, exactly the JSON lines are kept,
      one per response and in the order they were sent. */
  lemma {:induction false} SelectedOfResponses(n: nat, sensors: nat -> RawSample)
    ensures JsonLines(CrEnded(Responses(n, sensors))) == Bodies(n, sensors)
  {
    if n > 0 {
      SelectedOfResponses(n - 1, sensors);
      ResponsesStep(n, sensors);
      var s := Measure(sensors(n - 1));
      CrEndedAppend(Responses(n - 1, sensors), HttpResponse(s));
      FilterAppend(CrEnded(Responses(n - 1, sensors)), CrEnded(HttpResponse(s)), LooksLikeJson);
      OneResponseSelection(s);
    }
  }

  /** The status line, the header lines and the empty line the browser
      reads first are not kept. */
  lemma HeadOfConnectionSkipped(n: nat, sensors: nat -> RawSample)
    requires n > 0
    ensures |Responses(n, sensors)| == 6 * n
    ensures JsonLines(CrEnded(Responses(n, sensors)[..5])) == []
  {
    FirstResponseHead(n, sensors);
    HeadersSkipped();
    FiveSkipped(STATUS_LINE, CONTENT_TYPE, ALLOW_ORIGIN, CONNECTION_CLOSE, "");
  }

  /** The first five lines printed on a connection are those of the first
      response before its body. */
  lemma FirstResponseHead(n: nat, sensors: nat -> RawSample)
    requires n > 0
    ensures |Responses(n, sensors)| == 6 * n
    ensures Responses(n, sensors)[..5] == [STATUS_LINE, CONTENT_TYPE, ALLOW_ORIGIN, CONNECTION_CLOSE, ""]
  {
    var lines := Responses(n, sensors);
    ResponsesLayout(n, sensors, 0);
    assert lines[..5] == lines[0..6][..5];
  }

  /** Five lines none of which, with its CR, looks like JSON keep nothing. */
  lemma FiveSkipped(a: string, b: string, c: string, d: string, e: string)
    requires !LooksLikeJson(a + "\r") && !LooksLikeJson(b + "\r") && !LooksLikeJson(c + "\r")
    requires !LooksLikeJson(d + "\r") && !LooksLikeJson(e + "\r")
    ensures JsonLines(CrEnded([a, b, c, d, e])) == []
  {
    var heads := CrEnded([a, b, c, d, e]);
    assert heads == [a + "\r", b + "\r", c + "\r", d + "\r", e + "\r"];
    NoneKept(heads, LooksLikeJson);
  }

  /** The lines of the body, as split at LF, keep exactly the JSON lines of
      all responses, in the order they were sent. */
  lemma BodySelection(n: nat, sensors: nat -> RawSample)
    requires n > 0
    ensures |Responses(n, sensors)| == 6 * n
    ensures JsonLines(CrEnded(Responses(n, sensors)[5..])) == Bodies(n, sensors)
  {
    var lines := Responses(n, sensors);
    HeadOfConnectionSkipped(n, sensors);
    assert lines == lines[..5] + lines[5..];
    CrEndedAppend(lines[..5], lines[5..]);
    FilterAppend(CrEnded(lines[..5]), CrEnded(lines[5..]), LooksLikeJson);
    SelectedOfResponses(n, sensors);
  }

  /** Splitting the fetched text at LF and filtering it gives the JSON lines
      of all `n` responses in order, the first one included. */
  lemma WireSelection(n: nat, sensors: nat -> RawSample)
    requires n > 0
    requires forall k: nat :: k < n ==> Sendable(sensors(k))
    ensures FetchedText(n, sensors).Some?
    ensures JsonLines(Split(FetchedText(n, sensors).value, '\n')) == Bodies(n, sensors)
  {
    var lines := Responses(n, sensors);
    BodySelection(n, sensors);
    var body := lines[5..];
    assert FetchedText(n, sensors).value == Wire(body);
    ResponsesAreLines(n, sensors);
    forall i | 0 <= i < |body| ensures '\n' !in body[i] {
      assert body[i] == lines[i + 5];
    }
    SplitWire(body);
    EmptyLineIsNotJson();
    FilterAppend(CrEnded(body), [""], LooksLikeJson);
    FilterSingle("", LooksLikeJson);
  }

  /** The dashboard picks the JSON line of the last response; after a request
      without line feeds the fetch fails. */
  lemma LatestOfConnection(n: nat, sensors: nat -> RawSample)
    requires forall k: nat :: k < n ==> Sendable(sensors(k))
    ensures FetchedText(n, sensors).None? <==> n == 0
    ensures n > 0 ==> SelectLatest(FetchedText(n, sensors).value)
                      == Some(JsonLine(Measure(sensors(n - 1))) + "\r")
  {
    if n > 0 {
      WireSelection(n, sensors);
    }
  }

  /**
   * What the dashboard shows after reading one connection with the
   * firmware's own layout: nothing changes after a request without line
   * feeds, nor when a temperature of the last response is not a number
   * (JSON.parse throws); otherwise the live plant shows the last response's
   * readings, and a raw reading within its sensor's bounds gives a humidity
   * in [0, 99] and a soil moisture in [5, 104].
   */
  lemma DashboardShowsLastResponse(data: map<string, Plant>, n: nat, sensors: nat -> RawSample)
    requires LIVE_PLANT in data
    requires forall k: nat :: k < n ==> Sendable(sensors(k))
    ensures n == 0 ==> AfterFetch(data, FetchedText(n, sensors), ParseReading) == data
    ensures n > 0 && !Numeric(sensors(n - 1)) ==> AfterFetch(data, FetchedText(n, sensors), ParseReading) == data
    ensures n > 0 && Numeric(sensors(n - 1)) ==>
              var sample := sensors(n - 1);
              var s := Measure(sample);
              var q := AfterFetch(data, FetchedText(n, sensors), ParseReading)[LIVE_PLANT];
              && q.temperature == ReadingLessTen(sample.temperatureC)
              && q.humidity == 100 - s.raindrop
              && q.soilMoisture == 105 - s.moisture
              && (MIN_RAINDROP_READING <= sample.raindrop <= MAX_RAINDROP_READING ==> 0 <= q.humidity <= 99)
              && (WET_MOISTURE <= sample.moisture <= DRY_MOISTURE ==> 5 <= q.soilMoisture <= 104)
  {
    LatestOfConnection(n, sensors);
    if n > 0 {
      var text := FetchedText(n, sensors);
      assert text == Some(text.value);
      var sample := sensors(n - 1);
      var s := Measure(sample);
      if Numeric(sample) {
        ShownReading(data, text.value, JsonLine(s) + "\r", s);
      } else {
        RejectedReading(data, text.value, s);
      }
    }
  }

  /** A fetch whose last JSON line is the firmware's line for a snapshot
      whose temperature is not a number leaves the data as it was. */
  lemma RejectedReading(data: map<string, Plant>, raw: string, s: Snapshot)
    requires IsPlainText(s.temperatureC) && IsPlainText(s.temperatureF)
    requires !IsJsonFixedPoint(s.temperatureC) || !IsJsonFixedPoint(s.temperatureF)
    requires SelectLatest(raw) == Some(JsonLine(s) + "\r")
    ensures AfterFetch(data, Some(raw), ParseReading) == data
  {
    NonNumberRejected(s, "\r");
  }

  /** The live plant after a fetch whose last JSON line is the firmware's
      line for `s`, with its CR. */
  lemma ShownReading(data: map<string, Plant>, raw: string, line: string, s: Snapshot)
    requires LIVE_PLANT in data && IsJsonFixedPoint(s.temperatureC) && IsJsonFixedPoint(s.temperatureF)
    requires line == JsonLine(s) + "\r" && SelectLatest(raw) == Some(line)
    ensures var q := AfterFetch(data, Some(raw), ParseReading)[LIVE_PLANT];
            && q.temperature == ReadingLessTen(s.temperatureC)
            && q.humidity == 100 - s.raindrop
            && q.soilMoisture == 105 - s.moisture
  {
    JsonRoundTrip(s, "\r");
    UpdatedEntry(data, raw, ParseReading, s);
  }

  /** What one served connection carries to the dashboard: one JSON line for
      every line feed of the request, and no text at all without one. */
  lemma OneJsonLinePerLineFeed(request: seq<char>, sensors: nat -> RawSample)
    requires forall k: nat :: Sendable(sensors(k))
    ensures var n := multiset(request)[END_OF_LINE];
            var text := FetchedText(n, sensors);
            && (text.None? <==> n == 0)
            && (text.Some? ==> |JsonLines(Split(text.value, '\n'))| == n)
  {
    var n := multiset(request)[END_OF_LINE];
    if n > 0 {
      WireSelection(n, sensors);
    }
  }
}
