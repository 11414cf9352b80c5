/**
 * The request handler of the monitoring node: the percentage scaling of the
 * raw sensor readings, the rain threshold, the JSON response it builds, and
 * the loop that answers a connected client once for every line feed it
 * receives and then closes the connection.
 */
module Firmware {
  import opened Text
  import opened SensorJson
  import opened Http

  const MAX_PERCENTAGE := 100
  const MIN_PERCENTAGE := 1
  const END_OF_LINE := '\n'
  const MAX_RAINDROP_READING := 1024
  const MIN_RAINDROP_READING := 0
  const DRY_MOISTURE := 500
  const WET_MOISTURE := 200
  /** The raw raindrop reading above which it counts as raining. */
  const RAIN_THRESHOLD := 500

  // ------------------------------------------------------------- Scaling

  /** `p / q` rounded toward zero, as a cast from floating point to `int` does. */
  function TruncDiv(p: int, q: int): (r: int)
    requires q > 0
    ensures p >= 0 ==> 0 <= r * q <= p < r * q + q
    ensures p < 0 ==> r * q - q < p <= r * q <= 0
  {
    if p >= 0 then DivBounds(p, q); p / q else DivBounds(-p, q); -((-p) / q)
  }

  lemma DivBounds(p: int, q: int)
    requires p >= 0 && q > 0
    ensures 0 <= (p / q) * q <= p < (p / q) * q + q
  {
  }

  /**
   * `(value - lowerBound) / (upperBound - lowerBound) * 99 + 1`, computed
   * exactly and truncated toward zero. Nothing clamps the value: the result
   * lies in [MIN_PERCENTAGE, MAX_PERCENTAGE] when the caller keeps `value`
   * within the bounds.
   */
  function ConvertToPercentage(value: int, lowerBound: int, upperBound: int): (r: int)
    requires lowerBound < upperBound
    ensures lowerBound <= value <= upperBound ==> MIN_PERCENTAGE <= r <= MAX_PERCENTAGE
  {
    var span := upperBound - lowerBound;
    var r := TruncDiv((value - lowerBound) * 99 + span, span);
    assert lowerBound <= value <= upperBound ==> MIN_PERCENTAGE <= r <= MAX_PERCENTAGE by {
      if lowerBound <= value <= upperBound {
        FloorStep(r, span, (value - lowerBound) * 99);
        InPercentRange(r, span, value - lowerBound);
      }
    }
    r
  }

  /** For a reading at or above `lowerBound` the percentage is one more than
      99 times the reading's fraction of the range, rounded down. */
  lemma PercentageIsFloor(value: int, lowerBound: int, upperBound: int)
    requires lowerBound < upperBound && lowerBound <= value
    ensures var r := ConvertToPercentage(value, lowerBound, upperBound);
            (r - 1) * (upperBound - lowerBound) <= (value - lowerBound) * 99 < r * (upperBound - lowerBound)
  {
    var span := upperBound - lowerBound;
    FloorStep(ConvertToPercentage(value, lowerBound, upperBound), span, (value - lowerBound) * 99);
  }

  lemma FloorStep(r: int, span: int, x: int)
    requires span > 0 && x >= 0
    requires r * span <= x + span < r * span + span
    ensures (r - 1) * span <= x < r * span
  {
    assert (r - 1) * span == r * span - span;
  }

  lemma InPercentRange(r: int, span: int, d: int)
    requires span > 0 && 0 <= d <= span
    requires (r - 1) * span <= d * 99 < r * span
    ensures 1 <= r <= 100
  {
    assert d * 99 <= span * 99;
    assert (r - 1) * span < 100 * span;
    CancelFactor(r - 1, 100, span);
    CancelFactor(0, r, span);
  }

  /** Dividing both sides of `a * q < b * q` by a positive `q`. */
  lemma CancelFactor(a: int, b: int, q: int)
    requires q > 0 && a * q < b * q
    ensures a < b
  {
  }

  /** The bottom of the range maps to 1 and the top to 100. */
  lemma PercentageEndpoints(lowerBound: int, upperBound: int)
    requires lowerBound < upperBound
    ensures ConvertToPercentage(lowerBound, lowerBound, upperBound) == MIN_PERCENTAGE
    ensures ConvertToPercentage(upperBound, lowerBound, upperBound) == MAX_PERCENTAGE
  {
    var span := upperBound - lowerBound;
    var low := ConvertToPercentage(lowerBound, lowerBound, upperBound);
    var high := ConvertToPercentage(upperBound, lowerBound, upperBound);
    PercentageIsFloor(lowerBound, lowerBound, upperBound);
    PercentageIsFloor(upperBound, lowerBound, upperBound);
    assert 0 < low * span;
    CancelFactor(0, low, span);
    assert (low - 1) * span <= 0;
    assert low - 1 <= 0 by {
      if low - 1 > 0 { PositiveProduct(low - 1, span); }
    }
    assert 99 * span < high * span;
    CancelFactor(99, high, span);
  }

  lemma PositiveProduct(a: int, q: int)
    requires a > 0 && q > 0
    ensures a * q > 0
  {
  }

  lemma TruncDivMonotone(p1: int, p2: int, q: int)
    requires q > 0 && p1 <= p2
    ensures TruncDiv(p1, q) <= TruncDiv(p2, q)
  {
    var r1, r2 := TruncDiv(p1, q), TruncDiv(p2, q);
    if p1 >= 0 {
      assert r1 * q < (r2 + 1) * q;
      CancelFactor(r1, r2 + 1, q);
    } else if p2 >= 0 {
      assert r1 * q <= 0 <= r2 * q;
      MulOrder(r1, r2, q);
    } else {
      assert (r1 - 1) * q < r2 * q;
      CancelFactor(r1 - 1, r2, q);
    }
  }

  lemma MulOrder(a: int, b: int, q: int)
    requires q > 0 && a * q <= 0 <= b * q
    ensures a <= b
  {
    if a > b {
      CancelFactor(b, a, q);
    }
  }

  /** For fixed bounds the percentage never decreases as the reading grows,
      inside the bounds or outside them. */
  lemma PercentageMonotone(v: int, w: int, lowerBound: int, upperBound: int)
    requires lowerBound < upperBound && v <= w
    ensures ConvertToPercentage(v, lowerBound, upperBound) <= ConvertToPercentage(w, lowerBound, upperBound)
  {
    var span := upperBound - lowerBound;
    assert (v - lowerBound) * 99 <= (w - lowerBound) * 99;
    TruncDivMonotone((v - lowerBound) * 99 + span, (w - lowerBound) * 99 + span, span);
  }

  /**
   * The result lies in [1, 100] exactly for the readings from `lowerBound`
   * up to just below `lowerBound + 100/99 * (upperBound - lowerBound)`:
   * nothing but the caller's keeping `value` within the bounds makes the
   * result a percentage.
   */
  lemma PercentageInRangeExactly(value: int, lowerBound: int, upperBound: int)
    requires lowerBound < upperBound
    ensures var r := ConvertToPercentage(value, lowerBound, upperBound);
            MIN_PERCENTAGE <= r <= MAX_PERCENTAGE
            <==> lowerBound <= value && (value - lowerBound) * 99 < 100 * (upperBound - lowerBound)
  {
    var span := upperBound - lowerBound;
    var r := ConvertToPercentage(value, lowerBound, upperBound);
    if value < lowerBound {
      var p := (value - lowerBound) * 99 + span;
      assert p < span;
      assert r == TruncDiv(p, span);
      if p >= 0 {
        assert r * span < 1 * span;
        CancelFactor(r, 1, span);
      }
    } else if (value - lowerBound) * 99 < 100 * span {
      PercentageIsFloor(value, lowerBound, upperBound);
      assert (r - 1) * span < 100 * span;
      CancelFactor(r - 1, 100, span);
      CancelFactor(0, r, span);
    } else {
      PercentageIsFloor(value, lowerBound, upperBound);
      assert 100 * span < r * span;
      CancelFactor(100, r, span);
    }
  }

  /** The values quoted for the two sensors, including a moisture reading
      wetter than WET_MOISTURE, which leaves the percentage range. */
  lemma PercentageExamples()
    ensures ConvertToPercentage(0, MIN_RAINDROP_READING, MAX_RAINDROP_READING) == 1
    ensures ConvertToPercentage(512, MIN_RAINDROP_READING, MAX_RAINDROP_READING) == 50
    ensures ConvertToPercentage(1024, MIN_RAINDROP_READING, MAX_RAINDROP_READING) == 100
    ensures ConvertToPercentage(200, WET_MOISTURE, DRY_MOISTURE) == 1
    ensures ConvertToPercentage(500, WET_MOISTURE, DRY_MOISTURE) == 100
    ensures ConvertToPercentage(50, WET_MOISTURE, DRY_MOISTURE) == -48
  {
  }

  /** Over the whole range of a 10-bit analog reading, 0 to 1023, the
      moisture percentage lies in [-65, 272] and the raindrop percentage in
      [1, 99]: both fit a 16-bit `int`. */
  lemma AnalogRange(raw: int)
    requires 0 <= raw <= 1023
    ensures -65 <= ConvertToPercentage(raw, WET_MOISTURE, DRY_MOISTURE) <= 272
    ensures 1 <= ConvertToPercentage(raw, MIN_RAINDROP_READING, MAX_RAINDROP_READING) <= 99
  {
    assert ConvertToPercentage(0, WET_MOISTURE, DRY_MOISTURE) == -65;
    assert ConvertToPercentage(1023, WET_MOISTURE, DRY_MOISTURE) == 272;
    assert ConvertToPercentage(0, MIN_RAINDROP_READING, MAX_RAINDROP_READING) == 1;
    assert ConvertToPercentage(1023, MIN_RAINDROP_READING, MAX_RAINDROP_READING) == 99;
    PercentageMonotone(0, raw, WET_MOISTURE, DRY_MOISTURE);
    PercentageMonotone(raw, 1023, WET_MOISTURE, DRY_MOISTURE);
    PercentageMonotone(0, raw, MIN_RAINDROP_READING, MAX_RAINDROP_READING);
    PercentageMonotone(raw, 1023, MIN_RAINDROP_READING, MAX_RAINDROP_READING);
  }

  // ---------------------------------------------------------------- Rain

  /** Whether the raw raindrop reading says it is raining. */
  predicate OnRaining(raindropReading: int) {
    raindropReading > RAIN_THRESHOLD
  }

  /** The threshold is exclusive: 500 is dry, 501 is rain, and a higher
      reading never turns rain back into dry. */
  lemma RainThreshold(v: int, w: int)
    ensures !OnRaining(500) && OnRaining(501)
    ensures v <= w && OnRaining(v) ==> OnRaining(w)
  {
  }

  // ------------------------------------------------------------ Response

  /** What the sensors give for one response: the two raw analog readings and
      the two temperatures as formatted with DISPLAY_DIGITS decimals. */
  datatype RawSample = RawSample(raindrop: int, moisture: int, temperatureC: string, temperatureF: string)

  /** The reported values: both raw readings scaled to percentages, raindrop
      over [0, 1024] and moisture over [WET_MOISTURE, DRY_MOISTURE]. */
  function Measure(sample: RawSample): (s: Snapshot)
    ensures s.temperatureC == sample.temperatureC && s.temperatureF == sample.temperatureF
    ensures MIN_RAINDROP_READING <= sample.raindrop <= MAX_RAINDROP_READING ==>
              MIN_PERCENTAGE <= s.raindrop <= MAX_PERCENTAGE
    ensures WET_MOISTURE <= sample.moisture <= DRY_MOISTURE ==>
              MIN_PERCENTAGE <= s.moisture <= MAX_PERCENTAGE
  {
    Snapshot(sample.temperatureC, sample.temperatureF,
             ConvertToPercentage(sample.moisture, WET_MOISTURE, DRY_MOISTURE),
             ConvertToPercentage(sample.raindrop, MIN_RAINDROP_READING, MAX_RAINDROP_READING))
  }

  const STATUS_LINE := "HTTP/1.1 200 OK"
  const CONTENT_TYPE := "Content-Type: application/json"
  const ALLOW_ORIGIN := "Access-Control-Allow-Origin: *"
  const CONNECTION_CLOSE := "Connection: close"

  /** The six lines of one response. */
  function HttpResponse(s: Snapshot): seq<string> {
    [STATUS_LINE, CONTENT_TYPE, ALLOW_ORIGIN, CONNECTION_CLOSE, "", JsonLine(s)]
  }

  /** Each response is a well-formed HTTP/1.1 message with status 200, three
      header fields and the JSON line as its body. */
  lemma ResponseIsHttp(s: Snapshot)
    ensures IsResponse(HttpResponse(s), [JsonLine(s)])
    ensures StatusCode(HttpResponse(s)[0]) == 200
  {
    StatusLineIsHttp();
    HeaderLinesAreFields();
    SixLineResponse(STATUS_LINE, CONTENT_TYPE, ALLOW_ORIGIN, CONNECTION_CLOSE, JsonLine(s));
  }

  /** A status line, three field lines, the empty line and one body line. */
  lemma SixLineResponse(status: string, h1: string, h2: string, h3: string, body: string)
    requires IsStatusLine(status) && IsFieldLine(h1) && IsFieldLine(h2) && IsFieldLine(h3)
    ensures IsResponse([status, h1, h2, h3, "", body], [body])
  {
    var lines := [status, h1, h2, h3, "", body];
    assert lines[0] == status && lines[4] == [] && lines[5..] == [body];
    assert forall j :: 1 <= j < 4 ==> IsFieldLine(lines[j]);
  }

  lemma StatusLineIsHttp()
    ensures IsStatusLine(STATUS_LINE) && StatusCode(STATUS_LINE) == 200
  {
    assert STATUS_LINE[..9] == "HTTP/1.1 ";
    assert STATUS_LINE[9..12] == "200";
    assert STATUS_LINE[13..] == "OK";
    assert DigitsValue("200") == 200 by {
      assert "200"[..2] == "20" && "20"[..1] == "2" && "2"[..0] == "";
    }
  }

  lemma HeaderLinesAreFields()
    ensures IsFieldLine(CONTENT_TYPE) && IsFieldLine(ALLOW_ORIGIN) && IsFieldLine(CONNECTION_CLOSE)
  {
    ContentTypeIsField();
    AllowOriginIsField();
    ConnectionIsField();
  }

  lemma ContentTypeIsField()
    ensures IsFieldLine(CONTENT_TYPE)
  {
    assert CONTENT_TYPE == "Content-Type" + ":" + " application/json";
    assert IsToken("Content-Type");
    FieldLineOf("Content-Type", " application/json");
  }

  lemma AllowOriginIsField()
    ensures IsFieldLine(ALLOW_ORIGIN)
  {
    assert ALLOW_ORIGIN == "Access-Control-Allow-Origin" + ":" + " *";
    assert IsToken("Access-Control-Allow-Origin");
    FieldLineOf("Access-Control-Allow-Origin", " *");
  }

  lemma ConnectionIsField()
    ensures IsFieldLine(CONNECTION_CLOSE)
  {
    assert CONNECTION_CLOSE == "Connection" + ":" + " close";
    assert IsToken("Connection");
    FieldLineOf("Connection", " close");
  }

  /** A token, a colon and a value without line breaks form a field line. */
  lemma FieldLineOf(name: string, value: string)
    requires IsToken(name) && NoLineBreak(value)
    ensures IsFieldLine(name + ":" + value)
  {
    var l := name + ":" + value;
    assert l[|name|] == ':' && l[..|name|] == name && l[|name| + 1..] == value;
  }

  /** Every line of a response is free of line breaks. */
  lemma ResponseLinesAreLines(s: Snapshot)
    requires IsPlainText(s.temperatureC) && IsPlainText(s.temperatureF)
    ensures forall i :: 0 <= i < 6 ==> '\n' !in HttpResponse(s)[i]
  {
    JsonLineIsOneLine(s);
  }

  /** What the firmware prints on one connection after answering `n` line
      feeds, the k-th answer built from `sensors(k)`. */
  function Responses(n: nat, sensors: nat -> RawSample): seq<string> {
    Blocks(n, (k: nat) => HttpResponse(Measure(sensors(k))))
  }

  /** Answering one more line feed appends one response. */
  lemma ResponsesStep(n: nat, sensors: nat -> RawSample)
    requires n > 0
    ensures Responses(n, sensors) == Responses(n - 1, sensors) + HttpResponse(Measure(sensors(n - 1)))
  {
  }

  /** `block(0) + block(1) + ... + block(n - 1)`. */
  function Blocks(n: nat, block: nat -> seq<string>): seq<string> {
    if n == 0 then [] else Blocks(n - 1, block) + block(n - 1)
  }

  /** Blocks of six lines each: `n` of them are 6 * n lines, and block j
      occupies lines 6 * j to 6 * j + 5. */
  lemma {:induction false} BlocksLayout(n: nat, block: nat -> seq<string>, j: nat)
    requires forall k :: |block(k)| == 6
    requires j < n
    ensures |Blocks(n, block)| == 6 * n
    ensures Blocks(n, block)[6 * j .. 6 * j + 6] == block(j)
  {
    BlocksLength(n - 1, block);
    var before := Blocks(n - 1, block);
    if j < n - 1 {
      BlocksLayout(n - 1, block, j);
      SliceOfPrefix(before, block(n - 1), 6 * j, 6 * j + 6);
    } else {
      SliceOfSuffix(before, block(n - 1));
    }
  }

  lemma {:induction false} BlocksLength(n: nat, block: nat -> seq<string>)
    requires forall k :: |block(k)| == 6
    ensures |Blocks(n, block)| == 6 * n
  {
    if n > 0 {
      BlocksLength(n - 1, block);
    }
  }

  lemma SliceOfSuffix<T>(a: seq<T>, b: seq<T>)
    ensures (a + b)[|a|..|a| + |b|] == b
  {
  }

  lemma SliceOfPrefix<T>(a: seq<T>, b: seq<T>, lo: nat, hi: nat)
    requires lo <= hi <= |a|
    ensures (a + b)[lo..hi] == a[lo..hi]
  {
  }

  /** Answering `n` line feeds prints 6 * n lines, and answer number j, built
      from `sensors(j)`, occupies lines 6 * j to 6 * j + 5. */
  lemma ResponsesLayout(n: nat, sensors: nat -> RawSample, j: nat)
    requires j < n
    ensures |Responses(n, sensors)| == 6 * n
    ensures Responses(n, sensors)[6 * j .. 6 * j + 6] == HttpResponse(Measure(sensors(j)))
  {
    var block := (k: nat) => HttpResponse(Measure(sensors(k)));
    forall k: nat ensures |block(k)| == 6 {
      assert block(k) == HttpResponse(Measure(sensors(k)));
    }
    BlocksLayout(n, block, j);
  }

  // ---------------------------------------------------------- Connection

  /** The connected client as the firmware sees it. */
  class Client {
    /** Bytes received and not yet read. */
    var unread: seq<char>
    /** Lines printed to the client, in order. */
    var sent: seq<string>
    /** How many times the connection was stopped. */
    var stops: nat
    /** How many lines had been printed when it was last stopped. */
    var sentAtStop: nat

    constructor (request: seq<char>)
      ensures unread == request && sent == [] && stops == 0 && sentAtStop == 0
    {
      unread := request;
      sent := [];
      stops := 0;
      sentAtStop := 0;
    }

    /** `connected() && available()`: a byte is waiting. */
    predicate Available()
      reads this
    {
      unread != []
    }

    method Read() returns (b: char)
      requires Available()
      modifies this
      ensures b == old(unread)[0] && unread == old(unread)[1..]
      ensures sent == old(sent) && stops == old(stops) && sentAtStop == old(sentAtStop)
    {
      b := unread[0];
      unread := unread[1..];
    }

    method Println(line: string)
      modifies this
      ensures sent == old(sent) + [line]
      ensures unread == old(unread) && stops == old(stops) && sentAtStop == old(sentAtStop)
    {
      sent := sent + [line];
    }

    method Stop()
      modifies this
      ensures stops == old(stops) + 1 && sentAtStop == |sent|
      ensures unread == old(unread) && sent == old(sent)
    {
      stops := stops + 1;
      sentAtStop := |sent|;
    }
  }

  /** Reads the sensors, builds the JSON line and prints the response. */
  method SendHttpResponse(client: Client, sample: RawSample)
    modifies client
    ensures client.sent == old(client.sent) + HttpResponse(Measure(sample))
    ensures client.unread == old(client.unread)
    ensures client.stops == old(client.stops) && client.sentAtStop == old(client.sentAtStop)
  {
    var raindropReading := ConvertToPercentage(sample.raindrop, MIN_RAINDROP_READING, MAX_RAINDROP_READING);
    var moistureReading := ConvertToPercentage(sample.moisture, WET_MOISTURE, DRY_MOISTURE);

    var jsonData := "{";
    jsonData := jsonData + (KEY_TEMPERATURE_C + sample.temperatureC + ",");
    jsonData := jsonData + (KEY_TEMPERATURE_F + sample.temperatureF + ",");
    jsonData := jsonData + (KEY_MOISTURE + DecimalString(moistureReading) + ",");
    jsonData := jsonData + (KEY_RAINDROP + DecimalString(raindropReading));
    jsonData := jsonData + "}";
    JsonLineByAppends(Measure(sample));

    client.Println(STATUS_LINE);
    client.Println(CONTENT_TYPE);
    client.Println(ALLOW_ORIGIN);
    client.Println(CONNECTION_CLOSE);
    client.Println("");
    client.Println(jsonData);
  }

  /** Reading the first byte leaves one line feed fewer unread exactly when
      that byte is one. */
  lemma CountStep(u: seq<char>)
    requires u != []
    ensures multiset(u)[END_OF_LINE] == multiset(u[1..])[END_OF_LINE] + if u[0] == END_OF_LINE then 1 else 0
  {
    assert u == [u[0]] + u[1..];
  }

  /**
   * Serves one connected client: every byte equal to END_OF_LINE triggers one
   * full response built from fresh sensor readings, every other byte is
   * skipped, and the connection is stopped once, after the last line of
   * the last response, when the bytes run out.
   */
  method ServeClient(client: Client, sensors: nat -> RawSample)
    modifies client
    ensures client.unread == []
    ensures client.sent == old(client.sent) + Responses(multiset(old(client.unread))[END_OF_LINE], sensors)
    ensures client.stops == old(client.stops) + 1 && client.sentAtStop == |client.sent|
  {
    ghost var request := client.unread;
    var answered: nat := 0;
    while client.Available()
      invariant multiset(request)[END_OF_LINE] == answered + multiset(client.unread)[END_OF_LINE]
      invariant client.sent == old(client.sent) + Responses(answered, sensors)
      invariant client.stops == old(client.stops)
      decreases |client.unread|
    {
      CountStep(client.unread);
      var b := client.Read();
      if b != END_OF_LINE { continue; }
      SendHttpResponse(client, sensors(answered));
      ResponsesStep(answered + 1, sensors);
      answered := answered + 1;
    }
    client.Stop();
  }
}
