/**
 * The dashboard's handling of one fetched response: the raw text is split
 * into lines, the lines that look like a JSON object are kept in order, the
 * last of them is parsed, and three readings of the "Ashwagandha" entry are
 * overwritten from it. Any failure on the way (no response, no such line,
 * a parse error) is caught and leaves the data as it was.
 */
module Dashboard {
  import opened Optional
  import opened Text
  import opened SensorJson

  // -------------------------------------------------------------- Selection

  /** `line.trim().startsWith('{') && line.trim().endsWith('}')`. */
  predicate LooksLikeJson(line: string) {
    var t := Trim(line);
    t != [] && t[0] == '{' && t[|t| - 1] == '}'
  }

  /** `lines.filter(keep)`. */
  function Filter(lines: seq<string>, keep: string -> bool): (kept: seq<string>)
    ensures |kept| <= |lines|
    ensures forall i :: 0 <= i < |kept| ==> keep(kept[i])
  {
    if lines == [] then []
    else
      var front := lines[..|lines| - 1];
      var last := lines[|lines| - 1];
      if keep(last) then Filter(front, keep) + [last] else Filter(front, keep)
  }

  /** The lines the dashboard considers, in their original order. */
  function JsonLines(lines: seq<string>): (kept: seq<string>)
    ensures forall i :: 0 <= i < |kept| ==> LooksLikeJson(kept[i])
  {
    Filter(lines, LooksLikeJson)
  }

  /** The filter keeps the original order: filtering a concatenation is the
      concatenation of the filtered parts. */
  lemma {:induction false} FilterAppend(a: seq<string>, b: seq<string>, keep: string -> bool)
    ensures Filter(a + b, keep) == Filter(a, keep) + Filter(b, keep)
  {
    if b == [] {
      assert a + b == a;
    } else {
      var front := b[..|b| - 1];
      assert (a + b)[..|a + b| - 1] == a + front;
      assert (a + b)[|a + b| - 1] == b[|b| - 1];
      FilterAppend(a, front, keep);
    }
  }

  /** A single line is kept exactly when `keep` holds of it. */
  lemma FilterSingle(l: string, keep: string -> bool)
    ensures Filter([l], keep) == if keep(l) then [l] else []
  {
    assert [l][..0] == [];
  }

  /** Nothing is kept from lines none of which `keep` holds of. */
  lemma {:induction false} NoneKept(lines: seq<string>, keep: string -> bool)
    requires forall j :: 0 <= j < |lines| ==> !keep(lines[j])
    ensures Filter(lines, keep) == []
  {
    if lines != [] {
      NoneKept(lines[..|lines| - 1], keep);
    }
  }

  /** `xs[xs.length - 1]`, or nothing for an empty array (where JavaScript
      yields `undefined`). */
  function Last(xs: seq<string>): (r: Option<string>)
    ensures r.None? <==> xs == []
    ensures r.Some? ==> r.value == xs[|xs| - 1]
  {
    if xs == [] then None else Some(xs[|xs| - 1])
  }

  /** What the filter keeps last is the line at the last position `keep`
      holds of, and nothing is kept exactly when `keep` holds of no line. */
  lemma {:induction false} LastKeptIsLastQualifying(lines: seq<string>, keep: string -> bool)
    ensures Last(Filter(lines, keep)).None? <==> forall i :: 0 <= i < |lines| ==> !keep(lines[i])
    ensures Last(Filter(lines, keep)).Some? ==>
              exists i :: 0 <= i < |lines| && lines[i] == Last(Filter(lines, keep)).value && keep(lines[i])
                          && forall j :: i < j < |lines| ==> !keep(lines[j])
  {
    if lines != [] {
      var front := lines[..|lines| - 1];
      var n := |lines| - 1;
      LastKeptIsLastQualifying(front, keep);
      if !keep(lines[n]) {
        if Filter(front, keep) != [] {
          var i :| 0 <= i < |front| && front[i] == Last(Filter(front, keep)).value && keep(front[i])
                   && forall j :: i < j < |front| ==> !keep(front[j]);
          assert lines[i] == front[i];
          forall j | i < j < |lines| ensures !keep(lines[j]) {
            if j < n { assert lines[j] == front[j]; }
          }
        } else {
          forall i | 0 <= i < |lines| ensures !keep(lines[i]) {
            if i < n { assert lines[i] == front[i]; }
          }
        }
      }
    }
  }

  /** Conversely, the line at the last position `keep` holds of is what the
      filter keeps last. */
  lemma LastQualifyingIsKept(lines: seq<string>, keep: string -> bool, i: nat)
    requires i < |lines| && keep(lines[i])
    requires forall j :: i < j < |lines| ==> !keep(lines[j])
    ensures Last(Filter(lines, keep)) == Some(lines[i])
  {
    var before, after := lines[..i], lines[i + 1..];
    var upTo := before + [lines[i]];
    assert lines == upTo + after;
    forall j | 0 <= j < |after| ensures !keep(after[j]) {
      assert after[j] == lines[i + 1 + j];
    }
    NoneKept(after, keep);
    FilterAppend(upTo, after, keep);
    FilterAppend(before, [lines[i]], keep);
    FilterSingle(lines[i], keep);
    assert Filter(lines, keep) == Filter(before, keep) + [lines[i]];
  }

  /** The line the dashboard parses: the last line of `raw` that looks like
      JSON. */
  function SelectLatest(raw: string): (r: Option<string>)
    ensures r.Some? ==> LooksLikeJson(r.value)
  {
    Last(JsonLines(Split(raw, '\n')))
  }

  // ------------------------------------------------------------- Plant data

  datatype Ideal = Ideal(temp: string, humidity: string, soilMoisture: string, light: string)

  /** A temperature as the dashboard holds it: a number of degrees, or a
      reported Celsius reading lowered by ten, kept as the reported text
      (the subtraction is floating point). */
  datatype Temperature = Degrees(value: int) | ReadingLessTen(reported: string)

  datatype Plant = Plant(temperature: Temperature, humidity: int, soilMoisture: int, light: string,
                         ideal: Ideal, fact: string, status: string, image: string)

  /** The entry the live readings go to. */
  const LIVE_PLANT := "Ashwagandha"
  const NO_LIGHT_READING := "N/A"

  /** The entries the page starts with. */
  const ASHWAGANDHA: Plant :=
    Plant(Degrees(28), 60, 70, "Full Sunlight",
          Ideal("25-30 \U{B0}C", "50-70%", "60-80", "Full sunlight"),
          "Ashwagandha is a medicinal plant known for its stress-reducing properties.",
          "Perfect", "/download.jpg")
  const MINT: Plant :=
    Plant(Degrees(22), 70, 80, "Partial Sunlight",
          Ideal("20-25 \U{B0}C", "60-80%", "70-90", "Partial sunlight"),
          "Mint is a versatile herb often used in teas and beverages.",
          "Perfect", "https://foodieng.com/wp-content/uploads/2022/05/mint-leaf.jpg")
  const COMMON_HERBS: Plant :=
    Plant(Degrees(15), 40, 50, "Low Sunlight",
          Ideal("22-28 \U{B0}C", "55-75%", "65-85", "Partial sunlight"),
          "Common Sage is often used for seasoning and has medicinal properties.",
          "Needs Attention",
          "https://img.freepik.com/premium-photo/common-sage-isolated-white-background_434193-7374.jpg")

  /** The plant data the page starts with. */
  function InitialPlants(): (data: map<string, Plant>)
    ensures data.Keys == {"Ashwagandha", "Mint", "Common Herbs"}
    ensures data["Ashwagandha"] == ASHWAGANDHA && data["Mint"] == MINT && data["Common Herbs"] == COMMON_HERBS
  {
    map["Ashwagandha" := ASHWAGANDHA, "Mint" := MINT, "Common Herbs" := COMMON_HERBS]
  }

  /** The plant data after one fetch. `response` is the fetched text (`None`
      when the fetch itself fails); `parse` is `JSON.parse` on the firmware's
      record (`None` when it throws). */
  function AfterFetch(data: map<string, Plant>, response: Option<string>,
                      parse: string -> Option<Snapshot>): map<string, Plant>
  {
    if response.None? then data
    else
      var latest := SelectLatest(response.value);
      if latest.None? then data
      else
        var reading := parse(latest.value);
        if reading.None? || LIVE_PLANT !in data then data
        else
          var s := reading.value;
          data[LIVE_PLANT := data[LIVE_PLANT].(temperature := ReadingLessTen(s.temperatureC),
                                               humidity := 100 - s.raindrop,
                                               soilMoisture := 105 - s.moisture,
                                               light := NO_LIGHT_READING)]
  }

  /** The data after a fetch whose latest JSON line parses: the live entry
      replaced by its refreshed copy. */
  lemma UpdatedEntry(data: map<string, Plant>, raw: string, parse: string -> Option<Snapshot>, s: Snapshot)
    requires SelectLatest(raw).Some? && parse(SelectLatest(raw).value) == Some(s) && LIVE_PLANT in data
    ensures AfterFetch(data, Some(raw), parse)
            == data[LIVE_PLANT := data[LIVE_PLANT].(temperature := ReadingLessTen(s.temperatureC),
                                                    humidity := 100 - s.raindrop,
                                                    soilMoisture := 105 - s.moisture,
                                                    light := NO_LIGHT_READING)]
  {
  }

  /** A fetch changes no entry but the live one, and keeps the set of plants. */
  lemma FetchTouchesOnlyLivePlant(data: map<string, Plant>, response: Option<string>,
                                  parse: string -> Option<Snapshot>, name: string)
    requires name in data && name != LIVE_PLANT
    ensures AfterFetch(data, response, parse).Keys == data.Keys
    ensures AfterFetch(data, response, parse)[name] == data[name]
  {
  }

  /** When no line of the response looks like JSON the indexing yields
      `undefined`, parsing it throws, and the data stays as it was. */
  lemma FetchWithoutJsonLine(data: map<string, Plant>, raw: string, parse: string -> Option<Snapshot>)
    requires forall l :: l in Split(raw, '\n') ==> !LooksLikeJson(l)
    ensures AfterFetch(data, Some(raw), parse) == data
  {
    var lines := Split(raw, '\n');
    LastKeptIsLastQualifying(lines, LooksLikeJson);
  }

  /** When the last JSON-looking line of the response parses, the live entry
      takes its readings, shifted as the page shows them, and keeps its ideal
      ranges, fact, status and image. */
  lemma FetchUpdatesLivePlant(data: map<string, Plant>, raw: string,
                              parse: string -> Option<Snapshot>, i: nat, s: Snapshot)
    requires LIVE_PLANT in data
    requires var lines := Split(raw, '\n');
             i < |lines| && LooksLikeJson(lines[i]) && parse(lines[i]) == Some(s)
             && forall j :: i < j < |lines| ==> !LooksLikeJson(lines[j])
    ensures var p, q := data[LIVE_PLANT], AfterFetch(data, Some(raw), parse)[LIVE_PLANT];
            && q.temperature == ReadingLessTen(s.temperatureC)
            && q.humidity == 100 - s.raindrop
            && q.soilMoisture == 105 - s.moisture
            && q.light == NO_LIGHT_READING
            && q.ideal == p.ideal && q.fact == p.fact && q.status == p.status && q.image == p.image
  {
    LastQualifyingIsKept(Split(raw, '\n'), LooksLikeJson, i);
  }

  /** A raindrop percentage in [1, 100] shows as a humidity in [0, 99], and a
      moisture percentage in [1, 100] as a soil moisture in [5, 104]. */
  lemma DisplayedRanges(data: map<string, Plant>, raw: string, parse: string -> Option<Snapshot>, s: Snapshot)
    requires LIVE_PLANT in data && SelectLatest(raw).Some? && parse(SelectLatest(raw).value) == Some(s)
    ensures var q := AfterFetch(data, Some(raw), parse)[LIVE_PLANT];
            && (1 <= s.raindrop <= 100 ==> 0 <= q.humidity <= 99)
            && (1 <= s.moisture <= 100 ==> 5 <= q.soilMoisture <= 104)
  {
  }

  /** The page's plant data and its periodic refresh. */
  class PlantDashboard {
    var plantData: map<string, Plant>

    constructor ()
      ensures plantData == InitialPlants()
    {
      plantData := InitialPlants();
    }

    /**
     * One run of the refresh: `response` is the text the fetch returned
     * (`None` when the fetch failed) and `parse` stands for `JSON.parse`.
     * A failure at any step is caught and leaves `plantData` as it was.
     */
    method FetchSensorData(response: Option<string>, parse: string -> Option<Snapshot>)
      modifies this
      ensures plantData == AfterFetch(old(plantData), response, parse)
    {
      if response.None? { return; }
      var lines := Split(response.value, '\n');
      var jsonObjects := JsonLines(lines);
      if jsonObjects == [] { return; }
      var latestData := parse(jsonObjects[|jsonObjects| - 1]);
      if latestData.None? || LIVE_PLANT !in plantData { return; }
      var s := latestData.value;
      var plant := plantData[LIVE_PLANT];
      plant := plant.(temperature := ReadingLessTen(s.temperatureC));
      plant := plant.(humidity := 100 - s.raindrop);
      plant := plant.(soilMoisture := 105 - s.moisture);
      plant := plant.(light := NO_LIGHT_READING);
      UpdatedEntry(plantData, response.value, parse, s);
      assert plant == plantData[LIVE_PLANT].(temperature := ReadingLessTen(s.temperatureC),
                                             humidity := 100 - s.raindrop,
                                             soilMoisture := 105 - s.moisture,
                                             light := NO_LIGHT_READING);
      plantData := plantData[LIVE_PLANT := plant];
    }
  }
}
