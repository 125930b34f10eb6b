/** Two pieces of the upload page, src/app/page.tsx: the rendering of a
    duration in `formatTime`, and the framing of the server-sent event
    stream read back from the conversion endpoint (chunks are appended to
    a buffer, complete events are cut at blank lines, and the payload of
    each `data:` line is taken out). */
module Page {
  import opened Text

  // ---------------------------------------------------------------------
  // formatTime
  // ---------------------------------------------------------------------

  /** Whole hours, the minutes of the last hour and the seconds of the
      last minute. */
  datatype Clock = Clock(hours: nat, minutes: nat, seconds: nat)

  function ClockOf(totalSeconds: nat): (c: Clock)
    ensures c.hours * 3600 + c.minutes * 60 + c.seconds == totalSeconds
    ensures c.minutes < 60 && c.seconds < 60
  {
    Clock(totalSeconds / 3600, (totalSeconds % 3600) / 60, totalSeconds % 60)
  }

  /** `formatTime(totalSeconds)` for a whole, non-negative number of
      seconds: "Hh Mm Ss", or "Mm Ss" under an hour. */
  function FormatTime(totalSeconds: nat): (r: string)
    ensures totalSeconds >= 3600 ==> r == NatToString(ClockOf(totalSeconds).hours) + "h " + MinutesAndSeconds(ClockOf(totalSeconds))
    ensures totalSeconds < 3600 ==> r == MinutesAndSeconds(ClockOf(totalSeconds))
  {
    var c := ClockOf(totalSeconds);
    if c.hours > 0 then NatToString(c.hours) + "h " + MinutesAndSeconds(c) else MinutesAndSeconds(c)
  }

  function MinutesAndSeconds(c: Clock): string {
    NatToString(c.minutes) + "m " + NatToString(c.seconds) + "s"
  }

  /** The clock is the only way to write a number of seconds: two
      durations with the same hours, minutes and seconds are equal, and
      every clock with minutes and seconds under 60 is reached. */
  lemma ClockUnique(c: Clock)
    requires c.minutes < 60 && c.seconds < 60
    ensures ClockOf(c.hours * 3600 + c.minutes * 60 + c.seconds) == c
  {
    var total := c.hours * 3600 + c.minutes * 60 + c.seconds;
    DivModUnique(total, 3600, c.hours, c.minutes * 60 + c.seconds);
    DivModUnique(c.minutes * 60 + c.seconds, 60, c.minutes, c.seconds);
    assert total == (c.hours * 60 + c.minutes) * 60 + c.seconds;
    DivModUnique(total, 60, c.hours * 60 + c.minutes, c.seconds);
  }

  /** Quotient and remainder are the only way to write `n` as `q * d + r`
      with `r` under `d`. */
  lemma DivModUnique(n: nat, d: nat, q: nat, r: nat)
    requires 0 < d && r < d && n == q * d + r
    ensures n / d == q && n % d == r
  {
    var q', r' := n / d, n % d;
    assert q * d + r == q' * d + r';
    if q > q' {
      MulStep(q', q, d);
    } else if q < q' {
      MulStep(q, q', d);
    }
  }

  /** A larger factor adds at least one more `d`. */
  lemma MulStep(a: nat, b: nat, d: nat)
    requires a < b
    ensures a * d + d <= b * d
  {
    var k := b - a - 1;
    assert b * d == a * d + d + k * d;
  }

  // ---------------------------------------------------------------------
  // Server-sent events
  // ---------------------------------------------------------------------

  /** The blank line that ends an event. */
  const EventSeparator: string := "\n\n"

  /** `partial += chunk; events = partial.split("\n\n"); partial =
      events.pop() || ""`: the complete events of the buffer, and what
      stays for the next chunk. */
  method Frame(partial: string, chunk: string) returns (events: seq<string>, rest: string)
    ensures Join(events + [rest], EventSeparator) == partial + chunk
    ensures !Contains(rest, EventSeparator)
    ensures events + [rest] == Split(partial + chunk, EventSeparator)
  {
    var buffer := partial + chunk;
    var parts := Split(buffer, EventSeparator);
    events := parts[..|parts| - 1];
    rest := parts[|parts| - 1];
    assert events + [rest] == parts;
    JoinSplit(buffer, EventSeparator);
    SplitLastHasNoSeparator(buffer, EventSeparator);
  }

  /** `line.replace(/^data:\s?/, "")` for a line that starts "data:": the
      prefix goes, and so does the whitespace character after it, if any,
      since `\s?` takes one whenever it can. */
  function DataPayload(line: string): (payload: string)
    requires StartsWith(line, "data:")
    ensures |line| > 5 && IsWhitespace(line[5]) ==> payload == line[6..]
    ensures !(|line| > 5 && IsWhitespace(line[5])) ==> payload == line[5..]
  {
    var after := line[5..];
    if |after| > 0 && IsWhitespace(after[0]) then after[1..] else after
  }

  /** The payloads of one event: its lines that start with "data:", in
      order, with the blank payloads left out. A blank event has none. */
  function EventPayloads(evt: string): seq<string>
  {
    if Trim(evt) == "" then [] else LinePayloads(Split(Trim(evt), "\n"))
  }

  function LinePayloads(lines: seq<string>): seq<string>
  {
    if lines == [] then [] else LinePayloads(lines[..|lines| - 1]) + LinePayload(lines[|lines| - 1])
  }

  /** The payload of one line, if it carries a non-blank one. */
  function LinePayload(line: string): seq<string> {
    if StartsWith(line, "data:") && Trim(DataPayload(line)) != "" then [DataPayload(line)] else []
  }

  /** The payloads of a list of events, in order. */
  function Payloads(events: seq<string>): seq<string>
  {
    if events == [] then [] else Payloads(events[..|events| - 1]) + EventPayloads(events[|events| - 1])
  }

  /** No payload handed to `JSON.parse` is blank. */
  lemma {:induction false} PayloadsNotBlank(events: seq<string>)
    ensures forall i :: 0 <= i < |Payloads(events)| ==> Trim(Payloads(events)[i]) != ""
  {
    if events != [] {
      PayloadsNotBlank(events[..|events| - 1]);
      var evt := events[|events| - 1];
      if Trim(evt) != "" {
        LinesNotBlank(Split(Trim(evt), "\n"));
      }
    }
  }

  lemma {:induction false} LinesNotBlank(lines: seq<string>)
    ensures forall i :: 0 <= i < |LinePayloads(lines)| ==> Trim(LinePayloads(lines)[i]) != ""
  {
    if lines != [] {
      LinesNotBlank(lines[..|lines| - 1]);
    }
  }

  /** The loops of the stream reader that walk the complete events and
      their lines, handing each payload to `JSON.parse`. */
  method ReadPayloads(events: seq<string>) returns (ps: seq<string>)
    ensures ps == Payloads(events)
  {
    ps := [];
    var i := 0;
    while i < |events|
      invariant 0 <= i <= |events|
      invariant ps == Payloads(events[..i])
    {
      var found := ReadEvent(events[i]);
      assert events[..i + 1][..i] == events[..i];
      assert Payloads(events[..i + 1]) == Payloads(events[..i]) + EventPayloads(events[i]);
      ps := ps + found;
      i := i + 1;
    }
    assert events[..i] == events;
  }

  /** The body of the outer loop: a blank event is skipped, the lines of
      any other are read. */
  method ReadEvent(evt: string) returns (ps: seq<string>)
    ensures ps == EventPayloads(evt)
  {
    ps := [];
    if Trim(evt) != "" {
      var lines := Split(Trim(evt), "\n");
      ps := ReadLines(lines);
    }
  }

  /** The inner loop, over the lines of one event. */
  method ReadLines(lines: seq<string>) returns (ps: seq<string>)
    ensures ps == LinePayloads(lines)
  {
    ps := [];
    var j := 0;
    while j < |lines|
      invariant 0 <= j <= |lines|
      invariant ps == LinePayloads(lines[..j])
    {
      assert lines[..j + 1][..j] == lines[..j];
      var found := ReadLine(lines[j]);
      ps := ps + found;
      j := j + 1;
    }
    assert lines[..j] == lines;
  }

  /** The body of the inner loop: a "data:" line with a non-blank payload
      hands that payload on. */
  method ReadLine(line: string) returns (ps: seq<string>)
    ensures ps == LinePayload(line)
  {
    ps := [];
    if StartsWith(line, "data:") {
      var jsonString := DataPayload(line);
      if Trim(jsonString) != "" {
        ps := [jsonString];
      }
    }
  }

  /** What the conversion endpoint writes for one message: "data: ",
      the JSON text, and a blank line. */
  function Message(json: string): string {
    "data: " + json + EventSeparator
  }

  /** A message received whole, after a buffer holding no partial event,
      frames to exactly one event whose one payload is the JSON text, and
      leaves the buffer empty. */
  lemma MessageRoundTrip(json: string)
    requires IsTrimmed(json) && json != "" && '\n' !in json
    ensures Split(Message(json), EventSeparator) == ["data: " + json, ""]
    ensures Payloads(["data: " + json]) == [json]
  {
    DataLinePlain(json);
    SplitAtEnd("data: " + json);
    DataLinePayloads(json);
  }

  /** The line "data: " + json is trimmed and holds no line break. */
  lemma DataLinePlain(json: string)
    requires IsTrimmed(json) && json != "" && '\n' !in json
    ensures var line := "data: " + json; '\n' !in line && IsTrimmed(line)
  {
    var line := "data: " + json;
    assert forall k :: 0 <= k < |line| - 6 ==> line[k + 6] == json[k];
    assert line[|line| - 1] == json[|json| - 1];
  }

  /** The event made of that one line has the JSON text as its one
      payload. */
  lemma DataLinePayloads(json: string)
    requires IsTrimmed(json) && json != "" && '\n' !in json
    ensures Payloads(["data: " + json]) == [json]
  {
    var line := "data: " + json;
    DataLinePlain(json);
    TrimOfTrimmed(line);
    SplitWithoutBreak(line);
    DataLineRead(json);
    var one: seq<string> := [line];
    assert one[..0] == [];
    assert LinePayloads(one) == [json];
    assert Payloads(one) == [json];
  }

  /** The line "data: " + json hands on the JSON text, without the space. */
  lemma DataLineRead(json: string)
    requires IsTrimmed(json) && json != ""
    ensures LinePayload("data: " + json) == [json]
  {
    var line := "data: " + json;
    assert line[..5] == "data:" && line[5..] == " " + json;
    TrimOfTrimmed(json);
  }

  /** A line without a line break splits into itself. */
  lemma SplitWithoutBreak(line: string)
    requires '\n' !in line
    ensures Split(line, "\n") == [line]
  {
    forall k: nat | k < |line| ensures !OccursAt(line, "\n", k) {
      assert line[k..k + 1][0] == line[k];
    }
  }

  /** Splitting a line followed by the separator. */
  lemma SplitAtEnd(line: string)
    requires '\n' !in line
    ensures Split(line + EventSeparator, EventSeparator) == [line, ""]
  {
    var s := line + EventSeparator;
    assert OccursAt(s, EventSeparator, |line|);
    assert forall k :: 0 <= k < |line| ==> s[k] == line[k] && s[k] != '\n';
    var i := IndexOf(s, EventSeparator).value;
    assert s[i] == '\n';
    assert i == |line|;
    assert s[..i] == line;
    assert s[i + 2..] == "";
    assert Split("", EventSeparator) == [""];
  }
}
