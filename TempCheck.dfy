/**
  The logic of `temp_check.py`: pulling the CPU temperature out of the
  text that `istats cpu temperature` prints (`cpu_temp`), and rendering
  the optional reading in the plain, verbose or JSON format
  (`format_temperature`). Running the tool is not modelled: its outcome
  is an input, either the decoded text it printed or a failure.
*/
module TempCheck {
  import opened Wrappers
  import opened PyStr
  import JsonText

  /** The label that marks the line holding the reading. */
  const Label := "CPU temperature"

  /** What `format_temperature` returns when there is no reading. */
  const ErrorMessage := "Error: Could not retrieve CPU temperature."

  /**
    The key of the one-entry JSON object, `CPU Temperature (°C)`, written
    as the text around its degree sign so that proofs about its encoding
    handle the two verbatim stretches as wholes, not character by character.
  */
  const KeyHead := "CPU Temperature ("
  const KeyTail := "C)"
  const JsonKey := KeyHead + "°" + KeyTail

  /** The key as `json.dumps` writes it, its degree sign escaped. */
  const EncodedKey := KeyHead + "\\u00b0" + KeyTail

  /** What precedes the reading in JSON output: `{`, the quoted key, `: ` and the opening quote. */
  const JsonPrefix := "{\"" + EncodedKey + "\": \""

  /** What follows the encoded reading in JSON output. */
  const JsonSuffix := "\"}"

  const VerbosePrefix := "The current CPU temperature is "
  const VerboseSuffix := " degrees Celsius."
  const DegreesSuffix := "°C"

  /**
    How running `istats cpu temperature` ended: with the text it printed,
    decoded as UTF-8, or with a failure (a non-zero exit, the program not
    starting, output that is not UTF-8).
  */
  datatype ToolOutcome = Output(text: string) | Failed

  /**
    The severity at which `cpu_temp` logs its outcome. Whether the record
    reaches the log file depends on the level `main` sets, which is not
    modelled.
  */
  datatype LogLevel = Info | Warning | Error

  /** What `cpu_temp` returns, with the severity at which it logs the outcome. */
  datatype Reading = Reading(temp: Option<string>, level: LogLevel)

  /** `"CPU temperature" in line`: the label starts at some index of the line. */
  predicate IsReadingLine(line: string): (b: bool)
    ensures b <==> exists i :: OccursAt(line, Label, i)
  {
    Contains(line, Label)
  }

  /** The index of the first line holding the label, if any line does. */
  function FirstMatch(lines: seq<string>): (r: Option<nat>)
    ensures r.Some? ==> r.value < |lines| && IsReadingLine(lines[r.value])
    ensures r.Some? ==> forall j :: 0 <= j < r.value ==> !IsReadingLine(lines[j])
    ensures r.None? ==> forall j :: 0 <= j < |lines| ==> !IsReadingLine(lines[j])
  {
    if lines == [] then None
    else if IsReadingLine(lines[0]) then Some(0)
    else match FirstMatch(lines[1..])
      case None => None
      case Some(i) => Some(i + 1)
  }

  /** The contract of `FirstMatch` pins its result down. */
  lemma FirstMatchAt(lines: seq<string>, k: nat)
    requires k < |lines| && IsReadingLine(lines[k])
    requires forall j :: 0 <= j < k ==> !IsReadingLine(lines[j])
    ensures FirstMatch(lines) == Some(k)
  {
  }

  /**
    `line.split(":")[1].strip().split(" ")[0]`: the text after the first
    colon, up to a second colon, stripped of surrounding whitespace and cut
    at the first space. A line without a colon raises `IndexError`, which
    the catch-all handler of `cpu_temp` turns into `None`.
  */
  function ParseLine(line: string): (r: Option<string>)
    ensures r.None? <==> ':' !in line
    ensures r.Some? ==> ' ' !in r.value && ':' !in r.value
  {
    var fields := Split(line, ':');
    SplitCount(line, ':');
    if |fields| < 2 then None
    else
      var token := FirstPiece(Strip(fields[1]), ' ');
      StripSubset(fields[1], ':');
      Some(token)
  }

  /**
    For a line `a:b` or `a:b:...` whose first two fields are `a` and `b`,
    the reading is the first space-separated word of `b` stripped.
  */
  lemma ParseLineFields(a: string, b: string, rest: string)
    requires ':' !in a && ':' !in b
    requires rest == [] || rest[0] == ':'
    ensures ParseLine(a + [':'] + b + rest) == Some(FirstPiece(Strip(b), ' '))
  {
    SecondField(a, b, rest);
  }

  /** `(a + ":" + b + rest).split(":")[1] == b` when `rest` is empty or starts a new field. */
  lemma SecondField(a: string, b: string, rest: string)
    requires ':' !in a && ':' !in b
    requires rest == [] || rest[0] == ':'
    ensures |Split(a + [':'] + b + rest, ':')| >= 2 && Split(a + [':'] + b + rest, ':')[1] == b
  {
    var br := b + rest;
    assert a + [':'] + b + rest == a + [':'] + br;
    SplitAtSeparator(a, br, ':');
    SplitPrefix(b, rest, ':');
    SplitFirstPieceEmpty(rest, ':');
    assert b + [] == b;
  }

  /**
    The reading in the tool's text: the field of the first line, of the
    text split on newlines, that holds the label.
  */
  function Extract(output: string): (r: Option<string>)
    ensures r.Some? ==> ' ' !in r.value && ':' !in r.value
    ensures (forall i :: 0 <= i < |Split(output, '\n')| ==> !IsReadingLine(Split(output, '\n')[i]))
      ==> r.None?
  {
    var lines := Split(output, '\n');
    match FirstMatch(lines)
    case None => None
    case Some(i) => ParseLine(lines[i])
  }

  /** Extraction from newline-free lines joined with newlines reads the first labelled one. */
  lemma ExtractFromLines(lines: seq<string>, k: nat)
    requires |lines| >= 1 && forall i :: 0 <= i < |lines| ==> '\n' !in lines[i]
    requires FirstMatch(lines) == Some(k)
    ensures Extract(Join(lines, '\n')) == ParseLine(lines[k])
  {
    SplitJoin(lines, '\n');
  }

  /**
    The first line with the label decides the reading: the lines before it
    do not hold the label, and whatever lines come after it do not matter.
  */
  lemma ExtractFirstLabelledLine(before: seq<string>, line: string, after: seq<string>)
    requires forall i :: 0 <= i < |before| ==> '\n' !in before[i] && !IsReadingLine(before[i])
    requires '\n' !in line && IsReadingLine(line)
    requires forall i :: 0 <= i < |after| ==> '\n' !in after[i]
    ensures Extract(Join(before + [line] + after, '\n')) == ParseLine(line)
  {
    var lines := before + [line] + after;
    NoNewlineInLines(before, line, after);
    FirstMatchAfter(before, line, after);
    ExtractFromLines(lines, |before|);
  }

  /** No line of `before + [line] + after` holds a newline when none of the parts does. */
  lemma NoNewlineInLines(before: seq<string>, line: string, after: seq<string>)
    requires forall i :: 0 <= i < |before| ==> '\n' !in before[i]
    requires '\n' !in line
    requires forall i :: 0 <= i < |after| ==> '\n' !in after[i]
    ensures forall i :: 0 <= i < |before + [line] + after| ==> '\n' !in (before + [line] + after)[i]
  {
    var lines := before + [line] + after;
    forall i | 0 <= i < |lines| ensures '\n' !in lines[i] {
      if i < |before| {
        assert lines[i] == before[i];
      } else if i > |before| {
        assert lines[i] == after[i - |before| - 1];
      }
    }
  }

  /** The first labelled line comes right after the unlabelled `before`. */
  lemma FirstMatchAfter(before: seq<string>, line: string, after: seq<string>)
    requires forall i :: 0 <= i < |before| ==> !IsReadingLine(before[i])
    requires IsReadingLine(line)
    ensures FirstMatch(before + [line] + after) == Some(|before|)
  {
    var lines := before + [line] + after;
    assert lines[|before|] == line;
    forall j | 0 <= j < |before| ensures !IsReadingLine(lines[j]) {
      assert lines[j] == before[j];
    }
    FirstMatchAt(lines, |before|);
  }

  /**
    `cpu_temp`: the reading, logged at info level when found; no reading,
    logged at warning level when no line holds the label; no reading,
    logged at error level when the tool failed or the labelled line has
    no colon.
  */
  function CpuTemp(outcome: ToolOutcome): (r: Reading)
    ensures r.temp.Some? <==> r.level == Info
    ensures outcome.Failed? ==> r == Reading(None, Error)
    ensures outcome.Output? ==> r.temp == Extract(outcome.text)
    ensures r.level == Warning <==> outcome.Output? && FirstMatch(Split(outcome.text, '\n')).None?
  {
    match outcome
    case Failed => Reading(None, Error)
    case Output(text) =>
      var lines := Split(text, '\n');
      match FirstMatch(lines)
      case None => Reading(None, Warning)
      case Some(i) =>
        match ParseLine(lines[i])
        case None => Reading(None, Error)
        case Some(temp) => Reading(Some(temp), Info)
  }

  /**
    `format_temperature`: the fixed error message exactly when there is no
    reading, whatever the format; otherwise the JSON object, the sentence,
    or the reading with a degree-Celsius suffix for every other format.
  */
  function Format(temp: Option<string>, outputFormat: string): (r: string)
    ensures temp.None? <==> r == ErrorMessage
    ensures temp.Some? && outputFormat == "json" ==> r == JsonText.DumpPair(JsonKey, temp.value)
    ensures temp.Some? && outputFormat == "verbose" ==> r == VerbosePrefix + temp.value + VerboseSuffix
    ensures temp.Some? && outputFormat != "json" && outputFormat != "verbose" ==> r == temp.value + DegreesSuffix
  {
    match temp
    case None => ErrorMessage
    case Some(t) =>
      if outputFormat == "json" then
        var r := JsonText.DumpPair(JsonKey, t);
        assert r[0] != ErrorMessage[0];
        r
      else if outputFormat == "verbose" then
        var r := VerbosePrefix + t + VerboseSuffix;
        assert r[0] != ErrorMessage[0];
        r
      else
        var r := t + DegreesSuffix;
        assert r[|r| - 1] != ErrorMessage[|ErrorMessage| - 1];
        r
  }

  /** The one non-ASCII character of the key, as `ensure_ascii` writes it. */
  lemma DegreeSignEscape()
    ensures JsonText.Escape(['°']) == "\\u00b0"
  {
    assert JsonText.Hex(0xB0, 4) == "00b0" by {
      assert JsonText.Hex(0, 1) == "0";
      assert JsonText.Hex(0, 2) == "00";
      assert JsonText.Hex(0xB, 3) == "00b";
    }
    assert JsonText.EscapeChar('°') == "\\u00b0";
  }

  /** The encoding of two verbatim stretches around a degree sign. */
  lemma EscapeAroundDegreeSign(head: string, tail: string)
    requires forall i :: 0 <= i < |head| ==> JsonText.IsVerbatim(head[i])
    requires forall i :: 0 <= i < |tail| ==> JsonText.IsVerbatim(tail[i])
    ensures JsonText.Escape(head + ['°'] + tail) == head + "\\u00b0" + tail
  {
    JsonText.EscapeAppend(head + ['°'], tail);
    JsonText.EscapeAppend(head, ['°']);
    DegreeSignEscape();
  }

  /** The key is encoded with its degree sign escaped, as `ensure_ascii` does. */
  lemma JsonKeyEncoding(t: string)
    ensures JsonText.DumpPair(JsonKey, t) == JsonPrefix + JsonText.Escape(t) + JsonSuffix
  {
    EscapeAroundDegreeSign(KeyHead, KeyTail);
    var k, e := JsonText.Escape(JsonKey), JsonText.Escape(t);
    assert k == EncodedKey;
    calc {
      JsonText.DumpPair(JsonKey, t);
      "{" + ("\"" + k + "\"") + ": " + ("\"" + e + "\"") + "}";
      { Regroup(k, e); }
      ("{\"" + k + "\": \"") + e + "\"}";
    }
  }

  /** Regrouping the pieces of a one-entry JSON object. */
  lemma Regroup(k: string, e: string)
    ensures "{" + ("\"" + k + "\"") + ": " + ("\"" + e + "\"") + "}" == ("{\"" + k + "\": \"") + e + "\"}"
  {
  }

  /**
    Reads the reading back from what `format_temperature` printed:
    `Some(None)` for the error message, `Some(Some(t))` for a rendered
    reading `t`, `None` for text the format never produces.
  */
  function ReadBack(outputFormat: string, display: string): Option<Option<string>> {
    if display == ErrorMessage then Some(None)
    else if outputFormat == "json" then
      if |display| >= |JsonPrefix| + |JsonSuffix| && display[..|JsonPrefix|] == JsonPrefix
         && display[|display| - |JsonSuffix|..] == JsonSuffix
      then
        match JsonText.Unescape(display[|JsonPrefix|..|display| - |JsonSuffix|])
        case Some(t) => Some(Some(t))
        case None => None
      else None
    else if outputFormat == "verbose" then
      if |display| >= |VerbosePrefix| + |VerboseSuffix| && display[..|VerbosePrefix|] == VerbosePrefix
         && display[|display| - |VerboseSuffix|..] == VerboseSuffix
      then Some(Some(display[|VerbosePrefix|..|display| - |VerboseSuffix|]))
      else None
    else if |display| >= |DegreesSuffix| && display[|display| - |DegreesSuffix|..] == DegreesSuffix
    then Some(Some(display[..|display| - |DegreesSuffix|]))
    else None
  }

  /** A JSON object printed by `format_temperature` reads back as its reading. */
  lemma ReadBackJson(t: string)
    ensures ReadBack("json", Format(Some(t), "json")) == Some(Some(t))
  {
    var d := Format(Some(t), "json");
    JsonKeyEncoding(t);
    var e := JsonText.Escape(t);
    assert d == JsonPrefix + e + JsonSuffix;
    assert d[..|JsonPrefix|] == JsonPrefix;
    assert d[|d| - |JsonSuffix|..] == JsonSuffix;
    assert d[|JsonPrefix|..|d| - |JsonSuffix|] == e;
    JsonText.UnescapeEscape(t);
  }

  /** A sentence printed by `format_temperature` reads back as its reading. */
  lemma ReadBackVerbose(t: string)
    ensures ReadBack("verbose", Format(Some(t), "verbose")) == Some(Some(t))
  {
    var d := Format(Some(t), "verbose");
    assert d[..|VerbosePrefix|] == VerbosePrefix;
    assert d[|d| - |VerboseSuffix|..] == VerboseSuffix;
    assert d[|VerbosePrefix|..|d| - |VerboseSuffix|] == t;
  }

  /** A reading with a degree suffix, as the plain and every other format print it, reads back. */
  lemma ReadBackPlain(t: string, outputFormat: string)
    requires outputFormat != "json" && outputFormat != "verbose"
    ensures ReadBack(outputFormat, Format(Some(t), outputFormat)) == Some(Some(t))
  {
    var d := Format(Some(t), outputFormat);
    assert d[|d| - |DegreesSuffix|..] == DegreesSuffix;
    assert d[..|d| - |DegreesSuffix|] == t;
  }

  /** Whatever the format, the printed text determines the reading it shows. */
  lemma FormatReadBack(temp: Option<string>, outputFormat: string)
    ensures ReadBack(outputFormat, Format(temp, outputFormat)) == Some(temp)
  {
    if temp.Some? {
      if outputFormat == "json" {
        ReadBackJson(temp.value);
      } else if outputFormat == "verbose" {
        ReadBackVerbose(temp.value);
      } else {
        ReadBackPlain(temp.value, outputFormat);
      }
    }
  }

  /** Two readings that print the same in one format are the same reading. */
  lemma FormatInjective(a: Option<string>, b: Option<string>, outputFormat: string)
    requires Format(a, outputFormat) == Format(b, outputFormat)
    ensures a == b
  {
    FormatReadBack(a, outputFormat);
    FormatReadBack(b, outputFormat);
  }

  /** The text before the reading in JSON output, with the key's degree sign escaped. */
  lemma JsonPrefixText()
    ensures JsonPrefix == "{\"CPU Temperature (\\u00b0C)\": \""
  {
  }

  /**
    A reading that JSON copies verbatim (printable ASCII without quote or
    backslash) appears as is between the key and the closing `"}`.
  */
  lemma FormatJsonVerbatim(t: string)
    requires forall i :: 0 <= i < |t| ==> JsonText.IsVerbatim(t[i])
    ensures Format(Some(t), "json") == JsonPrefix + t + JsonSuffix
  {
    JsonKeyEncoding(t);
  }

  /**
    What the program prints once the tool has run: the error message
    exactly when no reading came out of it, and always for a failed run.
  */
  function Report(outcome: ToolOutcome, outputFormat: string): (r: string)
    ensures r == ErrorMessage <==> CpuTemp(outcome).temp.None?
    ensures outcome.Failed? ==> r == ErrorMessage
    ensures outcome.Output? && Extract(outcome.text).Some? ==>
      ReadBack(outputFormat, r) == Some(Extract(outcome.text))
  {
    var temp := CpuTemp(outcome).temp;
    FormatReadBack(temp, outputFormat);
    Format(temp, outputFormat)
  }

  /** The reading `42.5` in the plain format. */
  lemma FormatPlainExample()
    ensures Format(Some("42.5"), "plain") == "42.5°C"
  {
  }

  /**
    The reading `42.5` in the JSON format, with the degree sign of the key
    escaped. The expected text is written as prefix, reading and suffix so
    that it lines up with `FormatJsonVerbatim` piece by piece.
  */
  lemma FormatJsonExample()
    ensures Format(Some("42.5"), "json") == "{\"CPU Temperature (\\u00b0C)\": \"" + "42.5" + "\"}"
  {
    FormatJsonVerbatim("42.5");
    JsonPrefixText();
  }

  /** Output made of one labelled line yields that line's reading. */
  lemma ExtractSingleLine(line: string)
    requires '\n' !in line && IsReadingLine(line)
    ensures Extract(line) == ParseLine(line)
  {
    FirstMatchAt([line], 0);
    ExtractFromLines([line], 0);
  }

  /**
    The example line holds the label and no newline. This example lemma and
    the next ones take their text as a parameter fixed by `requires`, which
    keeps the verifier from unfolding the recursive string functions over
    the literal wherever it appears.
  */
  lemma ExampleLineLabelled(line: string)
    requires line == "CPU temperature: 55.0°C"
    ensures IsReadingLine(line) && '\n' !in line
  {
    assert line[..|Label|] == Label;
  }

  /** Stripping the example field and cutting it at a space keeps the unit. */
  lemma ExampleField(field: string)
    requires field == " 55.0°C"
    ensures FirstPiece(Strip(field), ' ') == "55.0°C"
  {
    assert StripLeft(field) == field[1..];
    assert StripRight(field[1..]) == field[1..];
    SplitNoSeparator(field[1..], ' ');
  }

  /** The example line's reading is the number with its unit. */
  lemma ExampleLineReading(line: string)
    requires line == "CPU temperature: 55.0°C"
    ensures ParseLine(line) == Some("55.0°C")
  {
    var head, field := line[..15], line[16..];
    assert line == head + [':'] + field + [];
    ParseLineFields(head, field, []);
    ExampleField(field);
  }

  /**
    The reading keeps the unit glued to the number, since only a space
    ends it: the line `CPU temperature: 55.0°C` gives `55.0°C`.
  */
  lemma DegreeSignKept()
    ensures Extract("CPU temperature: 55.0°C") == Some("55.0°C")
  {
    var line := "CPU temperature: 55.0°C";
    ExampleLineLabelled(line);
    ExampleLineReading(line);
    ExtractSingleLine(line);
  }

  /** A reading that carries its unit gets the unit a second time in the plain format. */
  lemma UnitRepeatedInPlain()
    ensures Format(Some("55.0°C"), "plain") == "55.0°C°C"
  {
  }
}
