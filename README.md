# temp_check in Dafny

`temp_check.py` is a command-line tool. It reads the CPU temperature of a Mac from the
output of `istats cpu temperature`, then prints the temperature in one of three
formats: plain, verbose or JSON. This project models the two pieces of logic in it:

- **Extraction**, the parsing inside `cpu_temp`. The text the tool printed is
  split into lines. The first line holding `CPU temperature` is taken. Its text
  between the first and second colon is stripped of whitespace and cut at the
  first space. A line without a colon ends in `IndexError`, and `cpu_temp`'s
  catch-all turns that into `None`. So does a failed tool run.
- **Formatting**, `format_temperature`. An absent reading prints a fixed error
  message. A present one prints as a one-entry JSON object, as a sentence, or
  with a `°C` suffix.

Running the tool is an input to the model (`ToolOutcome`): either the decoded
text or a failure. The Python string operations the code relies on are modelled
in `PyStr.dfy`: `str.split` with a one-character separator, `in` on strings,
`str.strip` with Python's whitespace set, and `str.join` as the inverse of
split. `json.dumps` of a one-entry dictionary with its default settings is
modelled in `JsonText.dfy`. Those settings are `ensure_ascii` escaping, with
lowercase `\uXXXX` and surrogate pairs above U+FFFF, and the `": "` separator.
`JsonText.dfy` also has a decoder, which serves as the encoder's round-trip
partner.

Two consequences of the code that are easy to miss:

- The reading ends only at a space, so `CPU temperature: 55.0°C` yields
  `55.0°C`, unit included (`TempCheck.DegreeSignKept`). The plain format then
  repeats the unit, giving `55.0°C°C` (`TempCheck.UnitRepeatedInPlain`).
- `json.dumps` escapes the degree sign of the key. The JSON output is
  therefore `{"CPU Temperature (\u00b0C)": "42.5"}`
  (`TempCheck.FormatJsonExample`).

## Model

| member | source | states |
|---|---|---|
| `PyStr.Split` | temp_check.py:29 | `str.split` with one separator character: there is always at least one piece, and no piece contains the separator |
| `PyStr.SplitCount` | temp_check.py:29 | there is exactly one more piece than there are separators, so `split(":")[1]` exists exactly when the line has a colon |
| `PyStr.JoinSplit` | temp_check.py:27 | joining the pieces of a split with the separator gives back the original text |
| `PyStr.SplitJoin` | temp_check.py:27 | splitting separator-free lines joined with the separator gives back exactly those lines |
| `PyStr.SplitPrefix` | temp_check.py:29 | a separator-free prefix becomes part of the first piece and leaves the other pieces unchanged |
| `PyStr.SplitAtSeparator` | temp_check.py:29 | text up to the first separator is the first piece; the remaining pieces are the split of what follows the separator |
| `PyStr.SplitNoSeparator` | temp_check.py:29 | text without the separator splits into itself alone |
| `PyStr.SplitFirstPieceEmpty` | temp_check.py:29 | text that is empty or starts with the separator has an empty first piece |
| `PyStr.FirstPiece` | temp_check.py:29 | `split(" ")[0]`: the longest prefix without the separator, ending at the end of the text or just before a separator |
| `PyStr.IsSpace` | temp_check.py:29 | `isspace()`, the set `strip()` removes: U+0009-U+000D, U+001C-U+0020, U+0085, U+00A0, U+1680, U+2000-U+200A, U+2028, U+2029, U+202F, U+205F and U+3000. Its contract states that space, tab and the line breaks are whitespace, and that no visible ASCII character is |
| `PyStr.Contains` | temp_check.py:28 | the substring test `p in s` holds exactly when `p` occurs at some position of `s` |
| `PyStr.OccursShift` | temp_check.py:28 | an occurrence in `s` at position `j >= 1` is an occurrence in `s[1..]` at `j - 1`, and the reverse |
| `PyStr.StripLeft` | temp_check.py:29 | drops exactly the leading whitespace: the result is a suffix, everything removed is whitespace, and the result does not start with whitespace |
| `PyStr.StripRight` | temp_check.py:29 | drops exactly the trailing whitespace: the result is a prefix, everything removed is whitespace, and the result does not end with whitespace |
| `PyStr.Strip` | temp_check.py:29 | `strip()`: the result is a slice of the input with only whitespace around it, and the result neither starts nor ends with whitespace |
| `PyStr.StripIdempotent` | temp_check.py:29 | stripping twice is the same as stripping once |
| `PyStr.StripSubset` | temp_check.py:29 | stripping introduces no character the input lacked |
| `JsonText.HexDigit` | temp_check.py:47 | one hexadecimal digit, `0`-`9` or lower-case `a`-`f` |
| `JsonText.Hex` | temp_check.py:47 | exactly `width` hexadecimal digits, all `0`-`9` or lower-case `a`-`f` |
| `JsonText.ParseHexOfHex` | temp_check.py:47 | reading the hex digits back gives the number, for every number that fits in the width |
| `JsonText.HexValueOfDigit` | temp_check.py:47 | each lowercase hex digit reads back as its value |
| `JsonText.UnicodeEscape` | temp_check.py:47 | `\u` followed by four lower-case hexadecimal digits |
| `JsonText.EscapeChar` | temp_check.py:47 | one character as `ensure_ascii` writes it: printable ASCII only, and a single character exactly when the character is copied verbatim |
| `JsonText.Escape` | temp_check.py:47 | the encoded string body is printable ASCII, and a string needing no escape is copied unchanged |
| `JsonText.EscapeAppend` | temp_check.py:47 | encoding works character by character: the encoding of a concatenation is the concatenation of the encodings |
| `JsonText.DumpString` | temp_check.py:47 | a JSON string is quoted, printable ASCII text |
| `JsonText.DumpPair` | temp_check.py:47 | a one-entry object is printable ASCII text in braces |
| `JsonText.DecodeSingleEscape` | temp_check.py:47 | a `\uXXXX` escape of a BMP character decodes back to that character, using six characters |
| `JsonText.DecodeSurrogatePair` | temp_check.py:47 | the surrogate pair written for a character above U+FFFF decodes back to that character, using twelve characters |
| `JsonText.DecodeEscapeChar` | temp_check.py:47 | every character's encoding decodes back to the character, whatever follows it |
| `JsonText.UnescapeEscape` | temp_check.py:47 | decoding an encoded string body gives back the original string |
| `JsonText.DumpStringInjective` | temp_check.py:47 | different strings give different JSON strings |
| `TempCheck.IsReadingLine` | temp_check.py:28 | a line is the reading line exactly when `CPU temperature` occurs in it at some position |
| `TempCheck.FirstMatch` | temp_check.py:27-28 | the loop's choice: the first line holding the label, or none when no line holds it |
| `TempCheck.FirstMatchAt` | temp_check.py:27-31 | a labelled line with no labelled line before it is the one chosen |
| `TempCheck.ParseLine` | temp_check.py:29-39 | the field of a labelled line is absent exactly when the line has no colon; a present reading contains no space and no colon |
| `TempCheck.SecondField` | temp_check.py:29 | `split(":")[1]` is the text between the first colon and the next colon or the end |
| `TempCheck.ParseLineFields` | temp_check.py:29 | the reading of `a:b` or `a:b:...` is the stripped `b` cut at its first space |
| `TempCheck.Extract` | temp_check.py:27-33 | a present reading contains no space and no colon; it is absent when no line holds the label |
| `TempCheck.ExtractFromLines` | temp_check.py:27-31 | output made of newline-free lines yields the reading of the first labelled line |
| `TempCheck.FirstMatchAfter` | temp_check.py:27-31 | after unlabelled lines, the first labelled line is the one chosen, whatever follows it |
| `TempCheck.ExtractFirstLabelledLine` | temp_check.py:27-31 | the reading depends only on the first labelled line: lines after it never change it |
| `TempCheck.ExtractSingleLine` | temp_check.py:27-31 | output consisting of one labelled line yields that line's reading |
| `TempCheck.CpuTemp` | temp_check.py:20-39 | `cpu_temp`: a failed run gives no reading; otherwise the reading is the extracted one. it logs at info level exactly when there is a reading, and at warning level exactly when no line holds the label |
| `TempCheck.Format` | temp_check.py:41-52 | `format_temperature`: the error message exactly when the reading is absent, for every format. Otherwise JSON for `json`, the sentence for `verbose`, and the reading plus `°C` for every other format |
| `TempCheck.DegreeSignEscape` | temp_check.py:47 | `ensure_ascii` writes the degree sign as `\u00b0` |
| `TempCheck.EscapeAroundDegreeSign` | temp_check.py:47 | a degree sign between verbatim text is the only part that is escaped |
| `TempCheck.JsonKeyEncoding` | temp_check.py:46-47 | the JSON output is the fixed prefix with the escaped key, then the encoded reading, then `"}` |
| `TempCheck.JsonPrefixText` | temp_check.py:47 | the fixed prefix is `{"CPU Temperature (\u00b0C)": "` |
| `TempCheck.FormatJsonVerbatim` | temp_check.py:46-47 | a reading that JSON copies verbatim appears unchanged between the prefix and `"}` |
| `TempCheck.ReadBackJson` | temp_check.py:46-47 | the reading is recovered from the JSON output |
| `TempCheck.ReadBackVerbose` | temp_check.py:48-49 | the reading is recovered from the sentence |
| `TempCheck.ReadBackPlain` | temp_check.py:50-51 | the reading is recovered from the plain output, and likewise for any other format |
| `TempCheck.FormatReadBack` | temp_check.py:41-52 | for every format, the printed text determines the reading, including its absence |
| `TempCheck.FormatInjective` | temp_check.py:41-52 | two readings that print the same in one format are equal |
| `TempCheck.Report` | temp_check.py:80-81 | what the program prints is the error message exactly when `cpu_temp` found no reading, and always after a failed run; an extracted reading can be read back from it |
| `TempCheck.FormatPlainExample` | temp_check.py:50-51 | `42.5` prints as `42.5°C` |
| `TempCheck.FormatJsonExample` | temp_check.py:46-47 | `42.5` prints as `{"CPU Temperature (\u00b0C)": "42.5"}` |
| `TempCheck.ExampleLineLabelled` | temp_check.py:28 | `CPU temperature: 55.0°C` holds the label |
| `TempCheck.ExampleField` | temp_check.py:29 | the field ` 55.0°C` stripped and cut at a space is `55.0°C` |
| `TempCheck.ExampleLineReading` | temp_check.py:29 | the line `CPU temperature: 55.0°C` reads as `55.0°C` |
| `TempCheck.DegreeSignKept` | temp_check.py:27-31 | the output `CPU temperature: 55.0°C` yields `55.0°C`: the unit stays attached to the number |
| `TempCheck.UnitRepeatedInPlain` | temp_check.py:50-51 | such a reading prints as `55.0°C°C` in the plain format |

## Left out

- `istats_installation` (temp_check.py:14-18) looks the program up on `PATH` and prints a hint. That is environment I/O with no logic in it.
- The `subprocess.check_output` call and the UTF-8 decoding (temp_check.py:25) become the input `ToolOutcome`: decoded text or `Failed`. A non-zero exit, a missing program and undecodable output all reach the same handlers, so they are all `Failed`.
- Logging (temp_check.py:8-12, 23, 26, 30, 32, 35, 38, 75) is modelled only as the severity at which `cpu_temp` logs its outcome. Messages, timestamps and the log file are not modelled.
- The level filter `main` sets (temp_check.py:70-73) is not modelled. Without `--log` the root level is WARNING, so the info record of a found reading is dropped and nothing reaches the log file in that case.
- `main` (temp_check.py:54-82) is argparse handling and `print`. `Report` models its last two steps. The restriction of `--format` to three choices is not needed: `Format` is defined, and proved, for every selector.
- Lone surrogate code points in the tool's text cannot occur in a Dafny `string`. `JsonText` therefore covers only Unicode scalar values.
- The verbose format has no worked example among the lemmas. Its general form is stated by `TempCheck.Format`, and its read-back by `TempCheck.ReadBackVerbose`.
