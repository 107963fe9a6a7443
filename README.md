# Ensemble embed generator: a Dafny model

This project models the text-processing core of the standalone embed
generator `create-sec-json-embed.py`. The generator turns a song request
(song title, game, needed parts, current players, tracks) into the record
of a chat "embed" advertising a small music ensemble. It has five parts:

- **Field parsers.** `parse_musicians_string` reads `part:name; part:name`
  into a list of pairs. `parse_needed_instruments` reads `a; b` into a
  list of part names.
- **The formatter.** `create_ensemble_json` builds the embed record: two
  fields ("Musicians" and "Tracks"), a title, a thumbnail, an author, a
  description and a colour. The record is modelled as a datatype, not as
  JSON text.
- **The `key=value` reader** inside `parse_config_file`.
- **The config normaliser** `process_config`. It changes a dictionary in
  place, splitting comma lists and reading comma-separated musician
  pairs.
- **The output-file name** built in `process_csv`: the row index padded
  to three digits, an underscore, a sanitised song title, and `.json`.

Python's string operations are modelled exactly in `PyText`:

- `str.isspace`, with the full set of 29 whitespace code points;
- `strip`, `lstrip` and `rstrip`;
- `split(sep)`, which keeps empty pieces;
- `split(c, 1)` unpacked into two names;
- `sep.join`.

An exception that Python raises becomes the `Err` case of a `Result`.
`ValueError` is modelled by its two unpacking forms: not enough values
and too many values.

Modules, one per file:

| file | module | contents |
|---|---|---|
| `common.dfy` | `Common` | `Option`, `Result`, `ValueError` |
| `pytext.dfy` | `PyText` | Python `str` operations and their laws |
| `field_parsers.dfy` | `FieldParsers` | the two `;` parsers |
| `ensemble.dfy` | `Ensemble` | the embed record and its two texts |
| `config_file.dfy` | `ConfigFile` | the `key=value` reader and `process_config` |
| `output_name.dfy` | `OutputName` | the file-name sanitiser and index padding |

### The imperative parts

These keep the source's imperative form. Each method is proved equal to a
specification function, and the properties are proved about that function.

- `ParseMusiciansString` builds the pair list in a loop.
- `ReadKeyValues` fills the dictionary line by line and stops at the first
  line that cannot be unpacked.
- `Config.Process` changes the `entries` field of a `Config` object in
  place, in the source's three steps.
- `ParseCommaPairs` is its musicians loop.

When the musicians step raises, `musicians_needed` has already been
converted and the other fields are untouched. `Config.Process` states this.

### Behaviour worth noting

- **Tracks line.** The tracks line reads `- Original: ...`
  (create-sec-json-embed.py:55). The bot front end in bot_root/main.py:122
  writes `- Original(s): ...` instead, and that front end is not modelled.
- **No validation.** `create_ensemble_json` (create-sec-json-embed.py:34-83)
  checks no field, so the model has no validation error.
- **Musicians pieces in `process_config`.** A comma-piece with more than
  one `:` raises an unpacking error (create-sec-json-embed.py:114); it is
  not dropped. `parse_musicians_string` splits at the first `:` only
  (create-sec-json-embed.py:21), so there a name may contain `:`.
- **File name.** The sanitised title is stripped before spaces become
  underscores (create-sec-json-embed.py:153-154). So a space at either end
  of the title never becomes an `_`.

## Model

| member | source | states |
|---|---|---|
| PyText.IsSpace | create-sec-json-embed.py:12 | the characters Python's `str.isspace` accepts, written out as the 29 code points |
| PyText.IsBlank | create-sec-json-embed.py:12 | every character is whitespace; with `StripEmpty` this is the source's `not s or s.isspace()` test |
| PyText.Join | create-sec-json-embed.py:46 | `sep.join(xs)`: the items in order, with `sep` between neighbours |
| PyText.LStrip | create-sec-json-embed.py:18 | `lstrip()` never lengthens, and leaves no leading whitespace and the same last character |
| PyText.RStrip | create-sec-json-embed.py:18 | `rstrip()` never lengthens, and leaves no trailing whitespace and the same first character |
| PyText.Strip | create-sec-json-embed.py:18 | the result of `strip()` neither starts nor ends with whitespace |
| PyText.StripEmpty | create-sec-json-embed.py:12 | `strip()` gives `""` exactly when the text is empty or all whitespace, which is the source's `not s or s.isspace()` test |
| PyText.StripTrimmed | create-sec-json-embed.py:18 | `strip()` leaves text with no outer whitespace unchanged |
| PyText.StripIdempotent | create-sec-json-embed.py:18 | stripping twice is stripping once |
| PyText.StripPadded | create-sec-json-embed.py:95 | whitespace around a text does not change its stripped form |
| PyText.StripOf | create-sec-json-embed.py:95 | whatever whitespace surrounds a trimmed text, `strip()` gives back that text |
| PyText.StripParts | create-sec-json-embed.py:18 | a text is a whitespace prefix, its stripped form, and a whitespace suffix |
| PyText.StripSubstring | create-sec-json-embed.py:18 | `strip()` only removes characters |
| PyText.StripKeepsNonSpace | create-sec-json-embed.py:96 | `strip()` keeps every non-whitespace character |
| PyText.Split | create-sec-json-embed.py:16 | `split(d)` gives at least one piece, and no piece contains `d` |
| PyText.JoinSplit | create-sec-json-embed.py:16 | joining the pieces of `split(d)` with `d` gives the text back |
| PyText.SplitJoin | create-sec-json-embed.py:16 | splitting a `d`-join of pieces without `d` gives the pieces back |
| PyText.SplitConcat | create-sec-json-embed.py:111 | the pieces of `a + d + b` are the pieces of `a`, then the pieces of `b` |
| PyText.SplitOnce | create-sec-json-embed.py:21 | `split(c, 1)` unpacks into two names exactly when `c` occurs. Then the text is `before + c + after`, and `before` has no `c` |
| PyText.SplitOnceOf | create-sec-json-embed.py:21 | `split(c, 1)` splits at the first `c` and nowhere else |
| FieldParsers.MusicianPairs | create-sec-json-embed.py:10-23 | what `parse_musicians_string` returns: the pairs of the `;`-segments, or `[]` for empty or blank input |
| FieldParsers.MusiciansOf | create-sec-json-embed.py:17-22 | the loop over the segments: each segment's pair, if any, in order. There are never more pairs than segments |
| FieldParsers.MusicianOf | create-sec-json-embed.py:18-22 | a segment yields a pair exactly when its stripped text has a `:`. The pair has trimmed sides and no `:` in the part |
| FieldParsers.MusiciansOfWellFormed | create-sec-json-embed.py:17-22 | every pair the loop collects is trimmed on both sides and has no `:` in the part |
| FieldParsers.ParseMusiciansString | create-sec-json-embed.py:10-23 | the loop with `append` computes `MusicianPairs`, and every pair it returns is well formed |
| FieldParsers.BlankGuardRedundant | create-sec-json-embed.py:12-13 | the early `[]` return for empty or blank input agrees with the loop, so blank input gives `[]` |
| FieldParsers.MusiciansOfBlank | create-sec-json-embed.py:19 | blank segments contribute nothing |
| FieldParsers.MusiciansOfAppend | create-sec-json-embed.py:17-22 | segments are read independently, in input order |
| FieldParsers.MusiciansOfCons | create-sec-json-embed.py:17-22 | the first segment's pair, if any, comes first |
| FieldParsers.MusicianPairsConcat | create-sec-json-embed.py:16-22 | the pairs of `a;b` are the pairs of `a`, then those of `b` |
| FieldParsers.MusicianPairsOneSegment | create-sec-json-embed.py:16-22 | text without `;` is one segment |
| FieldParsers.MusicianPairsNoColon | create-sec-json-embed.py:20 | a segment without `:` is dropped |
| FieldParsers.MusicianOfColon | create-sec-json-embed.py:21-22 | a segment is split at its first `:` only, so the name keeps any later `:`. Both sides are stripped |
| FieldParsers.MusicianPairsSegment | create-sec-json-embed.py:16-22 | one `part:name` segment gives exactly the stripped pair |
| FieldParsers.MusicianOfSpaceCons | create-sec-json-embed.py:18 | leading whitespace in a segment is ignored |
| FieldParsers.MusiciansOfSameHead | create-sec-json-embed.py:17-22 | segments that read the same may replace one another |
| FieldParsers.MusicianPairsSpaceCons | create-sec-json-embed.py:16-22 | leading whitespace in the input is ignored |
| FieldParsers.MusicianOfSegment | create-sec-json-embed.py:21-22 | a well-formed pair written `part:name` reads back as itself |
| FieldParsers.MusiciansOfConsSome | create-sec-json-embed.py:22 | a segment that yields a pair puts it in front of the rest |
| FieldParsers.MusiciansOfSegments | create-sec-json-embed.py:17-22 | a list of well-formed pairs, written one per segment, reads back unchanged |
| FieldParsers.MusicianSegmentsNoSemicolon | create-sec-json-embed.py:16 | written pairs add no `;` of their own |
| FieldParsers.MusicianPairsRoundTrip | create-sec-json-embed.py:10-23 | round trip: well-formed pairs without `;`, written `part:name;...`, parse back unchanged |
| FieldParsers.MusicianPairsOfSegment | create-sec-json-embed.py:10-23 | one written pair, with or without a leading blank, parses as itself |
| FieldParsers.MusicianPairsTwoSegments | create-sec-json-embed.py:10-23 | `p:n; q:m` parses as `[(p, n), (q, m)]` |
| FieldParsers.MusicianPairsSkipSegment | create-sec-json-embed.py:19-20 | a segment without `:` before `q:m` is dropped, and only `(q, m)` is read |
| FieldParsers.Instruments | create-sec-json-embed.py:31 | every element the comprehension keeps is non-empty and trimmed |
| FieldParsers.NeededInstruments | create-sec-json-embed.py:26-31 | every part name returned is non-empty and trimmed |
| FieldParsers.InstrumentsAppend | create-sec-json-embed.py:31 | segments are read independently, in input order |
| FieldParsers.InstrumentsBlank | create-sec-json-embed.py:31 | blank segments contribute nothing |
| FieldParsers.NeededBlankGuardRedundant | create-sec-json-embed.py:28-29 | the early `[]` return for empty or blank input agrees with the comprehension |
| FieldParsers.NeededInstrumentsConcat | create-sec-json-embed.py:31 | the names of `a;b` are those of `a`, then those of `b` |
| FieldParsers.NeededInstrumentsSegment | create-sec-json-embed.py:31 | one segment gives its stripped text, or nothing when that is empty |
| FieldParsers.NeededInstrumentsSpaceCons | create-sec-json-embed.py:31 | leading whitespace is ignored |
| FieldParsers.InstrumentsTrimmed | create-sec-json-embed.py:31 | segments that are already non-empty and trimmed are kept as they are |
| FieldParsers.NeededInstrumentsRoundTrip | create-sec-json-embed.py:26-31 | round trip: non-empty trimmed names without `;`, joined with `;`, parse back unchanged |
| FieldParsers.NeededInstrumentsPadded | create-sec-json-embed.py:31 | a name with blanks around it and a trailing `;` gives just the name |
| FieldParsers.NeededInstrumentsTwoParts | create-sec-json-embed.py:26-31 | `a; b; ` gives `[a, b]`, and the empty last segment is dropped |
| Ensemble.CurrentLine | create-sec-json-embed.py:46 | the line `- part: name` for one current musician |
| Ensemble.NeededLine | create-sec-json-embed.py:47 | the line `- part: **_NEEDED_**` for one needed part |
| Ensemble.MusiciansText | create-sec-json-embed.py:46-53 | the two newline-joined groups, with a `\n` between them only when both are non-empty |
| Ensemble.OriginalLine | create-sec-json-embed.py:55 | the line `- Original: track` |
| Ensemble.ExtraTracks | create-sec-json-embed.py:56 | the extra tracks used: none when `other_tracks` is `None` (or empty, which Python treats as false) |
| Ensemble.TracksText | create-sec-json-embed.py:55-57 | a newline and the `- Original:` line, then `\n- ` and the extra tracks joined by `\n- ` when there are any |
| Ensemble.CurrentLines | create-sec-json-embed.py:46 | there is one `- part: name` line per current musician, in order |
| Ensemble.NeededLines | create-sec-json-embed.py:47 | there is one `- part: **_NEEDED_**` line per needed part, in order |
| Ensemble.JoinEmpty | create-sec-json-embed.py:51 | a newline-join of non-empty lines is empty exactly when there are no lines |
| Ensemble.MusiciansTextJoin | create-sec-json-embed.py:46-53 | the musicians text is the newline-join of the current lines, then the needed lines. So one `\n` separates the groups when both are non-empty, either group alone is exactly its own text, and both empty give `""` |
| Ensemble.CurrentLinesNoNewline | create-sec-json-embed.py:46 | a current line has no newline when its part and name have none |
| Ensemble.NeededLinesNoNewline | create-sec-json-embed.py:47 | a needed line has no newline when its part has none |
| Ensemble.MusiciansTextLines | create-sec-json-embed.py:46-53 | splitting the musicians text at newlines gives back exactly the current lines, then the needed lines |
| Ensemble.TrackLines | create-sec-json-embed.py:57 | there is one `- track` line per extra track, in order |
| Ensemble.TrackLinesJoin | create-sec-json-embed.py:57 | `"- " + "\n- ".join(ts)` is the newline-join of the `- t` lines |
| Ensemble.TracksTextJoin | create-sec-json-embed.py:55-57 | the tracks text is a leading newline, the `- Original: ...` line, then one `- t` line per extra track. It is exactly `"\n- Original: " + original` when `other_tracks` is `None` or empty |
| Ensemble.TrackLinesNoNewline | create-sec-json-embed.py:57 | a track line has no newline when its track has none |
| Ensemble.TracksTextLines | create-sec-json-embed.py:55-57 | splitting the tracks text at newlines gives `""`, the original line, then the extra-track lines |
| Ensemble.EnsembleEmbed | create-sec-json-embed.py:40-81 | the fields are exactly `[Musicians, Tracks]`, both not inline. The title is `song ~ game`; the author is "Small Ensemble"; the colour is 16733952; the description is `Run by @` plus the user id, defaulting to `userID`. The thumbnail URL is passed through, and an explicit `None` stays `None`; the default applies only when the argument is omitted |
| Ensemble.EmbedFieldLines | create-sec-json-embed.py:59-71 | the two field values of the embed split back into their musician lines and their track lines |
| ConfigFile.Skipped | create-sec-json-embed.py:95-96 | a line that is blank or starts with `#` once stripped |
| ConfigFile.Malformed | create-sec-json-embed.py:95-97 | a line that is not skipped and whose stripped text has no `=` |
| ConfigFile.Entry | create-sec-json-embed.py:95-98 | the stripped key and value a line defines: split at its first `=` |
| ConfigFile.ReadLine | create-sec-json-embed.py:95-98 | one pass of the loop body: skip, raise the not-enough-values error, or store the value under the key, replacing any earlier one |
| ConfigFile.KeyValues | create-sec-json-embed.py:93-98 | the dictionary the loop builds, line by line, or the first error |
| ConfigFile.LastValue | create-sec-json-embed.py:94-98 | a reference definition: the value of the last line that defines a key |
| ConfigFile.ReadKeyValues | create-sec-json-embed.py:93-98 | the line loop computes `KeyValues`, including the error it stops with |
| ConfigFile.KeyValuesErrPrefix | create-sec-json-embed.py:94-97 | once a line raises, later lines change nothing |
| ConfigFile.MalformedLine | create-sec-json-embed.py:96-97 | a line fails to unpack exactly when it is not blank, not a `#` comment, and has no `=` |
| ConfigFile.ReadLineError | create-sec-json-embed.py:95-98 | one line raises exactly when it is malformed, and the error is the not-enough-values unpacking error |
| ConfigFile.KeyValuesErrorHasCause | create-sec-json-embed.py:94-97 | the reader raises only because some line is malformed, and only with the unpacking error |
| ConfigFile.KeyValuesMalformedRaises | create-sec-json-embed.py:94-97 | any malformed line makes the reader raise |
| ConfigFile.KeyValuesError | create-sec-json-embed.py:93-99 | the reader raises exactly when some line is a non-comment line without `=` |
| ConfigFile.KeyValuesLookup | create-sec-json-embed.py:93-99 | on success, each key holds the stripped value of its LAST `key = value` line. Blank lines, `#` lines and the text after the first `=` are treated as Python does, and keys never defined are absent |
| ConfigFile.CommaList | create-sec-json-embed.py:106 | `[x.strip() for x in s.split(',')]`, also used at line 120 |
| ConfigFile.StripAll | create-sec-json-embed.py:106 | each piece is stripped, one for one |
| ConfigFile.CommaListRoundTrip | create-sec-json-embed.py:106 | trimmed items without `,`, joined with `,`, split back unchanged |
| ConfigFile.StripAllAppend | create-sec-json-embed.py:106 | pieces are stripped independently |
| ConfigFile.CommaListConcat | create-sec-json-embed.py:106 | the list of `a,b` is the list of `a`, then the list of `b` |
| ConfigFile.CommaListEmpty | create-sec-json-embed.py:106 | empty pieces are kept: `""` becomes `[""]` |
| ConfigFile.PairOf | create-sec-json-embed.py:113-115 | one comma-piece: nothing without `:`, the stripped pair when `split(':')` gives two parts, the too-many-values error otherwise |
| ConfigFile.PairsOf | create-sec-json-embed.py:112-115 | the loop over the pieces: their pairs in order, or the first error |
| ConfigFile.CommaPairs | create-sec-json-embed.py:110-115 | the musicians conversion of one string: `PairsOf` of its comma-pieces |
| ConfigFile.PairsOfErrPrefix | create-sec-json-embed.py:112-115 | once a piece raises, later pieces change nothing |
| ConfigFile.ParseCommaPairs | create-sec-json-embed.py:110-115 | the musicians loop computes `CommaPairs`, including the error it raises |
| ConfigFile.SplitAtFirst | create-sec-json-embed.py:114 | the pieces of `split(':')` are the text before the first `:`, then the pieces of the rest |
| ConfigFile.SplitCountOne | create-sec-json-embed.py:114 | `split(':')` gives one piece exactly when there is no `:` |
| ConfigFile.PairOfCases | create-sec-json-embed.py:113-115 | a piece without `:` is dropped, one `:` gives the stripped pair, and more than one `:` raises |
| ConfigFile.PairsOfError | create-sec-json-embed.py:112-115 | the loop raises exactly when some piece has more than one `:`, and then with the too-many-values error |
| ConfigFile.CommaPairsError | create-sec-json-embed.py:109-115 | the musicians conversion raises exactly when some comma-piece has more than one `:` |
| ConfigFile.PairsOfAppend | create-sec-json-embed.py:112-115 | pieces are read independently, in order |
| ConfigFile.CommaPairsConcat | create-sec-json-embed.py:111-115 | the pairs of `a,b` are those of `a`, then those of `b` |
| ConfigFile.PairOfSegment | create-sec-json-embed.py:113-115 | one `part:name` piece gives the pair |
| ConfigFile.PairsOfSegments | create-sec-json-embed.py:112-115 | trimmed pairs without `:` or `,`, one per piece, read back unchanged |
| ConfigFile.CommaPairsRoundTrip | create-sec-json-embed.py:109-116 | round trip: such pairs, written `part:name,part:name`, read back unchanged |
| ConfigFile.ListField | create-sec-json-embed.py:105-106 | the conversion keeps every key and turns a string field into its stripped comma pieces |
| ConfigFile.ListFieldFrame | create-sec-json-embed.py:105-106 | other fields, and a field that is not a string, are unchanged |
| ConfigFile.PairField | create-sec-json-embed.py:109-116 | a string `current_musicians` becomes its pair list or raises. A field that is not a string leaves the dictionary as it was |
| ConfigFile.PairFieldFrame | create-sec-json-embed.py:109-116 | every other field is unchanged |
| ConfigFile.Normalised | create-sec-json-embed.py:102-122 | `process_config` as a function: the `musicians_needed` step, then the `current_musicians` step (which may raise), then the `other_tracks` step |
| ConfigFile.NormalisedFrame | create-sec-json-embed.py:102-122 | the normaliser keeps every key and changes only the three list fields that hold strings |
| ConfigFile.NormalisedFields | create-sec-json-embed.py:105-120 | after success, string `musicians_needed` and `other_tracks` are their stripped comma pieces, with empties kept, and a string `current_musicians` is its pair list |
| ConfigFile.NormalisedError | create-sec-json-embed.py:109-115 | `process_config` raises exactly when `current_musicians` is a string with a comma-piece holding more than one `:` |
| ConfigFile.NormalisedIdempotent | create-sec-json-embed.py:102-122 | normalising a normalised dictionary changes nothing |
| ConfigFile.Config.Process | create-sec-json-embed.py:102-122 | the in-place update raises exactly when the normaliser does. On success the dictionary is the normalised one; on failure `musicians_needed` is already converted and nothing else has changed |
| ConfigFile.AsConfig | create-sec-json-embed.py:93-98 | the reader's dictionary keeps its keys, and every value is the string the file gave |
| ConfigFile.NormalisedFileConfig | create-sec-json-embed.py:93-122 | normalising what the reader returns fails exactly when the file's `current_musicians` has a comma-piece with more than one `:`. Otherwise each list field the file defines becomes its comma list or its pairs, and every other value stays the file's string |
| OutputName.KeepSafe | create-sec-json-embed.py:153 | the comprehension keeps only alphanumerics, spaces, `-` and `_`, never lengthens the title, and every such character of the title is kept |
| OutputName.KeepSafeOfKept | create-sec-json-embed.py:153 | text made only of alphanumerics, spaces, `-` and `_` passes the filter unchanged, in order |
| OutputName.SpacesToUnderscores | create-sec-json-embed.py:154 | `replace(' ', '_')`: the same length, each space now `_` and every other character kept |
| OutputName.SafeName | create-sec-json-embed.py:153-154 | the filtered title, stripped, with spaces then made `_` |
| OutputName.KeepSafeAppend | create-sec-json-embed.py:153 | the filter works character by character |
| OutputName.KeepSafeSubset | create-sec-json-embed.py:153 | the filter only drops characters |
| OutputName.SafeNameChars | create-sec-json-embed.py:153-154 | the safe name holds only alphanumerics, `-` and `_` |
| OutputName.SafeNameEnds | create-sec-json-embed.py:153-154 | spaces become `_` only after stripping, so the name's first and last characters are those of the stripped text, which are not whitespace |
| OutputName.SafeNameEdgeUnderscore | create-sec-json-embed.py:153-154 | an `_` at either end of the name was an `_` in the title, never a space |
| OutputName.SafeNameOfKept | create-sec-json-embed.py:153-154 | a title of kept characters with no whitespace at either end keeps its length, and each of its spaces becomes `_` in the same place |
| OutputName.SafeNamePadded | create-sec-json-embed.py:153-154 | whitespace around the title does not change the name |
| OutputName.SafeNameIdempotent | create-sec-json-embed.py:153-154 | sanitising a safe name changes nothing |
| OutputName.Decimal | create-sec-json-embed.py:155 | the decimal form is digits only, non-empty, and has no leading zero |
| OutputName.ZeroPad3 | create-sec-json-embed.py:155 | `{i:03d}`: the decimal digits, zero-filled on the left to a width of three |
| OutputName.DecimalValue | create-sec-json-embed.py:155 | the digits read back as the number |
| OutputName.ZeroPad3Value | create-sec-json-embed.py:155 | `{i:03d}` is all digits: exactly 3 when the number has at most 3, otherwise the number's own digits. It reads back as the number |
| OutputName.OutputFileName | create-sec-json-embed.py:155 | `f"{i:03d}_{safe_name}.json"` |
| OutputName.OutputFileNameParts | create-sec-json-embed.py:155 | the first `_` of the file name ends the padded index, and the rest is the safe name plus `.json` |
| OutputName.OutputFileNameInjective | create-sec-json-embed.py:134-155 | two rows share a file name only if they have the same index and the same safe name, so distinct rows never overwrite each other's files |

## Left out

- `json.dumps`: the embed is a datatype, not JSON text, and the indentation is not modelled.
- `yaml.safe_load`: YAML loading is library parsing. A loaded dictionary is any `map<string, Value>`, and values other than strings and lists are kept opaque (`Value.Other`).
- File and console I/O: opening files, iterating a file's lines, writing output files and printing are not modelled. The `key=value` reader takes the file's lines as a parameter.
- `process_csv`: the CSV reading and the mapping from a row's columns to the formatter's arguments are not part of this model. Only the file name it builds is modelled, and the row index is a parameter.
- `parse_config_file`: the choice between YAML and `key=value` by file extension is not part of this model.
- `main` (argument parsing) and the interactive `input()` loop are not part of this model.
- `str.isalnum`: Python's Unicode table is not modelled. The sanitiser takes it as a character predicate parameter, `isAlnum`.
- Dictionary insertion order: Python dictionaries keep insertion order, but the model uses maps, which have none. The order of the config's keys reaches none of the modelled outputs: the config is passed to `create_ensemble_json` only as keyword arguments (create-sec-json-embed.py:148, 218), and the key order of the embed comes from the record literal at lines 59-81, which `Embed` fixes.
- The Discord bot front ends `bot_root/main.py` and `main.py` are not part of this model. They are asynchronous chat handlers with network I/O and their own copy of the formatting. `utils.py` `get_token` is a file read and is not part of this model.
- Python strings are sequences of code points; the model uses Dafny `char`, and encodings are not modelled.
