# Ear-infection detector: response parsing, reply formatting and detection shaping

This project models, in Dafny, the text-processing and result-shaping core of an
ear-infection screening app. The app sends an otoscope image to an object-detection
workflow and passes the findings to a language model. The core modelled here turns
what comes back into the records the app displays:

- `parse_gemini_response` (module `ResponseParser`) carves the model's free-text
  analysis into eight sections: five prose sections and three bullet lists. It also
  decodes the chart data found in the answer's widest `{...}` span. Section headings
  are recognised by case-sensitive marker substrings, tested in a fixed priority order.
- `format_doctor_reply` (modules `SentenceSplit` and `ReplyFormatter`) cuts the
  chatbot's answer down to at most four sentences of more than twelve characters,
  one per line. While the text is split into sentences, the points of decimal
  numbers such as `91.7` are shielded behind the `<dot>` sentinel. The model shows
  that this shielding never changes a cut: the split needs whitespace right after the
  `.`, `!` or `?`, and a decimal point is followed by a digit. Its only visible effect
  is that a literal `<dot>` in the answer comes out as `.`.
- `run_detection` (its flattening loop) and `build_medical_context` (module
  `DetectionService`) turn the workflow's nested result into one list of
  predictions. The first prediction becomes the context record that the chatbot and
  the report read.

Python's string primitives are modelled once, in module `Text`: `str.strip`,
`str.lstrip(chars)`, `str.split(sep)`, `sep.join`, `str.replace` and the `in` test.
Whitespace is the set of characters for which Python's `str.isspace()` holds. A JSON
value is the datatype `JsonValue.Json`, where a dictionary is the sequence of its
assignments in order. `json.loads` is a parameter `decode: string -> Option<Json>`,
and `None` stands for the exception the source catches.

Each imperative loop of the source is a method with a loop invariant. The method is
proved equal to a specification function: `ResponseParser.ParseResponse` to `Parse`,
`ReplyFormatter.FormatReply` to `Format`, and `DetectionService.FlattenPredictions`
to `Flatten`. What the source promises is then proved as lemmas about these
functions.

## Model

| member | source | states |
|---|---|---|
| Text.StripSpec | utils/parser_utils.py:37 | `strip()` removes only whitespace, and only from the two ends: the result is a contiguous slice of the input, everything cut away is whitespace, and the result neither starts nor ends with whitespace |
| Text.StripBlank | utils/parser_utils.py:69 | a text made only of whitespace strips to the empty string |
| Text.LStripChars | utils/parser_utils.py:58 | `lstrip(chars)` drops the longest prefix made of the given characters: the result is a suffix of the input, every dropped character is in the set, and the result does not start with one |
| Text.SplitOn | utils/parser_utils.py:33 | `split("\n")` returns at least one piece, and no piece contains the separator |
| Text.JoinSplitOn | utils/parser_utils.py:33 | joining the pieces of `split(sep)` with `sep` gives back the text |
| Text.SplitOnJoin | utils/parser_utils.py:86 | splitting a join of a non-empty list of separator-free pieces gives back the pieces |
| Text.ReplaceCharAt | utils/parser_utils.py:69 | `replace("\n", " ")` keeps the length and changes exactly the newline characters |
| Text.ReplaceAllRemoves | utils/parser_utils.py:79 | after `replace(pat, rep)`, where `pat` and `rep` are non-empty and `rep` shares no character with `pat`, the pattern no longer occurs |
| Text.JoinKeepsOut | utils/parser_utils.py:86 | a pattern that occurs in no piece, and that does not contain the separator, does not occur in the join |
| ResponseParser.AppendProse | utils/parser_utils.py:60 | `sections[s] += piece` extends prose section s by the piece and leaves every other section and the chart data unchanged |
| ResponseParser.AppendItem | utils/parser_utils.py:58 | `sections[s].append(item)` adds the item at the end of list section s and leaves every other section and the chart data unchanged |
| ResponseParser.MarkerPriority | utils/parser_utils.py:39-54 | a line selects section s exactly when it holds one of s's markers and none of the markers of an earlier section in the chain; it selects nothing exactly when it holds no marker at all |
| ResponseParser.JsonSpan | utils/parser_utils.py:25 | the greedy `\{[\s\S]*\}` search finds a span exactly when some `{` precedes some `}`; the span starts with `{`, ends with `}` and encloses every such pair |
| ResponseParser.ExtractChart | utils/parser_utils.py:23-30 | the chart data is the decoded span, or `{}` when there is no span or decoding fails |
| ResponseParser.Step | utils/parser_utils.py:36-60 | one iteration never changes the chart data; a marker line moves the cursor and changes no section; only the section under the cursor can change |
| ResponseParser.ParseResponse | utils/parser_utils.py:6-62 | the loop over the stripped lines computes `Parse`: the defaults for an empty text, otherwise the chart data followed by every line read in order |
| ResponseParser.LastMarkerNone | utils/parser_utils.py:34-55 | no section is selected after some lines exactly when none of them is a marker line |
| ResponseParser.LastMarkerSome | utils/parser_utils.py:34-55 | when a section is selected, it is the section of the last marker line, and no marker line follows that line |
| ResponseParser.ParseChart | utils/parser_utils.py:24-30 | the chart data of the parsed record is the decoded widest brace span, whatever the lines say |
| ResponseParser.ParseProse | utils/parser_utils.py:55-60 | a prose section is the concatenation, in line order, of "stripped line + space" for each content line read while the last marker before it selected that section |
| ResponseParser.ParseItems | utils/parser_utils.py:55-58 | a list section holds, in line order, the bullet text of each bulleted content line read while the last marker before it selected that section |
| ResponseParser.ItemLinesExact | utils/parser_utils.py:56-58 | a line is one of a list section's item lines exactly when it is a bulleted content line under that section's marker |
| ResponseParser.ItemLinesText | utils/parser_utils.py:58 | the i-th item of a list section is the bullet text, with glyphs and spaces stripped, of the i-th item line |
| ResponseParser.ItemsComeFromBullets | utils/parser_utils.py:55-58 | both statements above hold for the parsed record: items come from exactly the bulleted lines under the section, in order, one item per line |
| ResponseParser.SegmentationIgnoresJson | utils/parser_utils.py:24-60 | the eight sections do not depend on the JSON decoder: two decoders give records that differ at most in the chart data |
| ResponseParser.NoMarkersNoSections | utils/parser_utils.py:34-55 | a text with no marker line leaves every section empty, and only the chart data is filled |
| ResponseParser.ProseEndsWithSpace | utils/parser_utils.py:60 | every prose section is empty or ends with a space |
| ResponseParser.SpanIdempotent | utils/parser_utils.py:25-28 | the chart span, taken alone, is its own whole span, and it yields the same chart data |
| ResponseParser.ChartIdempotent | utils/parser_utils.py:25-28 | parsing the chart span alone finds the same chart data as parsing the whole text |
| SentenceSplit.RestoreProtect | utils/parser_utils.py:72-79 | for a text without a literal `<dot>`, replacing the sentinel by `.` after `(\d)\.(\d)` protection gives back the text |
| SentenceSplit.ProtectDecimals | utils/parser_utils.py:72 | `re.sub(r'(\d)\.(\d)', r'\1<dot>\2', t)` as a left-to-right scan that resumes behind each match's second digit: it never shortens the text and leaves a text without a point unchanged; `RestoreProtect` and `ProtectionTransparent` give its meaning |
| SentenceSplit.ProtectConcat | utils/parser_utils.py:72 | protection distributes over concatenation when the second part does not start with a digit or a point |
| SentenceSplit.RunEnd | utils/parser_utils.py:75 | the `\s+` run from a position ends at the first non-whitespace character, or at the end of the text |
| SentenceSplit.MatchFrom | utils/parser_utils.py:75 | the next `(?<=[.!?])\s+` match is the first split point at or after the position, together with its whole whitespace run; there is none exactly when no split point remains |
| SentenceSplit.SplitSentences | utils/parser_utils.py:75 | `re.split(r'(?<=[.!?])\s+', t)` as repeated `MatchFrom` cuts: it returns at least one piece; `SplitSpec` and `SplitUnique` characterise the pieces in both directions |
| SentenceSplit.SplitSpec | utils/parser_utils.py:75 | `re.split` cuts the text into pieces and whitespace gaps that interleave back to the text; each gap follows a piece ending in `.`, `!` or `?`, and no piece contains a split point |
| SentenceSplit.SplitUnique | utils/parser_utils.py:75 | any valid cut into pieces and gaps is the one `re.split` computes, so the split is determined by that description |
| SentenceSplit.ProtectValidSplit | utils/parser_utils.py:72-75 | protecting decimals piece by piece keeps a valid cut valid |
| SentenceSplit.ProtectInterleave | utils/parser_utils.py:72-75 | protecting the whole text protects each piece of a valid cut and keeps the gaps |
| SentenceSplit.ProtectionTransparent | utils/parser_utils.py:71-79 | for a text without a literal `<dot>`, splitting the protected text and then restoring each piece gives the same sentences as splitting the text itself at the same rule |
| SentenceSplit.PieceChars | utils/parser_utils.py:75 | a character absent from the text is absent from each sentence |
| ReplyFormatter.FormatReply | utils/parser_utils.py:64-86 | the method computes `Format`: empty for empty input, otherwise normalize, protect, split, clean each piece, keep those longer than 12 characters, take the first 4 and join them with newlines |
| ReplyFormatter.LongMembers | utils/parser_utils.py:80-81 | a sentence is kept exactly when it is one of the candidates and has more than 12 characters |
| ReplyFormatter.LongKeepsAll | utils/parser_utils.py:80-81 | when every candidate is long enough, all of them are kept, in order |
| ReplyFormatter.LongChain | utils/parser_utils.py:80-81 | dropping short sentences keeps the property that every sentence but the last ends with `.`, `!` or `?` |
| ReplyFormatter.CleanShape | utils/parser_utils.py:79 | a cleaned sentence is stripped, holds no `<dot>`, and gains no newline |
| ReplyFormatter.FormatShape | utils/parser_utils.py:77-86 | the reply has at most 4 lines; each line of a non-empty reply is longer than 12 characters, stripped and free of `<dot>` |
| ReplyFormatter.BlankReplyIsEmpty | utils/parser_utils.py:65-69 | an answer made only of whitespace gives the empty reply |
| ReplyFormatter.FormatPlain | utils/parser_utils.py:69-79 | for a text without a literal `<dot>`, the reply is what splitting the normalized text directly and stripping the pieces would give: decimal protection changes nothing, not even where the text is cut |
| ReplyFormatter.JoinReplace | utils/parser_utils.py:69 | replacing the newlines of a newline-join of newline-free lines gives their space-join |
| ReplyFormatter.KeptLines | utils/parser_utils.py:77-84 | for a text without a literal `<dot>`, every kept sentence is non-empty, stripped, longer than 12 characters and newline-free; each contains no split point and no `<dot>` |
| ReplyFormatter.KeptChain | utils/parser_utils.py:75-84 | for every text, the first four long stripped pieces of the split of the normalized text (the reply's lines when the text holds no literal `<dot>`, by `FormatPlain`) all end with `.`, `!` or `?`, except possibly the last |
| ReplyFormatter.Resplit | utils/parser_utils.py:69-75 | normalizing and splitting a newline-join of a non-empty list of non-empty stripped lines that all but the last end a sentence and that hold no split point, such as the reply to a text without a literal `<dot>`, gives back the lines |
| ReplyFormatter.FormatIdempotent | utils/parser_utils.py:64-86 | for a text without a literal `<dot>`, formatting a formatted reply changes nothing |
| DetectionService.HasKeySpec | services/detection_service.py:24 | `k in d` holds exactly when some assignment has key k |
| DetectionService.LookupLast | services/detection_service.py:25 | `d[k]` is the value of the last assignment with key k |
| DetectionService.KeysSpec | services/detection_service.py:27 | iterating a dictionary yields exactly its keys, each once |
| DetectionService.Iterate | services/detection_service.py:27 | `extend` appends a list's elements, a string's characters or a dictionary's keys, and raises TypeError exactly on a number, a boolean or null |
| DetectionService.Flatten | services/detection_service.py:21-22 | a result that is not a list, or an empty list, gives no predictions |
| DetectionService.FlattenPredictions | services/detection_service.py:21-29 | the loop computes `Flatten`, stopping at the first item whose inner value cannot be iterated |
| DetectionService.FlattenAppend | services/detection_service.py:23-27 | flattening two runs of items is flattening the first, then the second |
| DetectionService.FlattenStops | services/detection_service.py:27 | once an item raises, the rest of the items do not matter |
| DetectionService.SkipsOtherItems | services/detection_service.py:24-26 | an item that is not a dictionary with a `predictions` dictionary holding `predictions` is skipped wherever it stands |
| DetectionService.FlattenIsConcat | services/detection_service.py:23-27 | when every inner value is a list, the predictions are the in-order concatenation of the inner lists |
| DetectionService.FlattenFails | services/detection_service.py:27 | the loop raises exactly when some contributing item's inner value is a number, a boolean or null |
| DetectionService.ConfidenceLabel | services/detection_service.py:37 | "high" exactly above 85, "moderate" exactly in (60, 85], "low" exactly at or below 60 |
| DetectionService.LabelMonotone | services/detection_service.py:37 | a higher confidence never gets a lower band |
| DetectionService.BoxArea | services/detection_service.py:43 | "large" exactly when the width is present and above 200; a missing width counts as 0 |
| DetectionService.AgeOf | services/detection_service.py:44 | the age is 'Not provided' exactly when it is missing or 0; otherwise it is kept unchanged |
| DetectionService.BuildMedicalContext | services/detection_service.py:31-46 | no context exactly for an empty list; otherwise the condition is the first prediction's class, the confidence is 100 times its confidence, and the visual features are the three fixed phrases |
| DetectionService.OnlyFirstPrediction | services/detection_service.py:36-43 | lists that agree on their first prediction give the same context |
| DetectionService.ContextEntries | services/detection_service.py:36-44 | for a non-empty list, on the first prediction's own numbers: the band is "high" exactly above 0.85, "moderate" exactly in (0.60, 0.85] and "low" exactly at or below 0.60; the box size is "large" exactly when the width is present and above 200 and "standard" exactly otherwise; the age is 'Not provided' exactly when it is missing or 0, and otherwise it is the given age |

## Left out

- A `None` response or reply text is not modelled separately: both functions treat it like the empty string, as `not text` does.
- `json.loads` is the parameter `decode`. A failed decode is `None`, which keeps `{}` as the chart data, as the `except` branch does.
- The `st.warning` call in the `except` branch is a user-interface side effect and is not modelled.
- `\d` is taken as the ASCII digits only. Python's `re` also matches other Unicode decimal digits.
- `\s` and `str.strip()` are taken as the characters for which `str.isspace()` holds. Unicode properties beyond that set are not modelled.
- SentenceSplit.ProtectionTransparent: requires a text without a literal `<dot>`. The source turns such a literal into `.` too, so for those texts the restored sentences differ from the input.
- ReplyFormatter.FormatIdempotent: requires a text without a literal `<dot>`, for the same reason.
- ReplyFormatter.KeptLines: requires a text without a literal `<dot>`, for the same reason; such a literal can leave a reply line like `. literal here.` that holds a split point.
- ReplyFormatter.Resplit: requires lines that end a sentence and hold no split point; the reply to a text holding a literal `<dot>` need not have such lines, so its lines need not split back out.
- ReplyFormatter.FormatPlain: requires a text without a literal `<dot>`, for the same reason.
- SentenceSplit.RestoreProtect: requires a text without a literal `<dot>`, for the same reason.
- Confidences are exact reals: floating-point rounding of `confidence * 100` and of the comparisons with 85 and 60 is not modelled.
- A prediction is a typed record (class, confidence, optional width). The KeyError or TypeError that a prediction missing `class` or `confidence`, or one holding a non-number, would raise in `build_medical_context` is not modelled.
- The patient age is an optional integer. Other falsy values Python accepts there (an empty string, `False`) are not modelled.
- The workflow call, the temporary image file and the Roboflow client in `run_detection` (services/detection_service.py:8-19) are I/O: the workflow result is the input of `Flatten`.
- `json.loads` number formats: a JSON number is a real, and the int/float distinction is not modelled.
- The user interface, the chatbot and analysis services, the report, the visualisations, the image helpers, the prompts and the API configuration are not part of this model.
