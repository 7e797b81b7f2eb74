# EmailController, modelled in Dafny

This project models the string handling of `EmailController`, the one
controller of the API-Email service. The service has three actions:

- `generateHtmlAction` guards a render request. It checks the HTTP verb,
  whether the Content-Type names `application/json`, whether the body
  decoded, and whether the four required fields `customer`, `order`,
  `products` and `summary` are present and not PHP-empty. Only then does it
  hand the data to the e-mail renderer and clean the resulting HTML.
- `getTemplateStructureAction` scans the e-mail template for `|name|`
  placeholders (`preg_match_all('/\|(.*?)\|/')`). It returns a descriptor
  mapping each distinct name, in first-occurrence order, to `"string"`.
  When the template has a `#collect` table with at least one header
  label, the labels become a `collect` entry.
- `postTemplateAction` fills the template from a posted JSON object:
  - every scalar-valued key `k`, in payload order, replaces the non-overlapping occurrences of `|k|`, found left to right;
  - when `collect` is an array, its items become escaped `<tr>`/`<td>`
    rows inside a styled `<tbody>`, and that replaces every `<to_replace>`
    marker;
  - the result is cleaned like the rendered HTML.

The modules follow that structure:

- `Text`: `strpos` and `str_replace` as functions, with `explode`/`implode` as the reference definition of replace-all.
- `Cleanup`: the cleanup sequence shared by both actions.
- `Placeholders`: the scanner and the descriptor built from it.
- `Rows`: `htmlspecialchars` and the row builder, with an inverse parser for the generated markup.
- `Payload`: the decoded JSON body, PHP `empty()` and the responses.
- `Controller`: the two request actions.

The source's loops are methods with loop invariants, each proved equal to a
specification function:

| loop | method |
|---|---|
| required-field `foreach` with its early return | `Controller.Generate` |
| `$campos` loop | `Placeholders.BuildDescriptor` |
| substitution loop | `Controller.SubstituteScalars` |
| nested `.=` loops | `Rows.BuildRows` and `Rows.AppendCells` |
| chained `$cleanHtml` reassignment | `Cleanup.Clean` |

The properties the source promises are proved about those functions.

Some inputs are function-typed parameters rather than modelled code:

- `html_entity_decode` is `decode`;
- `EmailService::renderEmailTemplate` is `render`;
- the template file's text is `template`;
- the `#collect` header labels are the `collect` option.

## Model

| member | source | states |
|---|---|---|
| Text.Find | Api/src/Controller/EmailController.php:61 | `strpos`: the result is Some exactly when the pattern occurs, and then it is the leftmost occurrence |
| Text.ReplaceAll | Api/src/Controller/EmailController.php:166 | `str_replace` with one search string: an empty search string leaves the subject unchanged, and a replacement as long as the pattern keeps the length; its meaning is stated by the lemmas below |
| Text.LeftmostStep | Api/src/Controller/EmailController.php:166 | `str_replace` works left to right: when the first occurrence is at `i`, the text before `i` is kept, that occurrence becomes the replacement, and the scan resumes after it |
| Text.ReplaceAtFind | Api/src/Controller/EmailController.php:166 | without an occurrence the text is unchanged; otherwise the occurrence replaced first is exactly the leftmost one `strpos` reports, and the text after it is processed the same way |
| Text.OverlapReplacedOnce | Api/src/Controller/EmailController.php:166 | of the two overlapping occurrences of pipe-a-pipe in pipe-a-pipe-a-pipe, only the one at 0 is replaced by `X`, giving `Xa` followed by a pipe |
| Text.ReplaceIsJoinSplit | Api/src/Controller/EmailController.php:166 | `str_replace` is splitting at the non-overlapping occurrences and joining with the replacement; that the occurrences are taken left to right is `Text.LeftmostStep` |
| Text.SplitJoinRoundTrip | Api/src/Controller/EmailController.php:166 | joining the pieces with the pattern itself gives back the text, so replacement only changes the occurrences |
| Text.SplitPiecesFree | Api/src/Controller/EmailController.php:166 | no piece between replaced occurrences contains the pattern |
| Text.ReplaceAbsent | Api/src/Controller/EmailController.php:166 | a text without the pattern is left unchanged |
| Text.ReplaceBySelf | Api/src/Controller/EmailController.php:166 | replacing a pattern by itself changes nothing |
| Text.ReplaceLeavesNoMatch | Api/src/Controller/EmailController.php:184 | no occurrence of the pattern remains when the pattern's first character occurs nowhere else in it, the replacement starts with that character, and no suffix of the replacement starts with the pattern or is a prefix of it (`Consumes`; it holds for the `<to_replace>` marker, never for a pipe-delimited placeholder) |
| Text.RemoveCharIsWithout | Api/src/Controller/EmailController.php:85 | replacing one character by `''` deletes exactly that character and keeps the rest in order |
| Text.ReplaceCharPointwise | Api/src/Controller/EmailController.php:86 | replacing one character by another keeps the length and changes exactly those positions |
| Cleanup.StripControls | Api/src/Controller/EmailController.php:85 | removing `\r`, `\n` and `\t` in turn equals one filter that drops control characters and keeps everything else in order |
| Cleanup.KeepPrintableChars | Api/src/Controller/EmailController.php:85 | the filtered text is no longer, contains no `\r`, `\n`, `\t`, and holds exactly the other characters of the input |
| Cleanup.SwapQuotes | Api/src/Controller/EmailController.php:86 | the quote step keeps the length and turns exactly the `"` characters into `'` |
| Cleanup.Normalize | Api/src/Controller/EmailController.php:85-86 | the cleaned text has no `\r`, `\n`, `\t` or `"` and is no longer than its input |
| Cleanup.NormalizeClean | Api/src/Controller/EmailController.php:85-86 | a text that is already clean passes through unchanged |
| Cleanup.NormalizeIdempotent | Api/src/Controller/EmailController.php:85-86 | cleaning a second time changes nothing |
| Cleanup.Clean | Api/src/Controller/EmailController.php:84-86 | the chained reassignment yields the cleanup of the decoded text, which is clean |
| Placeholders.CloseFrom | Api/src/Controller/EmailController.php:125-126 | the lazy `(.*?)` stops at the first pipe on the same line, or the attempt fails when a newline or the end of the text comes first |
| Placeholders.ScanFrom | Api/src/Controller/EmailController.php:125-126 | every span found is a match, and the spans are in increasing order and do not overlap |
| Placeholders.ScanCoversMatch | Api/src/Controller/EmailController.php:125-126 | every match that starts at or after the scan position starts inside a found span |
| Placeholders.ScanComplete | Api/src/Controller/EmailController.php:125-126 | no match starts at a position the scan did not consume, so the spans are the leftmost non-overlapping matches |
| Placeholders.Placeholders | Api/src/Controller/EmailController.php:125-126 | no captured name contains a pipe or a newline |
| Placeholders.ScanDoesNotOverlap | Api/src/Controller/EmailController.php:125-126 | pipe-a-pipe-b-pipe-c-pipe yields `a` and `c`: the pipe closing `a` is not reused |
| Placeholders.AdjacentPipesCaptureEmpty | Api/src/Controller/EmailController.php:125-126 | two adjacent pipes yield the empty name |
| Placeholders.NewlineStopsMatch | Api/src/Controller/EmailController.php:125-126 | a newline ends the attempt at the first pipe, and the scan goes on to the next pipe, which yields `b` |
| Placeholders.Distinct | Api/src/Controller/EmailController.php:130-131 | the key order of `$campos`: a name already present keeps its place, a new one goes last; its meaning is `Placeholders.DistinctFirstOccurrences` |
| Placeholders.FirstIndex | Api/src/Controller/EmailController.php:130-131 | the position of the first occurrence of a name |
| Placeholders.DistinctFirstOccurrences | Api/src/Controller/EmailController.php:129-132 | the keys of `$campos` are the scanned names, each once, ordered by where they first occur |
| Placeholders.BuildDescriptor | Api/src/Controller/EmailController.php:129-137 | the keys are the distinct names with `collect` appended only when new, every key maps to `"string"`, and `collect` maps to the header labels when there are any |
| Placeholders.Structure | Api/src/Controller/EmailController.php:114-137 | the descriptor's keys are the distinct placeholder names in first-occurrence order, with no duplicates; `collect` holds the labels in order only when there are labels, overwriting a `collect` placeholder; every other key is `"string"` |
| Rows.Entity | Api/src/Controller/EmailController.php:176 | the entity `htmlspecialchars` writes for one character (`&`, `<`, `>`, `"`, `'`; any other character stands for itself); its meaning is `Rows.UnescapeEntity` |
| Rows.Escape | Api/src/Controller/EmailController.php:176 | escaped text holds no raw `<`, `>`, `"` or `'` |
| Rows.UnescapeEntity | Api/src/Controller/EmailController.php:176 | helper of the inverse parser `ParseRows`, not source behaviour: each character's entity reads back as that character |
| Rows.UnescapeEscape | Api/src/Controller/EmailController.php:176 | escaping loses nothing: reading the entities back gives the value |
| Rows.CellHtml | Api/src/Controller/EmailController.php:176 | one value as `<td>`, its escaped text, `</td>` |
| Rows.RowHtml | Api/src/Controller/EmailController.php:174-178 | one item as `<tr>`, its cells in the item's order, `</tr>` |
| Rows.RowsHtml | Api/src/Controller/EmailController.php:173-179 | all rows in item order; its meaning is `Rows.ParseRowsRoundTrip` |
| Rows.TBody | Api/src/Controller/EmailController.php:181 | the rows inside the fixed styled `<tbody>` element |
| Rows.CellsAppend | Api/src/Controller/EmailController.php:175-177 | one more value appends exactly one more cell |
| Rows.RowsAppend | Api/src/Controller/EmailController.php:173-179 | one more item appends exactly one more row |
| Rows.AppendCells | Api/src/Controller/EmailController.php:175-177 | the inner loop appends one `<td>` per value, in the item's order |
| Rows.BuildRows | Api/src/Controller/EmailController.php:171-181 | the nested loops produce the row table inside the styled `<tbody>`, and an empty list gives the empty `<tbody…></tbody>` |
| Rows.TextRun | Api/src/Controller/EmailController.php:176 | helper of the inverse parser `ParseRows`, not source behaviour: the length of the text before the next `<` |
| Rows.ParseCellsRoundTrip | Api/src/Controller/EmailController.php:174-178 | the cells of a row read back as the item's values, in order |
| Rows.ParseRowsRoundTrip | Api/src/Controller/EmailController.php:173-179 | the generated markup reads back as exactly the items, one row per item in input order |
| Rows.EscapedAvoidsMarker | Api/src/Controller/EmailController.php:176 | an escaped value cannot contain the start of `<to_replace>` |
| Rows.TBodyAvoidsMarker | Api/src/Controller/EmailController.php:181 | no `<` in the row table can begin `<to_replace>` |
| Rows.TBodyConsumesMarker | Api/src/Controller/EmailController.php:181-184 | the row table meets `Consumes` for the marker, so it cannot form or overlap a `<to_replace>`, wherever it is placed |
| Rows.MarkerFullyReplaced | Api/src/Controller/EmailController.php:184 | after the replacement no `<to_replace>` remains, whatever the template and the items |
| Payload.Lookup | Api/src/Controller/EmailController.php:74 | the value under a key is missing exactly when no entry has that key, and is otherwise that of an entry with the key |
| Payload.LookupUnique | Api/src/Controller/EmailController.php:74 | in a decoded object, where each key occurs once, the value under an entry's key is that entry's value |
| Payload.IsEmpty | Api/src/Controller/EmailController.php:74 | PHP `empty()` on `$data[$field]`: missing, a scalar whose string form is `""` or `"0"`, or the empty array (the float `-0.0` is the one empty value this misses) |
| Payload.FieldError | Api/src/Controller/EmailController.php:75 | the message embeds the field name between `Field '` and `' is required.` |
| Controller.Passes | Api/src/Controller/EmailController.php:74 | a required field passes when its value is present and not PHP-empty |
| Controller.FirstFailing | Api/src/Controller/EmailController.php:73-77 | the first field, in list order, that is missing or PHP-empty, with every earlier field passing |
| Controller.Generate | Api/src/Controller/EmailController.php:24-93 | a GET gets the documentation; for a POST, a Content-Type without `application/json` gives its error first, a body that did not decode gives the JSON error next, the first failing required field is named next, and otherwise the rendered HTML is cleaned and returned; other verbs are refused |
| Controller.RenderOnlyWhenComplete | Api/src/Controller/EmailController.php:72-81 | the renderer is reached exactly when all four fields pass, and the field named is the first failing one |
| Controller.Step | Api/src/Controller/EmailController.php:164-166 | one `foreach` step: a scalar value replaces every pipe-delimited occurrence of its key, an array value leaves the text alone; its meaning is `Controller.ListsAreSkipped` and `Controller.AbsentKeyUnchanged` |
| Controller.Substitute | Api/src/Controller/EmailController.php:163-168 | the steps applied in payload order, each to the text the previous one produced |
| Controller.SubstituteScalars | Api/src/Controller/EmailController.php:163-168 | the loop applies one replacement per key in payload order, equal to the fold `Substitute` |
| Controller.Scalars | Api/src/Controller/EmailController.php:163-164 | the scalar entries, every one of them and only those |
| Controller.ListsAreSkipped | Api/src/Controller/EmailController.php:163-167 | array-valued keys take no part: substituting only the scalar entries gives the same text |
| Controller.AbsentKeyUnchanged | Api/src/Controller/EmailController.php:164-166 | a key whose pipe-delimited placeholder does not occur leaves the text unchanged |
| Controller.ValueWithoutProbeCanLeaveOne | Api/src/Controller/EmailController.php:166 | filling placeholder `a` with a value that lacks it can still leave one `a` placeholder, formed from an earlier pipe and the text after the one consumed |
| Controller.Fill | Api/src/Controller/EmailController.php:162-185 | the substitution, then, when `collect` is set and is an array, every marker replaced by the row table; its meaning is `Controller.MarkerKeptWithoutCollect` and `Controller.MarkerGoneWithCollect` |
| Controller.MarkerKeptWithoutCollect | Api/src/Controller/EmailController.php:171 | without an array under `collect` the marker step is skipped and the text is what substitution produced |
| Controller.MarkerGoneWithCollect | Api/src/Controller/EmailController.php:171-184 | with an array under `collect`, every marker becomes the table of exactly those rows, and no `<to_replace>` survives |
| Controller.Replay | Api/src/Controller/EmailController.php:152-196 | an undecodable or empty body gets the error envelope; any other body gets success with the filled template, cleaned, which holds no `\r`, `\n`, `\t` or `"` |
| Controller.StructureNamesNotAllFilled | Api/src/Controller/EmailController.php:125-126 | filling a template from the names its own structure lists can leave one of them unfilled |
| Controller.ScanExample | Api/src/Controller/EmailController.php:125-126 | a template of `x` between pipes, a newline, then `b` and `x` sharing pipes lists `x` and `b` |
| Controller.FillX | Api/src/Controller/EmailController.php:166 | filling `x` in that template consumes the pipe that closed the `b` placeholder |
| Controller.FillB | Api/src/Controller/EmailController.php:166 | after that, there is no `b` placeholder left to fill |

## Notes

- Not every `|k|` is gone after the replacement for `k`, even when the
  value holds no `|k|`. `str_replace` makes one left-to-right pass, so an
  earlier pipe and the text after a consumed occurrence can join into a
  new one (`Controller.ValueWithoutProbeCanLeaveOne`).
  - The model proves the cases that do hold. An absent placeholder leaves
    the text unchanged (`Text.ReplaceAbsent`). No piece between two
    replaced occurrences contains one (`Text.SplitPiecesFree`).
  - The `<to_replace>` marker cannot re-form this way, so it is always
    fully replaced (`Text.ReplaceLeavesNoMatch`, `Rows.MarkerFullyReplaced`).
- Posting back the names that the structure action lists does not always
  fill every placeholder of the template
  (`Controller.StructureNamesNotAllFilled`). The scan and `str_replace`
  both work left to right without overlap, but they start from different
  positions: with `|x|`, newline, `|b|x|`, the scan pairs the pipes as
  `|b|`, while the replacement of `|x|` takes the last pipe of `|b|`. The
  model follows the code.

## Left out

- HTTP plumbing is not modelled: `getRequest`, `isGet`/`isPost`, headers and `JsonModel`. A request is its verb, its Content-Type text and its decoded body. A POST without a Content-Type header is not modelled: `getHeader` then returns `false`, and line 59 calls `getFieldValue()` on it, which fails in the controller itself.
- The static documentation returned for a GET is the single response `Documentation`; its contents are constant data.
- `json_decode` is not modelled: the body is the decoded object, or None when decoding failed.
  - A decoded object holds each key once: `Generate` and `Replay` require `UniqueKeys` of the body. How `json_decode` resolves a key written twice in the document is not modelled.
  - PHP's conversion of numeric-string keys to integers is not modelled. It does not change the `|k|` probe text.
  - A JSON document whose top level is not an object or array is not modelled. For the guard, a `null`, a scalar or a list without the four keys acts like an object missing `customer`, because `empty()` on it is true. In `postTemplateAction` a non-empty scalar top level is left out.
- Payload.IsEmpty: a scalar value is its PHP string form. `empty()` on a scalar is therefore "string form is `""` or `"0"`", which misses the float `-0.0` (empty, but written `"-0"`).
- An array or object value is its elements, each element read as the row of its values. Only emptiness matters for arrays other than `collect`. `collect` items nested deeper than one level, and items that are not arrays, are not modelled.
- Reading the template file (`file_get_contents`) is not modelled: the template text is a parameter.
- The Simple HTML DOM parser is not modelled (`str_get_html`, `find('#collect')`, `find('th')`, `innertext`). The header labels are an input: None when there is no `#collect` element. The `$products[] = $content` loop only copies them, so it has no method of its own.
- The `descriptor` is returned as a map with its key order. How `JsonModel` writes it, for example a list when every key is an integer, is not modelled.
- `html_entity_decode` is the parameter `decode`: it depends on the full HTML entity table.
- Rows.Escape: the five-entity mapping assumes the default flags of PHP 8.1 and later (`ENT_QUOTES | ENT_SUBSTITUTE | ENT_HTML401`). Under the older default `ENT_COMPAT`, `'` is not escaped, so "no raw `'`" would not hold. How `ENT_SUBSTITUTE` replaces invalid UTF-8 is not modelled: strings are sequences of characters.
- `EmailService::renderEmailTemplate` (a Zend `PhpRenderer` over a template not shown), the route table and the factory are not part of this model; the renderer is the parameter `render`.
