# Album page generator, modelled in Dafny

`create_html.py` builds the album page from a list of album rows. It makes
one pass over the rows, from first to last, carrying two things:

- the previous rating, which starts at 5;
- the set of trimmed video links seen so far.

Each row's five fields (artist, album, rating, youtube link, genre) go
through these checks:

- every field is non-empty after `strip()`;
- the trimmed rating parses with `float()` and lies in [1, 5];
- the rating is no higher than the previous one;
- the untrimmed link starts with `https://www.youtube.com/watch?v=`;
- the trimmed link has not been seen before.

The first row that fails a check stops the run and nothing is written.
Every accepted row becomes one `<li>` fragment. The fragment links to
`https://youtu.be/<id>`, where `<id>` is the trimmed link with the long
prefix removed. It also shows the trimmed artist, album, rating text
(followed by `/5`) and genre. Field values are inserted without escaping.

The page template must hold the marker `<!--PLACEHOLDER_ALBUM_LIST-->`
exactly once. The marker is replaced by the fragments joined with line
breaks, and the result goes through the minifier.

The project has five files:

- `create_html.dfy` (module `CreateHtml`) holds the rows, the rendering
  of one row, and the validation pass. The pass is the imperative method
  `ValidateAlbums`, whose loop carries the seen set, the previous rating
  and the fragments. It is proved against a declarative predicate,
  `ValidAlbums`, and against `RenderAll`. The file also holds the page
  composition (`Compose`) and the whole run (`BuildIndex`).
- `python_str.dfy` (module `PyStr`) models the Python `str` operations the
  script uses: `strip` (with Python's `isspace` set), `startswith`,
  `removeprefix`, `count`, `replace`, `join` and `format`. Two more
  operations are not called by the script. `find` (leftmost occurrence) is
  the helper that `count` and `replace` are defined with. `split` on one
  character serves as the inverse of `join`.
- `python_float.dfy` (module `PyFloat`) models `float()` on decimal text
  as a scanner over exact rationals.
- `album_examples.dfy` (module `AlbumExamples`) works through a two-row
  example: Radiohead at 5 then Air at 4 or 5 is accepted, and Air at 6 is
  rejected.
- `wrappers.dfy` holds `Option`.

## Model

| member | source | states |
|---|---|---|
| CreateHtml.ValidateAlbums | create_html.py:31-66 | The pass accepts exactly the lists that satisfy `ValidAlbums`. On acceptance its fragments are `RenderAll(rows)`: one per row, in order. On rejection it reports the first offending row and its index. Its loop keeps the seen set equal to the links of the accepted rows, and the previous rating equal to the last accepted rating (5 at the start). |
| CreateHtml.BuildIndex | create_html.py:31-83 | The run has three outcomes. A row is rejected exactly when the list is invalid, and the first offender is reported with no document. The placeholder count is reported exactly when the list is valid and the count is not 1. A document is written exactly when both hold, and it is the minifier applied to the composed page. |
| CreateHtml.Compose | create_html.py:71-78 | A page exists exactly when the marker occurs once. The template is then the text before the marker, the marker and the text after it, and neither outer part holds the marker. The page is that before-text, the fragments joined by "\n", and that after-text. |
| CreateHtml.Render | create_html.py:58-66 | Definition, no contract: `LI_TEMPLATE.format` of the row's fields (video id, then the trimmed artist, album, rating and genre). Specified by LinkRoundTrip, the RenderShows lemmas and RenderSingleLine. |
| CreateHtml.FieldsOk | create_html.py:41-48 | Definition, no contract: the checks on one row alone (trimmed fields non-empty, rating parses and lies in [1, 5], untrimmed link has the long prefix). Used by ValidAlbums and Admissible. |
| CreateHtml.Admissible | create_html.py:41-49 | Definition, no contract: FieldsOk plus the rating at most the previous one and the trimmed link not yet seen. Specified by ExtendValid, AcceptRow and RejectRow. |
| CreateHtml.ValidAlbums | create_html.py:31-66 | Definition, no contract: the declarative acceptance condition. Every row passes FieldsOk, each rating is at most the one before it, and the trimmed links are pairwise distinct. Related to the pass by ValidateAlbums and ExtendValid. |
| CreateHtml.RenderAll | create_html.py:58-66 | One fragment per row; fragment k is the rendering of row k, so input order is preserved. |
| CreateHtml.Rating | create_html.py:44 | The rating of a row that passed its field checks lies in [1, 5]. |
| CreateHtml.LinkRoundTrip | create_html.py:60 | If the untrimmed link has the long prefix, the fragment starts with `<li><a href="https://youtu.be/`. The long prefix followed by the id after it is exactly the trimmed link. |
| CreateHtml.RenderShowsArtist | create_html.py:61 | The fragment contains `<b>` + trimmed artist + `</b>`. |
| CreateHtml.RenderShowsAlbum | create_html.py:62 | The fragment contains `<i>` + trimmed album + `</i>`. |
| CreateHtml.RenderShowsRating | create_html.py:63 | The fragment contains the trimmed rating text followed by `/5`. |
| CreateHtml.RenderShowsGenre | create_html.py:64 | The fragment contains the genre span around the trimmed genre. |
| CreateHtml.VideoIdSingleLine | create_html.py:60 | Removing the prefix adds no line break to the id. |
| CreateHtml.TemplateSingleLine | create_html.py:25-29 | The list-item template has five fields and no line break in its literal text. |
| CreateHtml.RenderSingleLine | create_html.py:58-66 | A fragment has a line break only if one of the row's trimmed fields has one. |
| CreateHtml.ValidPrefix | create_html.py:38-56 | Every prefix of a valid list is valid. |
| CreateHtml.ValidShorterPrefix | create_html.py:38-56 | A shorter prefix of a valid prefix is valid. |
| CreateHtml.LinksAppend | create_html.py:55 | Accepting a row adds exactly its trimmed link to the seen set. |
| CreateHtml.ExtendValidNecessary | create_html.py:41-49 | A row that extends a valid list to a valid list passes every check against the last rating and the seen links. |
| CreateHtml.ExtendValidSufficient | create_html.py:41-56 | A row that passes every check extends a valid list to a valid list. |
| CreateHtml.ExtendOrdered | create_html.py:44-56 | A row in range and no higher than the last rating keeps the ratings non-increasing. |
| CreateHtml.ExtendDistinct | create_html.py:49-55 | A row whose trimmed link is unseen keeps the links distinct. |
| CreateHtml.ExtendValid | create_html.py:38-56 | One step of the pass: the list stays valid after one more row if and only if that row passes the checks. |
| CreateHtml.FirstOffenderUnique | create_html.py:38-53 | There is at most one first offending row. |
| CreateHtml.FirstOffenderFails | create_html.py:39-53 | The first offending row fails a check against the rating and links of the rows before it. |
| CreateHtml.FirstOffenderExists | create_html.py:38-53 | Every invalid list has a first offending row. |
| CreateHtml.RatingsNonIncreasing | create_html.py:36-56 | In a valid list, for i <= j, 1 <= rating j <= rating i <= 5. Equal ratings are allowed. |
| CreateHtml.LinksDistinct | create_html.py:49-55 | In a valid list, the seen set holds exactly one trimmed link per row. |
| CreateHtml.RenderAllAppend | create_html.py:58-66 | One more row appends exactly its own fragment. |
| CreateHtml.AcceptRow | create_html.py:55-66 | An admissible row extends the valid prefix. It becomes the previous rating, adds its link to the seen set, and appends its fragment. |
| CreateHtml.RejectRow | create_html.py:50-53 | A row that fails a check after a valid prefix is the first offender, and the whole list is invalid. |
| CreateHtml.FragmentsSingleLine | create_html.py:58-66 | No fragment has a line break when no trimmed field has one. |
| CreateHtml.AlbumListSplitsIntoFragments | create_html.py:77 | For a non-empty list whose trimmed fields hold no line break, the joined album list splits back at "\n" into exactly the fragments, in order. |
| PyStr.Strip | create_html.py:41-47 | Definition, no contract: `rstrip` of `lstrip`. Specified by StripShape, StripEmpty, StripUnchanged and StripIdempotent. |
| PyStr.TrimStart | create_html.py:41-47 | Definition, no contract: drops leading whitespace. Specified by TrimStartShape. |
| PyStr.TrimEnd | create_html.py:41-47 | Definition, no contract: drops trailing whitespace. Specified by TrimEndShape. |
| PyStr.StartsWith | create_html.py:48 | Definition, no contract: the text's first characters are the prefix. Used by FieldsOk and by RemovePrefix's contract. |
| PyStr.TrimStartShape | create_html.py:41-47 | `lstrip()` keeps a suffix whose removed prefix is all whitespace and which does not start with whitespace. |
| PyStr.TrimEndShape | create_html.py:41-47 | `rstrip()` keeps a prefix whose removed suffix is all whitespace and which does not end with whitespace. |
| PyStr.StripShape | create_html.py:41-47 | `strip()` returns a slice of its input with only whitespace around it. The slice neither starts nor ends with whitespace. |
| PyStr.StripUnchanged | create_html.py:41-47 | Text that starts and ends with a non-space is unchanged by `strip()`. |
| PyStr.StripIdempotent | create_html.py:55 | Stripping twice equals stripping once. |
| PyStr.StripEmpty | create_html.py:41-47 | `s.strip() != ""` fails exactly when `s` is all whitespace. |
| PyStr.StripKeepsPrefix | create_html.py:48-60 | A prefix that starts and ends with a non-space survives `strip()`. This is why the check on the untrimmed link guarantees the prefix on the trimmed link. |
| PyStr.RemovePrefix | create_html.py:60 | With the prefix present, prefix + result is the text; otherwise the text is returned unchanged. |
| PyStr.Find | create_html.py:71 | The result is an occurrence and no earlier index is one; `None` means no occurrence at all. |
| PyStr.Count | create_html.py:71 | Definition, no contract: the number of leftmost non-overlapping occurrences, counted through Find. Specified by CountZero, BeforeFirstOccurrence and SingleOccurrence. |
| PyStr.Replace | create_html.py:76-78 | Definition, no contract: the occurrences that Count counts, each replaced, with the text between them kept. Specified by SingleOccurrence. |
| PyStr.CountZero | create_html.py:71 | The count is zero exactly when the marker does not occur. |
| PyStr.BeforeFirstOccurrence | create_html.py:71 | Text ending before the first occurrence holds no occurrence. |
| PyStr.SingleOccurrence | create_html.py:71-78 | With count 1, `replace` substitutes the one occurrence and keeps the text on both sides verbatim. Neither side holds the token. |
| PyStr.Join | create_html.py:77 | Definition, no contract: the parts with the separator between neighbours. Specified by SplitJoin. |
| PyStr.Split | create_html.py:77 | `split` yields at least one part. It serves as the inverse of `join`. |
| PyStr.SplitWithout | create_html.py:77 | Text without the separator splits into itself. |
| PyStr.SplitAfter | create_html.py:77 | Splitting at the first separator gives the text before it, then the split of the rest. |
| PyStr.SplitJoin | create_html.py:77 | Joining with a separator that no part contains, then splitting, gives back the parts. |
| PyStr.Format | create_html.py:59-65 | Definition, no contract: the template's literal pieces with the values between them, inserted verbatim. Specified by FormatField and FormatSingleLine. |
| PyStr.FormatField | create_html.py:59-65 | Each value appears in the formatted text between the literal pieces around its field. |
| PyStr.FormatSingleLine | create_html.py:59-65 | Formatting adds no line break beyond those in the pieces and values. |
| PyFloat.ParseFloat | create_html.py:44 | Only non-empty text parses. |
| PyFloat.ParseDigits | create_html.py:44 | A run of decimal digits parses to the integer it denotes. |
| PyFloat.ParseDecimalPoint | create_html.py:44 | `w.f` parses to the digits of w and f read as one integer, divided by 10^\|f\|. |
| PyFloat.ParseNegative | create_html.py:44 | A leading `-` before unsigned text negates its value and accepts the same texts. |
| PyFloat.ScanDigits | create_html.py:44 | Digits in the whole or fractional part extend the mantissa, and in the fraction also the scale. |
| PyFloat.ShiftDown | create_html.py:44 | Moving the decimal point e places left divides by 10^e. |
| AlbumExamples.OneDigitRow | create_html.py:41-64 | A row with trimmed fields, the long link and a one-digit rating passes its field checks exactly when the digit is in 1..5. Its fields are its own values with the prefix removed from the link. |
| AlbumExamples.RadioheadFields | create_html.py:41-64 | The Radiohead row renders with id `abc123` and rating `5`, and passes its checks. |
| AlbumExamples.AirFields | create_html.py:60-64 | The Air row renders with id `def456` and its rating text. |
| AlbumExamples.AirChecks | create_html.py:41-49 | The Air row passes its field checks exactly when its digit is in 1..5, and its link differs from Radiohead's. |
| AlbumExamples.RadioheadValid | create_html.py:36-56 | The Radiohead row alone is valid; its rating 5 becomes the previous rating and its link the seen set. |
| AlbumExamples.AirAdmissible | create_html.py:41-49 | After Radiohead, Air at "4" or an equal "5" passes every check. |
| AlbumExamples.ExampleAccepted | create_html.py:31-66 | [Radiohead 5, Air 4] and [Radiohead 5, Air 5] are valid lists. |
| AlbumExamples.ExampleOutOfRange | create_html.py:44-53 | With Air at "6", the pass stops at the second row and the list is invalid. |

## Left out

- File I/O: reading `albums.csv` and `template.html`, and writing `index.html` (create_html.py:34, 68-69, 73). Rows and the template are inputs.
- `csv.DictReader` and the `len(row) == 5` check (create_html.py:35, 40). Rows arrive as five-field records.
- Rows with a missing key or a `None` value. These raise exceptions the script does not catch, so they are outside the modelled contract.
- The minifier is a function parameter of `BuildIndex`, treated as an opaque pure function. `minify_asset` and the two asset calls (create_html.py:8-19, 85-86) are not part of this model; they touch only the stylesheet and the script, not the page.
- `print` and `sys.exit(1)` (create_html.py:51-53) are modelled as the `RowRejected` outcome, which carries the offending row and its index.
- BuildIndex: the row checks at create_html.py:40-49 and the placeholder check at create_html.py:71 are all `assert` statements, which `python -O` would skip. Under `-O` the script accepts every row, and a rating that does not parse then raises an uncaught `ValueError` at line 56. It also writes the page whatever the placeholder count is. The model always makes every check, as the script does without `-O`.
- ParseFloat: covers decimal text only: sign, digits, one point, exponent. Python's `inf`, `infinity` and `nan` are `None` here. Every one of them fails the range check anyway, so acceptance is unchanged.
- ParseFloat: underscores between digits (`"0_1"`), non-ASCII digits, and surrounding whitespace are not accepted. Whitespace cannot occur, since the text is already stripped. A rating written with underscores or non-ASCII digits that Python accepts is rejected by the model.
- ParseFloat: values are exact rationals, not binary doubles. Range and ordering checks on values that round differently in binary are not modelled.
- Split: covers one-character separators only. It is not in the script; it serves as the inverse of `join`.
- Rendering does no HTML escaping, as in the script. Different rows can therefore render to the same fragment, and no lemma claims otherwise.
- An empty video id is allowed: a link equal to the bare prefix is accepted and renders `https://youtu.be/`, as in the script.
- The per-row checks are one conjunction. The script evaluates them in a fixed order. Any failing check rejects the same row with the same result, so the order is not observable. The code checks genre and link emptiness after the rating checks.
