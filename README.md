# Docmost Markdown Converter — verified model of the text core

The converter takes the Markdown and images that a document-extraction
service produces and turns them into something Docmost can import.
This project models the parts of the converter that are pure text and
byte processing, and proves what they do:

- **`clean_markdown`** (`converter_ui/app/utils.py`) is the fixed pipeline
  of rewrites. It strips a leading YAML block, HTML comments, runs of
  blank lines and block-level HTML tags. It puts a space after header
  hashes, unescapes entities, spaces out images, injects the title and
  renumbers ordered lists. Last, it strips the whole text.
- **Data-URI extraction** (`create_docmost_zip`) replaces every inline
  `![alt](data:image/…;base64,…)` with a link to `images/image_NNN.ext`.
  It collects the decoded bytes under those names, then cleans the text.
- **`save_images`** (`converter_ui/src/utils.py`) gives attachments
  sequential names, `image_001.png` and onwards, and returns the map
  from original name to new path.
- **`convert_files`** (`converter_ui/src/main.py`, lines 135-158) adds an
  H1 when the text has none. It then rewrites each image link whose URL
  ends in an original attachment name to point at the new path.

Each Python regular expression is written out by hand, with Python's
semantics:

- a lazy `.*?` takes the shortest match that succeeds;
- `.` does not match a newline unless DOTALL is set;
- a greedy `#+` gives characters back when the rest of the pattern needs them;
- `re.sub` scans left to right and never overlaps matches.

The contracts and lemmas then say what each rewrite does to a text.

Modules:

| file | module | models |
|---|---|---|
| `option.dfy` | `Options` | the `Option` type used for "no match" and failed decodes |
| `text.dfy` | `Text` | `str.isspace`, `strip`, `split('\n')`, `'\n'.join`, substring search, ASCII `lower()` |
| `numbers.dfy` | `Numbers` | `str(n)`, `int(digits)`, `f"{n:03d}"` |
| `naming.dfy` | `Naming` | the `image_NNN` file names shared by both image paths |
| `cleaner.dfy` | `Cleaner` | the stages of `clean_markdown` and the function as a whole |
| `renumber.dfy` | `Renumber` | the ordered-list renumbering loop |
| `pattern.dfy` | `Pattern` | the data-URI regular expression, as a scan into segments |
| `datauri.dfy` | `DataUri` | `replace_data_uri` and the substitution with its counter and `final_images` |
| `docmost.dfy` | `Docmost` | extraction followed by cleaning, as `create_docmost_zip` does before zipping |
| `attachments.dfy` | `Attachments` | `save_images` |
| `relink.dfy` | `Relink` | the title guard and relink loop of `convert_files` |

Where the code does something other than its design description or
comments suggest, the model follows the code. Lemmas exhibit each case:

- The title check is a prefix test on the first line of the stripped text.
  A text that opens with `# Foobar` already counts as titled "Foo"
  (`Cleaner.LongerTitleCounts`).
- The header fix does not just "ensure a space after #". Its greedy `#+`
  backtracks, so an already-spaced `## x` becomes `# # x`
  (`Cleaner.FixHeaderNotIdempotent`). The full pipeline is therefore not
  idempotent.
- `save_images` opens the new file before decoding, so a failed decode
  leaves an empty `image_NNN` file. The next attachment reuses the number
  and overwrites that file only when its extension is the same
  (`Attachments.FailedThenJpeg`, `Attachments.FailedThenPng`).
- The tag pattern has no word boundary, so `<divider>` is removed like
  `<div>` (`Cleaner.DividerRemoved`). `<Value>` is kept (`Cleaner.ValueKept`).
- Blank lines are collapsed before tags are removed. A removed tag line can
  therefore leave three newlines in a row (`Cleaner.TagsRecreateTriple`),
  so the cleaned text may hold `\n\n\n`.
- The image-spacing rewrite consumes the `![` it matched. Of two adjacent
  image lines, only the first gets a blank line in front
  (`Cleaner.AdjacentImageNotSpaced`).
- The data-URI alt group is a lazy `.*?`, so it can reach past a `]` when
  the rest of the pattern fails there (`Pattern.AltWithBracket`).
- Every data-URI match consumes a number, even when its payload fails to
  decode. `save_images` advances its counter only when a file is written.
- The relink loop runs over the map in order. An earlier entry whose name
  is a suffix of a later one can rewrite the later entry's links first
  (`Relink.EarlierEntryWins`).

## Model

| member | source | states |
|---|---|---|
| Cleaner.StripFrontmatter | converter_ui/app/utils.py:21 | the result is a suffix of the input; it equals the input exactly when the text does not open with `---\n` followed by a later `\n---\n`; otherwise what was cut is one frontmatter block |
| Cleaner.FrontmatterRemoved | converter_ui/app/utils.py:21 | a frontmatter block at the start goes, up to the first closing fence, and the rest is kept |
| Cleaner.FrontmatterOnce | converter_ui/app/utils.py:21 | without MULTILINE only one block goes: a second block right after the first stays |
| Cleaner.CommentFree | converter_ui/app/utils.py:24 | a text without `<!--` passes unchanged |
| Cleaner.CommentAtStart | converter_ui/app/utils.py:24 | a comment at the start goes whole, newlines included, up to the first `-->` |
| Cleaner.CommentPrefixKept | converter_ui/app/utils.py:24 | text in front that opens no comment is kept verbatim |
| Cleaner.CommentRemoved | converter_ui/app/utils.py:24 | a comment in the middle of the text is removed and the text around it kept |
| Cleaner.CommentReappears | converter_ui/app/utils.py:24 | one pass is not enough: removing an inner comment can assemble a new `<!--` |
| Cleaner.CollapseBlankLines | converter_ui/app/utils.py:27 | the result holds no three newlines in a row, and it opens with a newline (or two) exactly when the input does |
| Cleaner.CollapseFree | converter_ui/app/utils.py:27 | a text without `\n\n\n` passes unchanged |
| Cleaner.CollapseRun | converter_ui/app/utils.py:27 | a run of three or more newlines becomes exactly two, and the text before it is kept |
| Cleaner.FixHeaderLineSpec | converter_ui/app/utils.py:30 | a line is kept exactly when it does not start with `#`, is `#` alone or already starts with `# `; every header line comes out with a space after its hash run |
| Cleaner.HeaderGetsSpace | converter_ui/app/utils.py:30 | `###x` gets its space after the whole hash run |
| Cleaner.SpacedHeaderSplit | converter_ui/app/utils.py:30 | when a space or the line end follows a run of two or more hashes, the run gives one `#` back and the space goes before it |
| Cleaner.FixHeaderNotIdempotent | converter_ui/app/utils.py:30 | `##x` becomes `## x`, and the fix applied to `## x` yields `# # x` |
| Cleaner.FixHeaders | converter_ui/app/utils.py:30 | with MULTILINE the rewrite works line by line: the lines of the result are the fixed lines of the input |
| Cleaner.TagEnd | converter_ui/app/utils.py:35 | a recognised tag starts with `<`, ends at a `>` and does not cross a newline |
| Cleaner.TagEndNamed | converter_ui/app/utils.py:32-35 | a tag is recognised only where `<`, an optional `/` and a listed name in any ASCII case open the text |
| Cleaner.NoTagKept | converter_ui/app/utils.py:32-35 | a text where no `<` is followed by a listed name passes the tag pass unchanged |
| Cleaner.StripTagsNewlines | converter_ui/app/utils.py:35 | removing tags never removes or adds a newline |
| Cleaner.TagPrefixKept | converter_ui/app/utils.py:35 | text without `<` is kept verbatim |
| Cleaner.TagRemoved | converter_ui/app/utils.py:35 | `<name …>` and `</name …>` for a listed name, in any ASCII case and with attributes, go up to the first `>` |
| Cleaner.DividerRemoved | converter_ui/app/utils.py:35 | `<divider>` is removed because it starts with `div` |
| Cleaner.ValueKept | converter_ui/app/utils.py:35 | `<Value>` is not a listed tag and is kept |
| Cleaner.TagsRecreateTriple | converter_ui/app/utils.py:27-35 | a text with no three newlines in a row can get them once a tag line is removed |
| Cleaner.ImageFree | converter_ui/app/utils.py:44 | a text without `\n![` passes unchanged |
| Cleaner.ImageSpaced | converter_ui/app/utils.py:44 | an image line after a non-blank line gets a blank line in front; the text before is kept |
| Cleaner.AdjacentImageNotSpaced | converter_ui/app/utils.py:44 | of two adjacent image lines only the first is spaced, since the match consumed the second's lead character |
| Cleaner.TitlePresentKept | converter_ui/app/utils.py:49-53 | a text opening with `# title` gets no second header |
| Cleaner.LongerTitleCounts | converter_ui/app/utils.py:52 | the check is a prefix test: `# Foobar…` counts as titled "Foo" |
| Cleaner.InjectTitleIdempotent | converter_ui/app/utils.py:49-53 | injecting the same title twice is injecting it once |
| Cleaner.TitleLeadsOutput | converter_ui/app/utils.py:49-96 | with a one-line title that does not end in whitespace, the renumbered and stripped output opens with `# title` |
| Cleaner.CleanMarkdown | converter_ui/app/utils.py:11-96 | the stages in source order, then the renumbering and the strip; the result has no whitespace at either end and opens with the title header when a usable title is given |
| Renumber.MatchItemExact | converter_ui/app/utils.py:64 | a line `digits` + `.` + whitespace + rest is matched with exactly that digit run and rest |
| Renumber.RenumberLines | converter_ui/app/utils.py:58-94 | the loop over the lines, updating `counter` and appending to `new_lines`, yields the renumbered lines |
| Renumber.RenumberLineForLine | converter_ui/app/utils.py:62-92 | same number of lines; a non-item line is kept; an item line becomes the counter after it, `. `, and its rest |
| Renumber.OnesCountUp | converter_ui/app/utils.py:76-79 | a run of `1.` items counts up from the counter before it |
| Renumber.OtherNumberKept | converter_ui/app/utils.py:80-84 | an item numbered other than 1 keeps its number and sets the counter, and a following `1.` continues from it |
| Renumber.OnlyHeadersReset | converter_ui/app/utils.py:85-92 | blank lines, images and text leave the counter alone, and a header sets it to 0 |
| Renumber.RenumberIdempotent | converter_ui/app/utils.py:58-94 | renumbering renumbered lines changes nothing |
| Renumber.RepeatedOnes | converter_ui/app/utils.py:58-94 | `1. a`, `1. b`, `1. c` becomes `1. a`, `2. b`, `3. c` |
| Renumber.HeaderResets | converter_ui/app/utils.py:58-94 | `1. a`, `# H`, `1. b` stays as it is |
| Renumber.RenumberTextCons | converter_ui/app/utils.py:58-94 | a first line that is no item passes through, and the rest is renumbered on its own |
| Numbers.ValueDecimal | converter_ui/app/utils.py:74-84 | `int(str(n)) == n` |
| Numbers.Pad3Value | converter_ui/app/utils.py:144 | `f"{n:03d}"` is all digits and reads back as n |
| Naming.ImageNameNumber | converter_ui/app/utils.py:144 | the number in `image_NNN.ext` reads back as the counter |
| Naming.ImageNamesDistinct | converter_ui/app/utils.py:144 | two counters never give the same file name, whatever the extensions |
| Pattern.MatchAtSound | converter_ui/app/utils.py:155 | a match spells `![alt](data:image/letters;base64,payload)`, with no newline in the alt or payload and no `)` in the payload |
| Pattern.TailTextSound | converter_ui/app/utils.py:155 | the part after the alt text is `](data:` + MIME + `;base64,` + payload + `)` |
| Pattern.ScanUnscan | converter_ui/app/utils.py:155-157 | the segments of a scan spell the text back exactly |
| Pattern.ScanWellFormed | converter_ui/app/utils.py:155-157 | every match the scan reports is a well-formed data URI |
| Pattern.MatchComplete | converter_ui/app/utils.py:155 | wherever a well-formed data URI starts, the pattern matches, with an alt no longer than that one's |
| Pattern.AltWithBracket | converter_ui/app/utils.py:155 | the lazy alt group reaches past a `]` when no `](data:` follows it |
| DataUri.JpegLike | converter_ui/app/utils.py:135-141 | a MIME type containing `jpeg` or `jpg` gives `jpg` |
| DataUri.DataUriExtractor.ReplaceDataUri | converter_ui/app/utils.py:128-151 | the counter goes up by one, the replacement is the image link or the `MISSING_IMAGE` link, and `final_images` gains the decoded file |
| DataUri.DataUriExtractor.Substitute | converter_ui/app/utils.py:157 | calling the callback on each match left to right yields the rendered text, the dictionary and the counter of the substitution |
| DataUri.ExtractDataUris | converter_ui/app/utils.py:113-157 | passed images only raise the counter; the text and the dictionary are the substitution over the scan |
| DataUri.ImagesCount | converter_ui/app/utils.py:146-151 | `final_images` gets one entry per match whose payload decodes |
| DataUri.ImagesNumbered | converter_ui/app/utils.py:143-147 | entries are numbered above the starting counter and no higher than the final one, increasing along the dictionary, and each name carries its number |
| DataUri.ImageNamesUnique | converter_ui/app/utils.py:143-147 | no file name is assigned twice, so no entry of `final_images` is overwritten |
| DataUri.RenderAppend | converter_ui/app/utils.py:157 | substituting over two parts is substituting over the first, then over the second from the counter the first left |
| DataUri.MatchNumbered | converter_ui/app/utils.py:143-157 | the k-th match gets the starting counter plus the number of matches before it, plus one |
| DataUri.FailedImageConsumesNumber | converter_ui/app/utils.py:143-151 | a failed decode becomes `MISSING_IMAGE` but uses number 1, so the next image is `image_002` |
| DataUri.NoMatchUnchanged | converter_ui/app/utils.py:157 | a text with no match comes back unchanged with no files |
| Docmost.DocmostDocument | converter_ui/app/utils.py:113-160 | the document is the cleaned extraction result, and the file names are distinct |
| Attachments.AttachmentExtCaseBlind | converter_ui/src/utils.py:31-33 | names that differ only in ASCII case get the same extension |
| Attachments.JpegSuffixIsJpg | converter_ui/src/utils.py:32-33 | any name ending in `.jpg` or `.jpeg`, in any case, gets `.jpg` whatever comes before |
| Attachments.PngIsPng | converter_ui/src/utils.py:31-33 | a name ending in `.png` gets `.png` |
| Attachments.UpperJpegIsJpg | converter_ui/src/utils.py:32 | case does not matter: `X.JPEG` gives `.jpg` |
| Attachments.GifIsPng | converter_ui/src/utils.py:31-33 | every other name gets `.png`, a GIF included |
| Attachments.SaveImages | converter_ui/src/utils.py:9-50 | `None` gives an empty map and writes nothing; otherwise the loop yields the renamed map, and `images/` ends up holding every file it opened, the empty ones a failed decode leaves included |
| Attachments.RenamedNumbered | converter_ui/src/utils.py:35-46 | the k-th entry of the map is the k-th attachment that could be written, under `image_{k+1:03d}`, with no gaps |
| Attachments.ValuesShape | converter_ui/src/utils.py:35-45 | each new path is `images/image_` + the zero-padded position + the extension its own name calls for |
| Attachments.ValuesDistinct | converter_ui/src/utils.py:35-46 | no two attachments share a path |
| Attachments.PathsInjective | converter_ui/src/utils.py:35-45 | different counters give different paths, whatever the names |
| Attachments.WrittenNamesMembers | converter_ui/src/utils.py:28-48 | a name is among the written names exactly when one of its entries can be written |
| Attachments.SavedKeys | converter_ui/src/utils.py:38-48 | a name is a key of the map exactly when one of its entries could be written |
| Attachments.FailedAbsent | converter_ui/src/utils.py:47-48 | a failed entry gets no key |
| Attachments.KeysDistinct | converter_ui/src/utils.py:28-45 | with distinct input names, the map has distinct keys |
| Attachments.PathsNameFiles | converter_ui/src/utils.py:36-45 | each mapped path is `images/` + the name of the file saved for it |
| Attachments.FilesNumbered | converter_ui/src/utils.py:35-46 | the k-th saved file carries the number k + 1 |
| Attachments.SavedOnDisk | converter_ui/src/utils.py:35-47 | every saved file is in `images/` with its bytes at the end: a later failed attachment never empties it |
| Attachments.LeftoversEmpty | converter_ui/src/utils.py:38-48 | every other file in `images/` is empty, left by an attachment whose base64 did not decode |
| Attachments.FailedThenJpeg | converter_ui/src/utils.py:35-48 | a PNG that fails to decode, then a JPEG: the map holds only the JPEG as `image_001.jpg`, and an empty `image_001.png` stays beside it |
| Attachments.FailedThenPng | converter_ui/src/utils.py:35-48 | a PNG that fails to decode, then another PNG: the second overwrites the empty `image_001.png` |
| Relink.ExistingHeaderKept | converter_ui/src/main.py:138-139 | an H1 after leading whitespace suppresses the header |
| Relink.UnspacedHashGetsHeader | converter_ui/src/main.py:138-139 | `#Title` without a space is no H1, and the header still goes in front |
| Relink.TitleGuardIdempotent | converter_ui/src/main.py:138-139 | after the guard the text opens with an H1, so a second guard changes nothing |
| Relink.MatchAtSound | converter_ui/src/main.py:152 | a match is `![alt](url NAME)` with no newline in alt or URL, and the URL part is the shortest for that alt |
| Relink.MatchFromSound | converter_ui/src/main.py:152 | the lazy alt search reports only matches of the pattern |
| Relink.UrlEndSound | converter_ui/src/main.py:152 | the lazy URL part stops at the first `NAME)` and crosses no newline |
| Relink.MatchNeedsName | converter_ui/src/main.py:152 | a match needs `NAME)` in the text |
| Relink.LinkMatched | converter_ui/src/main.py:152 | a link whose URL ends in NAME is matched, with the alt ending at its `]` and NAME ending at its `)` |
| Relink.RelinkAbsent | converter_ui/src/main.py:141-158 | a name that does not occur followed by `)` leaves the text unchanged |
| Relink.RelinkPrefixKept | converter_ui/src/main.py:158 | text without `!` in front is kept verbatim |
| Relink.RelinkAtLink | converter_ui/src/main.py:152-158 | a matched link becomes `![alt](new path)`, and the substitution goes on after it |
| Relink.ImageLineRelinked | converter_ui/src/main.py:152-158 | a line with one such image link is rewritten to the new path, with its alt and the text around it kept |
| Relink.RelinkAllAppend | converter_ui/src/main.py:141-158 | relinking with two maps in a row is relinking with their concatenation |
| Relink.RelinkAllSkips | converter_ui/src/main.py:141-158 | an entry whose name does not occur is a no-op |
| Relink.EarlierEntryWins | converter_ui/src/main.py:141-158 | an earlier entry whose name ends the later one's name rewrites the link first, so the later entry no longer matches |
| Relink.RelinkMarkdown | converter_ui/src/main.py:135-158 | the guard, then one `re.sub` per map entry in order, reassigning `current_markdown` |
| Relink.RenamedLiteral | converter_ui/src/utils.py:35-45 | paths from `save_images` hold no backslash, so the replacement template inserts them literally |
| Relink.ConvertDocument | converter_ui/src/main.py:123-158 | the map from `save_images` drives the relinking of the guarded text, and the files are what `save_images` leaves in `images/` |
| Text.JoinSplit | converter_ui/app/utils.py:58-94 | joining the lines of a split gives the text back |
| Text.SplitJoin | converter_ui/app/utils.py:58-94 | splitting the join of newline-free lines gives the lines back |

## Left out

- HTTP endpoints, job sessions, the extraction and language-model
  clients, logging, directory creation and ZIP packaging are I/O around
  the core. The ZIP layout (`document.md`, `images/…`) is not modelled.
- `base64.b64decode` and `html.unescape` are parameters (`decode`,
  `unescape`). A failed decode is `None`. The entity table and base64
  alphabet are not modelled.
- Attachments.SaveImages: a file that cannot be opened or written is not
  modelled. A save fails here only when a string payload fails to decode;
  the empty file that failure leaves is modelled (`Attachments.Disk`).
- The legacy `images` list passed to `create_docmost_zip` only raises the
  counter (`DataUri.PassedCount`), as in the source. Its element type is
  left generic.
- Python dictionaries are insertion-ordered sequences of pairs. Key
  uniqueness is proved where the source relies on it, not assumed.
- Regex character classes are ASCII only:
  - `\d` in the list pattern matches ASCII digits only. Unicode decimal digits are not modelled.
  - IGNORECASE in the tag pattern folds ASCII letters only. Non-ASCII case equivalents such as the Kelvin sign are not modelled.
  - `str.lower()` in `save_images` is modelled on ASCII letters only.
- Relink.RelinkMarkdown: requires that no new path contains a backslash,
  because `re.sub` template escapes are not modelled.
  `Relink.RenamedLiteral` proves every path from `save_images` meets this.
- Relink.RelinkMarkdown: `re.escape(original_name)` is modelled by
  matching the name literally, which is what the escaped pattern does.
- Cleaner.CleanMarkdown: makes no promise that the output has no three
  newlines in a row, and none that cleaning is idempotent. Neither holds
  for the code (`Cleaner.TagsRecreateTriple`, `Cleaner.FixHeaderNotIdempotent`).
- Relink.ConvertDocument: stops before the language-model refinement and
  the writing of the final document.
