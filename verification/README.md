# HTML/CSS to PNG converter — a Dafny model

The program is one Qt window, `HTMLToPNGConverter`. It holds an HTML editor,
a CSS editor, a web-view preview and two spin boxes for the PNG export size.
This project models the window's own logic and proves properties of it:

- **Document composition** (`renderPreview`). With empty CSS the HTML is
  shown unchanged. Otherwise every `</head>` becomes
  `<style>`+css+`</style></head>`. If the result then has no literal
  `<head>`, the block `<head><style>`+css+`</style></head>` is put in front.
  `Text` models the two QString calls this relies on: `contains` and
  `replace`. `replace` replaces every occurrence, case-sensitively, left to
  right, without overlap. It is specified by a leftmost cut of the input
  (`IsLeftmostSplit`), independently of the scan that computes it.
- **Sibling style sheet** (`openFile`, `saveHTML`). Both derive the CSS path
  as `absolutePath() + "/" + baseName() + ".css"`. `Paths` models QFileInfo's
  `fileName`, `absolutePath` and `baseName` on absolute paths. `baseName` is
  the file name up to its first `.`.
- **Window state** (`Converter.HtmlToPngConverter`). The fields are the two
  buffers, the last previewed document and the export size. The invariant
  keeps width in [100, 3840] and height in [100, 2160]. The defaults are
  1024 x 768. Opening a file replaces the HTML buffer. It replaces the CSS
  buffer only when the sibling file exists. Export is refused when the HTML
  buffer is empty.

Behaviours of the code that the proofs make explicit:

- The `<head>` test runs on the text *after* replacement. Take an HTML text
  with `</head>` but no literal `<head>`, such as `<head lang="en">`. It gets
  the style block twice (`Composer.StyleInjectedTwice`).
- If the CSS itself contains `<head>` and the HTML has a `</head>`, no head
  block is synthesized (`Composer.HeadAddedIff`).
- `saveToPNG` tests the HTML *buffer* for emptiness. It exports the document
  the preview *last* showed and does not re-render first.
- Saving with empty CSS leaves an older sibling `.css` on disk. Reopening
  the file then loads that stale CSS (`Converter.SaveEmptyCssThenOpen`).
- Saving the HTML as `dir/x.css` makes the file its own sibling, so the CSS
  overwrites it (`Converter.SaveOverOwnSibling`).
- For a file directly under `/`, `absolutePath()` is `/`, so the sibling is
  spelt `//base.css`.

The head block is added when the replaced text has no literal `<head>`.
A document whose head tag has attributes, such as `<head lang="en">`, has a
head element but no literal `<head>`, so it gets the block as well.

## Model

| member | source | states |
|---|---|---|
| Text.Contains | applicatoin.cpp:70 | QString::contains: a match needs the pattern to fit, and the empty pattern is always found; `Text.ContainsIff` characterises the search |
| Text.ReplaceAll | applicatoin.cpp:69 | QString::replace: replacing a pattern by itself changes nothing, and a replacement at least as long never shortens the text; `Text.ReplaceAllSpec` characterises the scan |
| Text.ReplaceAllNoMatch | applicatoin.cpp:69 | a text without the pattern is returned unchanged |
| Text.ContainsIff | applicatoin.cpp:70 | the recursive substring search is true exactly when some index starts an occurrence |
| Text.ReplaceAllSpec | applicatoin.cpp:69 | on any leftmost cut of the input, replace-all gives the same segments joined by the replacement: text between occurrences is kept in order and every occurrence found is replaced |
| Text.SplitIsLeftmost | applicatoin.cpp:69 | the scan's cut is a leftmost cut: it rejoins to the input, no occurrence starts inside a segment, the last segment has none |
| Text.ReplaceAllBySplit | applicatoin.cpp:69 | replace-all equals the scan's cut rejoined with the replacement, and that cut rejoined with the pattern is the input |
| Text.ReplaceAllLength | applicatoin.cpp:69 | output length is input length plus (occurrences) x (length of the replacement - length of the pattern) |
| Text.LeftmostSplitCount | applicatoin.cpp:69 | any two leftmost cuts of one string count the same number of occurrences |
| Text.LeftmostSplitOccurs | applicatoin.cpp:69 | a leftmost cut has more than one segment exactly when the pattern occurs |
| Text.JoinLength | applicatoin.cpp:69 | changing the separator of a join changes its length by the difference once per gap |
| Composer.Replaced | applicatoin.cpp:69 | the HTML after the `</head>` replacement is never shorter, and is the HTML itself when it has no `</head>` |
| Composer.Compose | applicatoin.cpp:63-73 | with empty CSS the composed document is the HTML exactly |
| Composer.ComposeInjectsBeforeEveryHeadClose | applicatoin.cpp:68-71 | with CSS, the document is the HTML's `</head>` cut rejoined with the injected style block, with or without the synthesized head in front, and without it exactly when that rejoined text has a `<head>` |
| Composer.HeadAddedIffNoHeadAfterReplace | applicatoin.cpp:70-71 | the head block is prepended iff the replaced text has no `<head>`; the replaced text is always the document's suffix |
| Composer.HeadAddedIff | applicatoin.cpp:68-72 | with CSS, the head block is prepended iff the HTML has no `<head>` and (no `</head>` or the CSS has no `<head>`) |
| Composer.ComposeLength | applicatoin.cpp:69-71 | length = len(html) + k(len(css)+15) + (len(css)+28 if the head block is added), k the number of `</head>` found |
| Composer.StyleInjectedTwice | applicatoin.cpp:69-71 | HTML with `</head>` but no `<head>`, CSS without `<head>`: the style block occurs in the synthesized head and again after it |
| Composer.InjectedCloseContainsIff | applicatoin.cpp:69 | the injected block contains `<head>` exactly when the CSS does |
| Composer.JoinContainsHeadOpen | applicatoin.cpp:70 | a join whose separator starts with `<` and ends with `>` contains `<head>` iff a segment does or the used separator does |
| Composer.ContainsHeadOpenConcat | applicatoin.cpp:70 | `<head>` cannot straddle a boundary after `>` or before `<` |
| Paths.LastIndexOf | applicatoin.cpp:49-51 | the index of the last occurrence of a character, -1 exactly when absent |
| Paths.FileName | applicatoin.cpp:49-51 | the file name has no `/`, is preceded by `/` and ends the path |
| Paths.AbsolutePath | applicatoin.cpp:50 | the directory is absolute and the path is directory + `/` + file name (or `/` + file name at the root) |
| Paths.UpToFirstDot | applicatoin.cpp:51 | the base name is a dot-free prefix of the file name, ended by a `.` when shorter |
| Paths.BaseName | applicatoin.cpp:51 | QFileInfo::baseName: a prefix of the file name with no `.` and no `/`, ended by the first `.` when shorter |
| Paths.SiblingCssPath | applicatoin.cpp:50-51 | the sibling style-sheet path is absolute and five characters longer than directory plus base name; `Paths.SiblingParts` takes it apart |
| Paths.SiblingParts | applicatoin.cpp:50-51 | the sibling lies in the same directory, is named base name + `.css`, and keeps the base name |
| Paths.SiblingIdempotent | applicatoin.cpp:128-129 | the sibling of the sibling is the sibling |
| Paths.SharedSiblingIff | applicatoin.cpp:50-51 | two files share a style sheet iff they share directory and base name |
| Paths.SiblingIsSelfIff | applicatoin.cpp:128-129 | the sibling path *string* equals the path iff the file is named base + `.css` and is not directly under `/` (at the root the string is `//base.css`, which names the same file on disk) |
| Converter.Clamp | applicatoin.cpp:258 | a spin-box value lies in its range and equals the requested value when that is in range |
| Converter.Opened | applicatoin.cpp:42-58 | openFile's buffers: nothing loaded iff cancelled or unreadable; otherwise the HTML is the file's text, the CSS the sibling's text when it exists and the old CSS when not; `Converter.SaveThenOpen` relates it to saving |
| Converter.Saved | applicatoin.cpp:117-139 | saveHTML's disk: unchanged when cancelled or unwritable; the file gets the HTML (unless it is its own sibling), the sibling gets non-empty CSS when writable, no other file changes, and empty CSS adds no file but the HTML one |
| Converter.SaveThenOpen | applicatoin.cpp:124-134 | with non-empty CSS and writable files, opening what was saved restores both buffers |
| Converter.SaveEmptyCssThenOpen | applicatoin.cpp:124-139 | with empty CSS the old sibling is not touched and reopening loads it |
| Converter.SaveOverOwnSibling | applicatoin.cpp:127-134 | a file named base + `.css` is overwritten by the CSS, which then fills both buffers on open |
| Converter.HtmlToPngConverter.constructor | applicatoin.cpp:257-264 | empty buffers, size 1024 x 768, invariant established |
| Converter.HtmlToPngConverter.EditHtml | applicatoin.cpp:193 | the HTML buffer becomes the typed text; size invariant kept |
| Converter.HtmlToPngConverter.EditCss | applicatoin.cpp:199 | the CSS buffer becomes the typed text; size invariant kept |
| Converter.HtmlToPngConverter.SetWidth | applicatoin.cpp:257-259 | the width is the clamped value in [100, 3840]; invariant kept |
| Converter.HtmlToPngConverter.SetHeight | applicatoin.cpp:261-264 | the height is the clamped value in [100, 2160]; invariant kept |
| Converter.HtmlToPngConverter.RenderPreview | applicatoin.cpp:63-77 | the preview is the composed document, the HTML itself when CSS is empty |
| Converter.HtmlToPngConverter.OpenFile | applicatoin.cpp:36-61 | cancelled or unreadable: nothing changes; otherwise HTML replaced, CSS replaced only from an existing sibling, preview re-rendered |
| Converter.HtmlToPngConverter.SaveHtml | applicatoin.cpp:111-142 | the disk gains the HTML file and, for non-empty CSS, the sibling; no other file changes; the window is unchanged |
| Converter.HtmlToPngConverter.SaveToPng | applicatoin.cpp:80-109 | empty HTML gives only the warning; an export request exists iff HTML and path are non-empty, carrying the last preview and an in-range size |

## Left out

- File dialogs are left out. Their result is a method parameter: the empty
  string means cancelled.
- Disk reads and writes are left out. The disk is a map from path to text,
  plus a set of writable paths. A file the model writes can be read back
  afterwards. A file that exists but cannot be read is simply absent from
  the map. `QIODevice::Text` line-ending translation is not modelled.
- Paths are assumed absolute, as the dialogs return them. QFileInfo's
  cleaning of `.`, `..` and doubled slashes is not modelled. In the model,
  `//x.css` and `/x.css` are different keys, although on disk they name one
  file. `Converter.SaveThenOpen` and `Converter.SaveEmptyCssThenOpen` assume
  the on-disk condition (the file is not named base + `.css`). At the root,
  `Converter.Saved` and `Paths.SiblingIsSelfIff` differ from the disk: saving
  `/x.css` writes the CSS to the key `//x.css` and keeps the HTML under
  `/x.css`, whereas on disk the CSS overwrites the HTML.
- Web-engine rendering (`setHtml`, `setViewportSize`), the one-second timer
  and `grab()` are foreign calls and asynchronous timing. An export is
  modelled as the request it makes.
- Pixmap scaling with kept aspect ratio and PNG encoding are Qt internals.
  They are not visible in this program's source.
- Message boxes, status-bar text, `setTheme` (constant style sheets handed
  to the application), widget construction and signal wiring in `setupUi`,
  and `main` are GUI plumbing with no logic to verify.
- `QTextEdit::toPlainText` normalisation (for example of paragraph
  separators) is not modelled. The buffers hold exactly the text set into
  them.
- Text.ReplaceAll: requires a non-empty pattern. QString::replace's
  behaviour for an empty pattern is not modelled, because the program only
  ever replaces the fixed text `</head>`.
