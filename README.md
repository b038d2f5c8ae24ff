# flomo-to-obsidian: memo parsing, import and progress bus

This project models the core of the flomo-to-obsidian plugin. The plugin turns a flomo
backup into Markdown notes in an Obsidian vault. The model has three parts:

- **Core** (`lib/flomo/core.ts`, the `FlomoCore` parser). It reads every `.memo` node of
  the exported HTML page. Each node becomes a `Memo` record: a title made from the
  timestamp, the date, and a content that starts with the `📅 [[date]] time` header. The
  content comes from turndown with two custom rules:
  - the list-item rule: leading newlines stripped, trailing newlines collapsed, four-space
    indentation, `-` bullets or `start + index` numbering;
  - the image rule (`imageAngleWrap`): backup attachments `file/...` are rewritten to the
    attachment placeholder and wrapped in angle brackets.

  A post-pass then unescapes brackets and rewrites `](file/` links. `<mark>` and `</mark>`
  become the highlight placeholder before conversion. `loadTags` keeps the option texts
  of `#tag` after the first. The `FlomoCore` fields (`memos`, `tags`, `files`) are a class.
- **Importer** (`lib/flomo/importer.ts`, `FlomoImporter`). `importMemos` works out the
  destination path of every memo: one file per date when merging by date, otherwise
  `memo@<title>_<n>.md` numbered from the memo count down to 1. It resolves the
  placeholders (highlights to `==`, attachment folder, optional bi-link unescape). It
  appends each content, in order, to the `files` dictionary of the `FlomoCore` object,
  then writes each key once, with its pieces joined by `\n\n---\n\n`. `import` does the
  following, in order:
  1. creates the workspace and unpacks the archive;
  2. copies the first attachment folder;
  3. picks the first `.html` page of the first entry and loads it;
  4. runs `importMemos`;
  5. runs the Moments and Canvas hooks unless they are set to `skip`;
  6. removes the workspace.
- **ProgressBus** (`lib/ui/progressBus.ts`). A listener set in insertion order:
  - `subscribe` adds a listener;
  - the closure it returns removes it;
  - `emit` calls every listener once, in order, and catches any error a listener throws.

JavaScript's string operations are modelled on `seq<char>` in module `Strings`:
- `replaceAll`, and `replace` with a global regex of fixed text, replace every
  non-overlapping occurrence, leftmost first;
- `replace` with a string pattern replaces the first occurrence only;
- `split(' ')` and `join`;
- string conversion of numbers.

File-system work is not performed. Each method returns a log of `Effect`s (directories
created, archive unpacked, folder copied, page read, files written, hooks run, workspace
removed). The contracts of `Import` and of each of its steps state that log exactly, as a
concatenation of reference definitions (`WorkspaceEffects`, `DirEffects`, `WriteEffects`,
`HookEffects`, `FinishEffects`). The outside world
is passed in as parameters:
- the entries `decompress` reports;
- the listing of the page folder;
- the parsed page, as the strings `querySelector` / `innerHTML` / `textContent` return;
- turndown's base conversion, as a function `string -> string`;
- which listeners throw.

The value of `FILES_DIR_PLACEHOLDER` is not part of this model: it is the parameter
`files` of subset type `Core.FilesPlaceholder`.

Four behaviours of the code that the model keeps as they are:
- The cleanup at importer.ts:152 is not in a `finally`, so a failure in any earlier step
  leaves the workspace behind.
- The page is looked up in the first unpacked entry (`files[0]`, importer.ts:122-127),
  and its first `.html` name is taken. Several `.html` pages are not an error, and the
  entry is not checked to be the export root.
- The attachment copy (importer.ts:106-119) happens before the page is looked up. A
  missing page is therefore reported after attachments were already copied into the vault.
- Bi-links are unescaped at the first `\[\[` and the first `\]\]` only (importer.ts:66),
  because `replace` with a string pattern changes one occurrence.

## Model

| member | source | states |
|---|---|---|
| Strings.IndexOf | lib/flomo/importer.ts:66 | The result is the leftmost position where the pattern occurs, and there is none exactly when the pattern does not occur. |
| Strings.ReplaceAllByIndexOf | lib/flomo/importer.ts:61-63 | A global replacement leaves a text without the pattern unchanged. Otherwise it replaces the leftmost occurrence and goes on after it: JavaScript's `replaceAll`. |
| Strings.ReplaceAllNoMatch | lib/flomo/core.ts:78-79 | A text in which the pattern does not occur is left unchanged by a global replacement. |
| Strings.ReplaceFirstSpec | lib/flomo/importer.ts:66 | `replace` with a string pattern changes only the first occurrence. The text before and after it is kept. |
| Strings.ReplaceAllLeaves | lib/flomo/core.ts:98-99 | A replacement text that shares no character with `q` leaves no occurrence of `q`. |
| Strings.Split | lib/flomo/core.ts:106 | `split` gives at least one part, no part holds the separator, and joining the parts with it gives the text back. |
| Strings.SplitHead | lib/flomo/core.ts:106 | The first part of a split is the text before the first separator, or the whole text when there is none. |
| Strings.DigitsValueOfNatToString | lib/flomo/core.ts:51 | The decimal text of a number reads back as that number. |
| Strings.NatToStringInjective | lib/flomo/importer.ts:51 | Distinct memo numbers have distinct decimal texts. |
| Core.ExtractTitle | lib/flomo/core.ts:21-23 | The title has the timestamp's length. Each `-`, `:` and JavaScript whitespace character becomes `_`, and every other character is kept. |
| Core.TitleHasNoSeparator | lib/flomo/core.ts:21-23 | No `-`, `:` or whitespace character is left in a title. |
| Core.DateTimeParts | lib/flomo/core.ts:106-108 | The date is the text before the first space and the time is the next space-free part. With no space, the date is the whole timestamp and the time text is `undefined`. |
| Core.DateTimeWithSpace | lib/flomo/core.ts:106-108 | With a space, the timestamp starts with the date, a space and the time, and a space follows the time when anything does. |
| Core.DateOf | lib/flomo/core.ts:106 | `dateTime.split(' ')[0]`. Its properties are `DateTimeParts`. |
| Core.TimeText | lib/flomo/core.ts:108 | `dateTime.split(' ')[1]` as concatenation renders it, `undefined` when missing. Its properties are `DateTimeParts`. |
| Core.Header | lib/flomo/core.ts:108 | The header starts with `📅 [[date]] ` and ends with a blank line. |
| Core.CollapseMarksIsOnePass | lib/flomo/core.ts:96-99 | The two global replacements turn each `<mark>` and each `</mark>` into exactly one highlight placeholder in a single left-to-right pass, balanced or not. |
| Core.CollapseAtOpen | lib/flomo/core.ts:98 | A leading `<mark>` becomes one placeholder, and the replacements continue after it. |
| Core.CollapseAtClose | lib/flomo/core.ts:98-99 | A leading `</mark>` is kept by the first replacement and becomes one placeholder in the second. |
| Core.CollapseAtOther | lib/flomo/core.ts:98-99 | Any other first character is copied by both replacements. |
| Core.CollapseMarksRemovesTags | lib/flomo/core.ts:96-99 | After the replacements no `<mark>` and no `</mark>` is left. |
| Core.CollapseMarks | lib/flomo/core.ts:96-99 | The two `replaceAll` calls on the content HTML. Its properties are `CollapseMarksIsOnePass` and `CollapseMarksRemovesTags`. |
| Core.StripLeadingNewlines | lib/flomo/core.ts:41 | The result is the input without its leading run of newlines and does not start with one. |
| Core.StripTrailingNewlines | lib/flomo/core.ts:42 | The result is the input without its trailing run of newlines and does not end with one. |
| Core.IndentFollowsNewlines | lib/flomo/core.ts:43 | Every newline of the indented text is followed by four spaces. |
| Core.ListItemBodyShape | lib/flomo/core.ts:40-43 | The item body is the indented text with leading and trailing newlines removed. A newline plus four spaces is added when there were trailing newlines. Every newline is followed by four spaces, and the body never ends in a newline. |
| Core.ToNumberOfDecimal | lib/flomo/core.ts:51 | `Number` of a decimal text is its value. |
| Core.ListItemNumbering | lib/flomo/core.ts:46-52 | Outside an `OL` the prefix is `- `. Inside one it is `index + 1` when `start` is missing or empty, and `start + index` for a decimal `start`, followed by a period and two spaces. |
| Core.NumberedFromStart | lib/flomo/core.ts:49-51 | Inside an `OL` with a decimal `start`, the number is `start + index`. |
| Core.ListItemPrefix | lib/flomo/core.ts:46-52 | The item prefix. Its cases are `ListItemNumbering`. |
| Core.ListItemReplacement | lib/flomo/core.ts:39-54 | The list-item replacement: prefix, transformed body and a newline before a next sibling. Its properties are `ListItemBodyShape` and `ListItemSeparator`. |
| Core.ListItemSeparator | lib/flomo/core.ts:53 | The list-item replacement is prefix, body and a newline exactly when the item has a next sibling. |
| Core.ImageCases | lib/flomo/core.ts:64-73 | An image without a source is dropped. `file/x` becomes `<placeholder x>` in angle brackets. A source already starting with the placeholder is wrapped, and any other source is kept as it is. |
| Core.ImageOfAttachment | lib/flomo/core.ts:68-72 | A backup attachment `file/x` becomes `![alt](<placeholder x>)`. |
| Core.ImageReplacement | lib/flomo/core.ts:64-73 | The `imageAngleWrap` replacement. Its cases are `ImageCases`. |
| Core.PostPassWithoutBackslash | lib/flomo/core.ts:76-83 | On text without backslashes only the case-insensitive `](file/` rewrite acts. Text with neither is unchanged. |
| Core.PostPass | lib/flomo/core.ts:76-83 | The fixes after turndown: `\[` and `\]` unescaped globally, then `](file/` in any case rewritten to the placeholder. Its properties are `PostPassWithoutBackslash`. |
| Core.ExtractContent | lib/flomo/core.ts:24-85 | `extractContent`: turndown, then the post-pass. |
| Core.BuildMemo | lib/flomo/core.ts:104-109 | The record's title is the extracted title and its date the text before the first space. Its content starts with the `📅 [[date]] ` header. |
| Core.ReadMemo | lib/flomo/core.ts:91-109 | One node gives a record exactly when it has `.time`, `.content` and `.files`. Otherwise the error names that node's index and is not the tag error. The record's date is the text of `.time` before its first space. |
| Core.MemoContentLayout | lib/flomo/core.ts:96-108 | A memo's content is the header, the converted body with marks as placeholders, a newline and the converted attachments. |
| Core.LoadMemos | lib/flomo/core.ts:91-112 | On success there is one record per `.memo` node, in document order, each the node's record. Otherwise the error is that of the first node that lacks `.time`, `.content` or `.files`, and loading succeeds exactly when no node does. |
| Core.LoadTags | lib/flomo/core.ts:115-123 | The tags are the option texts after the first, in order. |
| Core.FlomoCore.constructor | lib/flomo/core.ts:14-16 | The object holds the given memos and tags and an empty `files` dictionary. |
| Core.LoadCore | lib/flomo/core.ts:11-17 | Construction succeeds exactly when every memo node is complete and `#tag` exists. A memo error comes before the tag error. On success, a fresh object holds exactly the loaded memos and the tags after the first option, with no files. |
| Importer.PathNumber | lib/flomo/importer.ts:51 | Without merging, a memo's number `count - idx` can be read back from its path. |
| Importer.PathsDiffer | lib/flomo/importer.ts:49-51 | Without merging, memos at different positions get different paths. |
| Importer.PathsDistinct | lib/flomo/importer.ts:49-51 | Without merging, no two memos share a destination path. |
| Importer.MergedPathsByDate | lib/flomo/importer.ts:48-50 | When merging, two memos share a path exactly when they share a date. |
| Importer.MergedPathDate | lib/flomo/importer.ts:48-50 | When merging, a shared path means a shared date. |
| Importer.MemoFilePath | lib/flomo/importer.ts:48-51 | A memo's file lies in its date folder under `memo@` and ends in `.md`: named by the date when merging, by the title and the number `count - idx` otherwise. |
| Importer.HighlightsResolved | lib/flomo/importer.ts:61 | No highlight placeholder remains, each became `==`, and text without one is unchanged. |
| Importer.FilesResolved | lib/flomo/importer.ts:62-63 | Each attachment placeholder becomes `<target>/files/`, or `files/` when there is no target folder. Text without one is unchanged. |
| Importer.UnescapeFirstOnly | lib/flomo/importer.ts:65-67 | Only the first `\[\[` is unescaped. Everything after it, including a later `\[\[`, is kept as it is. |
| Importer.ResolvePlainText | lib/flomo/importer.ts:56-70 | Content with no placeholder and no backslash comes through resolution unchanged. |
| Importer.UnescapeBiLinks | lib/flomo/importer.ts:65-67 | The bi-link unescape: the first `\[\[` becomes `[[`, then the first `\]\]` becomes `]]`. Its properties are `UnescapeFirstOnly`. |
| Importer.ResolveContent | lib/flomo/importer.ts:56-70 | The content closure: highlights to `==`, then the attachment folder, then the bi-link unescape when allowed. Its properties are `HighlightsResolved`, `FilesResolved`, `UnescapeFirstOnly` and `ResolvePlainText`. |
| Importer.GroupedPieces | lib/flomo/importer.ts:72-77 | After grouping, the keys are the old keys plus the memo paths. Each key holds its old pieces followed, in processing order, by the content of every memo whose path it is. |
| Importer.GroupedKeyOrder | lib/flomo/importer.ts:72-77 | Grouping keeps the key order listing every key of `files` exactly once. |
| Importer.FirstSeenOrder | lib/flomo/importer.ts:72-80 | The old keys come first. Each new key is some memo's path, and a new key comes before another only when it was seen first. |
| Importer.TotalPieces | lib/flomo/importer.ts:72-77 | Every memo adds exactly one piece to `files`. |
| Importer.DistinctPathsOnePiece | lib/flomo/importer.ts:49-77 | With distinct paths, every path holds exactly its own memo's content and the keys follow memo order. |
| Importer.FirstSeenDistinct | lib/flomo/importer.ts:72-80 | With distinct paths, the key order is the memo order. |
| Importer.PiecesForDistinct | lib/flomo/importer.ts:72-77 | With distinct paths, each path receives only its own memo's content. |
| Importer.WrittenOnce | lib/flomo/importer.ts:80-85 | Every key of `files` is written exactly once, with its pieces joined by the separator. A file with one piece holds exactly that piece. |
| Importer.AppendPiece | lib/flomo/importer.ts:72-77 | The piece is appended under the path, which is created empty and added to the key order on first use. Nothing else changes. |
| Importer.AddMemo | lib/flomo/importer.ts:48-77 | The memo's folder is created, and its resolved content is appended under its path. |
| Importer.GroupMemos | lib/flomo/importer.ts:47-78 | After the first loop, `files` and its key order are the grouping of the resolved contents by path. Each memo's folder was created, in order. |
| Importer.WriteFiles | lib/flomo/importer.ts:80-85 | One write per key, in key order, of the key's pieces joined. |
| Importer.ImportMemos | lib/flomo/importer.ts:39-88 | Memos and tags are unchanged, and `files` is the grouping of the resolved contents by path in insertion order. The effect log is the folder creations followed by one write per key. |
| Importer.MemoEffectKinds | lib/flomo/importer.ts:39-88 | `importMemos` only creates folders and writes files. It copies nothing. |
| Importer.FirstHtmlPage | lib/flomo/importer.ts:123-125 | The chosen page is the first name ending in `.html`. There is none exactly when no name does. |
| Importer.CopyAttachments | lib/flomo/importer.ts:106-119 | The log is exactly `AttachmentEffects`: only the first directory entry ending in `/file/` is copied, after the vault's attachment folder is created. With none, nothing happens. |
| Importer.AttachmentEffects | lib/flomo/importer.ts:106-119 | Reference definition of the attachment step, read from the front of the entries: the first attachment folder gives a folder creation and a copy, and the search stops there. |
| Importer.AttachmentEffectsKinds | lib/flomo/importer.ts:106-119 | The attachment step only creates folders and copies. |
| Importer.WorkspaceEffects | lib/flomo/importer.ts:94-119 | The effects before the page read: the workspace is created, the archive unpacked, then the attachment step. |
| Importer.WorkspaceHasNoOutput | lib/flomo/importer.ts:94-119 | Nothing before the page read writes a file, runs a hook or removes the workspace. |
| Importer.PrepareWorkspace | lib/flomo/importer.ts:94-119 | The log is exactly `WorkspaceEffects`: the workspace is created and the archive unpacked first, then the vault's attachment folder is created and the first attachment folder copied, if there is one. It writes no file, runs no hook and removes nothing. |
| Importer.FinishImport | lib/flomo/importer.ts:132-154 | The log is exactly `FinishEffects`: the folder of each memo in order, one write per key of `files` in key order, the hooks not set to `skip` (Moments before Canvas), then the workspace removal, last. Memos and tags are unchanged, and `files` is the grouping of the resolved contents. |
| Importer.FinishEffects | lib/flomo/importer.ts:131-152 | Reference definition of the effects from `importMemos` on: folder creations, writes, hooks, then the removal. |
| Importer.LoadPage | lib/flomo/importer.ts:127-154 | The page is read first. Loading succeeds exactly when every memo node is complete and `#tag` exists, and a failure stops right after the read with a load error. On success the log is the read followed by exactly `FinishEffects`, and the fresh object satisfies `Imported`: each memo is read from its node, the tags are the options after the first, and `files` is the grouping of all memos. |
| Importer.Imported | lib/flomo/importer.ts:127-131 | What `import` returns for a page: one memo per `.memo` node, read from it, the `#tag` options after the first, and `files` grouped by path in first-use order. |
| Importer.RunHooks | lib/flomo/importer.ts:136-152 | The Moments hook runs unless its option is `skip`, then the Canvas hook likewise, then the workspace is removed. Nothing is copied. |
| Importer.HookEffects | lib/flomo/importer.ts:136-149 | At most two effects, all hook runs. Moments runs exactly when its option is not `skip`, Canvas likewise, and when both run Moments comes first. |
| Importer.Import | lib/flomo/importer.ts:90-158 | Import succeeds exactly when the archive has entries, the first entry's folder lists an `.html` page, every memo node is complete and `#tag` exists. Each failure carries its own error. Without entries, a listing or a page the log is exactly `WorkspaceEffects`. With a page that fails to load it is that plus the page read. On success it is that, the read of the first `.html` page, and exactly `FinishEffects`. A failure writes no file, runs no hook and removes nothing. Only the first attachment folder is copied. On success the fresh object satisfies `Imported`. |
| Importer.PagePath | lib/flomo/importer.ts:122-127 | The page read is the first `.html` name of the first entry's folder. |
| Importer.NoOutputAppend | lib/flomo/importer.ts:90-158 | Two logs without writes, hooks or removal give such a log when appended. |
| ProgressBus.AddedSpec | lib/ui/progressBus.ts:6 | Subscribing adds exactly that listener, never twice. A second subscription changes nothing. |
| ProgressBus.RemovedSpec | lib/ui/progressBus.ts:13 | Unsubscribing removes exactly that listener and keeps the others without duplicates. An absent listener changes nothing. |
| ProgressBus.RemovedIdempotent | lib/ui/progressBus.ts:12-19 | Calling the unsubscribe closure twice is the same as calling it once. |
| ProgressBus.RemovedCommutes | lib/ui/progressBus.ts:13 | Two unsubscriptions give the same set in either order. |
| ProgressBus.Resubscribe | lib/ui/progressBus.ts:5-19 | Subscribing again after unsubscribing puts the listener last in the call order. |
| ProgressBus.Added | lib/ui/progressBus.ts:6 | `Set.prototype.add`. Its properties are `AddedSpec`. |
| ProgressBus.Removed | lib/ui/progressBus.ts:13 | `Set.prototype.delete`. Its properties are `RemovedSpec`, `RemovedIdempotent` and `RemovedCommutes`. |
| ProgressBus.DeliveredOnce | lib/ui/progressBus.ts:28-34 | `emit` calls every registered listener exactly once, with the message and percentage unchanged. Listeners that throw do not change who is called. |
| ProgressBus.Deliveries | lib/ui/progressBus.ts:28-34 | One call per registered listener, in set order. Its properties are `DeliveredOnce`. |
| ProgressBus.Bus.constructor | lib/ui/progressBus.ts:3 | The set starts empty. |
| ProgressBus.Bus.Subscribe | lib/ui/progressBus.ts:5-6 | The listener joins the end of the set unless it is already there, and the set stays duplicate-free. |
| ProgressBus.Bus.Unsubscribe | lib/ui/progressBus.ts:12-13 | The listener leaves the set and the others keep their order. |
| ProgressBus.Bus.Emit | lib/ui/progressBus.ts:22-35 | The calls made are each registered listener in set order, with the message and percentage. An error is caught and the loop goes on, and the set is unchanged. |

## Left out

- The HTML parsers (node-html-parser, parse5) and turndown's base HTML-to-Markdown conversion: foreign libraries, given as parameters (the parsed page as strings, turndown as `string -> string`). The two custom turndown rules are modelled as the functions turndown calls, not wired into the base conversion.
- `sanitize` (importer.ts:32-37): a parse5 parse-and-serialize round trip, part of the foreign parser.
- File-system and vault I/O (`mkdirp`, `decompress`, `copy`, `readdir`, `readFile`, `write`, `remove`): recorded as an effect log. Their own failures (other than an unreadable page folder or a missing page) and what they write are not modelled.
- The value of `FILES_DIR_PLACEHOLDER`: its definition is not part of this model. It is an abstract non-empty token made of letters, digits, `_`, `-`, `.` and `/` (so it holds no `$` and no `<`) that does not contain the highlight placeholder.
- The progress reports (`reportFn` with Chinese messages and percentages 60-100) and all console logging: they do not affect the result.
- The bodies of `generateMoments` and `generateCanvas`: other modules, modelled only as the `RunHook` effects.
- Core.ToNumber: covers decimal integers with optional sign and surrounding whitespace, read exactly. JavaScript rounds integers above 2^53 to the nearest double: `start="9007199254740993"` numbers the first item `9007199254740992` in JavaScript and `9007199254740993` here. Decimal fractions, exponents, hexadecimal and `Infinity` are read as NaN here instead of their JavaScript value.
- Core.PlusToString: numbers are rendered as integers. JavaScript's exponent notation for values of 1e21 and above is not modelled.
- Strings.ReplaceAll: `$`-patterns in a replacement text are not interpreted. The attachment-folder replacement at importer.ts:62-63 inserts `${flomoTarget}/files/`, and `flomoTarget` is free settings text: a `flomoTarget` containing `$` (for example `a$&b`, where JavaScript inserts the matched placeholder for `$&`) is not modelled. The other replacement texts (`==`, `[`, `]`, `[[`, `]]`, and the placeholders) hold no `$`.
- Strings.Lower: the `i` flag is modelled as ASCII case folding only. This is exact for the fixed text `](file/` it applies to, which has no non-ASCII letters.
- Importer.Import: an export folder that holds a file literally named `undefined` (which `readFile` would then open when no `.html` page exists) is treated as a missing page.
- Importer.Import: the object keys of `files` are treated as kept in insertion order. This holds because every path contains `/` and so is never an integer-like key.
- The `FlomoImporter` constructor's `baseDir` assignment, which aliases the settings object: `baseDir` is a field of the given configuration.
- ProgressBus.Bus.Emit: a listener that subscribes or unsubscribes during `emit` (re-entrant mutation of the set while it is iterated) is not modelled. Listeners are identities and cannot act on the bus.
- ProgressBus.Bus.Emit: `percent` is an optional integer rather than a JavaScript number.
- Concurrency between overlapping imports and the asynchronous scheduling of the awaited steps: the model runs the steps sequentially.
