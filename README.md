# Quiz extraction of the LinkedIn skill-assessment crawler

This project models the core of a small Next.js crawler for LinkedIn
skill-assessment quizzes. The pages are GitHub-rendered Markdown files.

- The scrape route (`src/app/api/scrape/route.ts`, and again in
  `src/app/api/scrape/route.js`) loads the page in a headless browser and
  takes the quiz `article`. A callback then runs in the page. It makes one
  left-to-right pass over the article's direct children, keeping a growing
  record array `res` and a cursor `index` that starts at -1:
  - a child whose class is exactly `markdown-heading` appends a new
    question record;
  - a child whose class contains `highlight` sets the current record's
    `description` from its `pre`;
  - a child whose class contains `contains-task-list` rebuilds the current
    record's `options` and `answer` from its `li` items;
  - any other child is ignored.

  Afterwards the route drops the records with at most one option.
- The page (`src/app/page.tsx`) checks the URL before it sends the request
  and names the downloaded file after the URL.

The two route files hold the same callback, line for line: route.ts:32-82
is route.js:27-77, and the filter at route.ts:84 is route.js:83. One model
covers both, and the table below cites whichever file's lines are clearer
for each member.

Modules:

- `Text` (text.dfy): the JavaScript string built-ins the code uses.
  - `trim`, with JavaScript's full whitespace set.
  - `split` on one character.
  - `indexOf`/`includes`.
  - `replace` with a string pattern, which replaces the first occurrence only.
  - `endsWith`.
- `Quiz` (quiz.dfy): the data model and the extraction as functions.
  - `Classify` decides what a child is.
  - `QuestionOf` extracts the question text.
  - `ScanItems` reads a task list.
  - `Step` handles one child, and `Fold`/`Pass` run the pass.
  - `KeepMultipleChoice` is the filter, and `Extract` is the route's result.
  - The lemmas about them follow each definition.
- `Route` (route.dfy): the callback as the loops it is. `Evaluate` is the
  outer `for…of` loop, with `res` and the cursor `index` as local state.
  `ReadChecklist` is the inner indexed loop, with `options` and
  `isCorrectAnswerIndex`. Each method is proved to compute the `Quiz`
  function, so the lemmas proved there hold of the loops.
- `Page` (page.dfy): `getFileNameFromUrl`, the download name, `isValidUrl`
  and the validation at the top of `handleScrape`.

Modelling choices:

- A DOM child is the datatype `Quiz.Child`. It holds only what the callback
  asks of the child:
  - its `class` attribute (`None` when it is absent);
  - the `innerHTML` of its first `h4`;
  - the `outerText` of its first `pre`;
  - its `li` items. Each item has its `outerText` and its first `input`, if
    any. An input has the value of its `checked` attribute, if it has one.
- Dereferencing a missing `pre` or `input` throws in the source. The route
  catches the throw and answers with an error and no data. The model returns
  `Failure(MissingPre)` or `Failure(MissingInput)` for the whole extraction.
  The element is looked up before the cursor is consulted, so a malformed
  child fails the call even when no heading precedes it.
- The cursor is `|res| - 1` in the functions. `Evaluate` keeps it as a
  separate variable, with the invariant `index == |res| - 1`. When the cursor
  is -1, the source writes to the array's `-1` property, which never shows up
  as an element of the returned array. The model therefore writes nothing.
- `answer` is `Scalar(0)` when a heading creates the record (the bare
  number 0 of the source). A checklist makes it `Indices([k])`.
- `question` is `None` when the source leaves it `undefined`, that is, when
  there is no `h4` or its markup has no `.`.
- The record field `type` is called `kind`, because `type` is a Dafny
  keyword.

## Model

| member | source | states |
|---|---|---|
| Text.Trim | src/app/api/scrape/route.ts:42 | the trimmed text neither starts nor ends with JavaScript whitespace |
| Text.TrimIsSlice | src/app/api/scrape/route.ts:70 | `trim` keeps the slice starting where the leading whitespace ends; everything before and after it is whitespace, and it is empty exactly when the text is all whitespace |
| Text.TrimIdempotent | src/app/api/scrape/route.js:65 | trimming a trimmed text changes nothing |
| Text.Split | src/app/api/scrape/route.ts:41 | `split` yields at least one part and no part contains the separator |
| Text.JoinSplit | src/app/page.tsx:13 | joining the parts of `split` with the separator gives back the original string |
| Text.SplitJoin | src/app/page.tsx:13 | splitting a join of separator-free parts gives back the parts |
| Text.SplitAtSeparator | src/app/page.tsx:13-14 | a separator between two strings splits them into the parts of each, in order |
| Text.IndexOf | src/app/page.tsx:14 | `indexOf` returns a position where the pattern occurs with no occurrence before it, or -1 exactly when it occurs nowhere |
| Text.ReplaceFirst | src/app/page.tsx:14 | `replace` with a string pattern leaves the text unchanged when the pattern occurs nowhere, and otherwise changes its length by the replacement's length less the pattern's |
| Text.ReplaceFirstAt | src/app/page.tsx:14 | `replace` with a string pattern splices the replacement in at the first occurrence only |
| Quiz.Classify | src/app/api/scrape/route.ts:38-57 | a child without a class is ignored; a description has `highlight` somewhere in its class and a checklist `contains-task-list` |
| Quiz.QuestionOf | src/app/api/scrape/route.ts:39-42 | a question is found only in `h4` markup that contains a `.`, and it neither starts nor ends with whitespace |
| Quiz.ClassifyPriority | src/app/api/scrape/route.ts:38-57 | a child is a heading exactly when its class is `markdown-heading`; a description exactly when otherwise `highlight` occurs in the class; a checklist exactly when `highlight` occurs nowhere and `contains-task-list` does; ignored exactly when neither occurs or the class is missing |
| Quiz.QuestionBetweenDots | src/app/api/scrape/route.ts:39-42 | the question is the trimmed text between the first and the second `.` of the `h4` markup, whatever precedes the first `.` |
| Quiz.QuestionNeedsDot | src/app/api/scrape/route.js:34-37 | `h4` markup without any `.` yields an undefined question |
| Quiz.ScanItems | src/app/api/scrape/route.ts:58-71 | reading a task list fails only with a missing input; on success there is one option per item, and the answer is a valid item index (or 0 for an empty list) |
| Quiz.ScanFailsIffMissingInput | src/app/api/scrape/route.ts:63-65 | reading a task list fails exactly when some `li` has no `input` |
| Quiz.ScanOptionsAreItems | src/app/api/scrape/route.js:53-66 | option k is item k's text trimmed, in document order |
| Quiz.AnswerIsLastChecked | src/app/api/scrape/route.ts:60-69 | the answer is the index of the last item whose input carries `checked`, and 0 when none does |
| Quiz.CheckedValueIrrelevant | src/app/api/scrape/route.js:58-64 | only the presence of the `checked` attribute matters, not its value |
| Quiz.Step | src/app/api/scrape/route.ts:44-78 | one child adds exactly one record if it is a heading and none otherwise, and never touches the records before the current one |
| Quiz.HeadingAppends | src/app/api/scrape/route.ts:44-52 | a heading appends one record with its question, type `single_choice`, empty description, no options and the bare answer 0, and keeps the earlier records |
| Quiz.DescriptionUpdatesOnlyDescription | src/app/api/scrape/route.ts:53-56 | a highlight child replaces only the current record's description, with the untrimmed `pre` text |
| Quiz.ChecklistUpdatesOnlyChoices | src/app/api/scrape/route.ts:73-77 | a checklist replaces the current record's options and answer wholesale and keeps its question, type and description |
| Quiz.StepWithoutEffect | src/app/api/scrape/route.js:30-52 | an ignored child, or a readable description or checklist before any heading, leaves the records unchanged |
| Quiz.Fold | src/app/api/scrape/route.ts:37-79 | the pass never removes a record: a successful pass ends with at least the records it started with |
| Quiz.Pass | src/app/api/scrape/route.ts:32-82 | a successful pass yields exactly one record per heading child, and every record is well formed (see `Quiz.FoldWellFormed`) |
| Quiz.FoldAppend | src/app/api/scrape/route.ts:37-79 | the pass over two runs of children is the pass over the second started from the result of the first, and a failure in the first is final |
| Quiz.FoldFailsIffMalformed | src/app/api/scrape/route.ts:53-65 | the pass fails exactly when some child is a highlight without `pre` or a checklist with an input-less item |
| Quiz.FoldFollowsHeadings | src/app/api/scrape/route.js:39-47 | the pass yields one record per heading child, in heading order, each with its heading's question |
| Quiz.StepWellFormed | src/app/api/scrape/route.ts:44-77 | each step keeps every record of type `single_choice`, with either the bare 0 and no options or a one-element answer that indexes the options |
| Quiz.FoldWellFormed | src/app/api/scrape/route.js:32-74 | every record the pass produces is well formed in that sense |
| Quiz.LeadingChildrenIgnored | src/app/api/scrape/route.ts:35 | a readable run of children before the first heading has no effect on the result |
| Quiz.KeepMultipleChoice | src/app/api/scrape/route.ts:84 | the filter keeps every copy of each record with more than one option and no other record, in their original order, so the result is never longer than its input |
| Quiz.Extract | src/app/api/scrape/route.ts:84-89 | the route never returns more questions than the page has headings |
| Quiz.ExtractedRecordsValid | src/app/api/scrape/route.js:83 | every returned record has at least two options, type `single_choice`, and an answer `[k]` with `0 <= k < |options|` |
| Quiz.ExtractedInHeadingOrder | src/app/api/scrape/route.js:39-47 | before filtering, the records match the heading children one for one, in order; the returned records are a subsequence of them |
| Quiz.ExtractFailsIffMalformed | src/app/api/scrape/route.ts:90-95 | the whole extraction fails, with no partial result, exactly when some child is malformed |
| Route.ReadChecklist | src/app/api/scrape/route.js:53-66 | the inner loop fails exactly at an input-less item; otherwise it gives one trimmed option per item, and `isCorrectAnswerIndex` ends as the index of the last checked item (via `ScanItems`) |
| Route.Evaluate | src/app/api/scrape/route.ts:32-82 | the outer loop computes the pass, keeps `index == |res| - 1`, and yields one well-formed record per heading, or fails exactly when a child is malformed |
| Route.FailureIsFinal | src/app/api/scrape/route.js:89-94 | once a prefix of the children fails, the whole call fails the same way |
| Page.LastSegment | src/app/page.tsx:13-14 | the last segment contains no `/` |
| Page.LastSegmentIsTail | src/app/page.tsx:13-14 | the last segment is what follows the last `/`, or the whole URL when it has none |
| Page.FileNameFromUrl | src/app/page.tsx:12-16 | the file name always ends in `-data` |
| Page.FileNameUsesLastSegment | src/app/page.tsx:13-14 | only the text after the last `/` affects the file name |
| Page.FileNameWithoutSlash | src/app/page.tsx:13-15 | a URL without `/` is used whole, with `.md` replaced once |
| Page.FileNameDropsFirstMd | src/app/page.tsx:14 | only the first `.md` of the last segment is removed; the text around it is kept |
| Page.FileNameOfDoubleMd | src/app/page.tsx:14-15 | `<stem>.md.md` is named `<stem>.md-data` |
| Page.FileNameKeepsSegmentWithoutMd | src/app/page.tsx:14-15 | a last segment without `.md` is kept unchanged before `-data` |
| Page.DownloadName | src/app/page.tsx:67 | the downloaded file's name ends in `-data.json` |
| Page.IsValidUrl | src/app/page.tsx:28 | a URL not ending in `.md` is never valid, and neither is one the URL pattern rejects |
| Page.Validate | src/app/page.tsx:32-40 | an empty URL is rejected with "URL cannot be empty"; a non-empty invalid one with the `.md` hint; a URL is accepted exactly when it is non-empty and valid |

## Left out

- Browser automation is not modelled: the launch, `executablePath`, `goto`,
  the `section > div > article` lookup, `dispose` and the `close` calls. It
  is I/O with a headless browser.
- How the browser produces `outerText` and `innerHTML` is not modelled.
  These strings are fields of `Quiz.Child`.
- Request and response plumbing is not modelled: reading the request body, the 400 for a
  missing `url`, the 200 and 500 JSON bodies, `dotenv` and `console.log`.
  The 500 path appears only as the `Failure` result of `Quiz.Extract`.
- The URL regular expression of `isValidUrl` (page.tsx:19-27) is the
  parameter `matches` of `Page.IsValidUrl`. No regular-expression semantics
  are modelled.
- The UI and client I/O are not modelled: the React state setters, `fetch`,
  `AbortController` and its 600 s timeout, and the `Blob`/link download.
  The downloaded JSON's content is not modelled either.
- The JSON serialisation across `page.evaluate` is not modelled. The model
  only assumes that a write to `res[-1]` never appears as an element of the
  returned array.
- The answer field is never converted at the end of the pass. A record that
  gets no checklist keeps the bare number 0 as its answer and is never
  wrapped in an array. Such a record has no options, so the filter always
  drops it. The model keeps this as the code has it.
- Which thrown exception ends the call is not modelled beyond its kind:
  missing `pre`, or missing `input`.
- Repeatability is not stated as a separate lemma. The extraction is a
  function of its input, so equal inputs give equal results by construction.
