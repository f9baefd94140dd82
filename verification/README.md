# Link Split parser, modelled in Dafny

Link Split shows the download links listed in a plain-text file dropped onto
the page. All of its logic is the parser inside the file reader's `onload`
callback. The parser:

- splits the text on `'\n'`;
- reads the lines in one forward pass, remembering the previous line;
- gathers a "current section" (a title and a list of items) as it goes;
- produces the file name followed by the finished sections.

A trimmed line of exactly twelve dashes is a rule. A rule makes the trimmed
line above it the title of a fresh section, provided that line is not blank.
The outgoing section is kept if it has a title, with or without items. A
non-empty trimmed line that mentions `http` is split on whitespace. The first
field becomes the item's name. The first later field that starts with `http`
becomes its url. When no such field exists, the line adds nothing. After the
last line, the section in progress is kept only if it has both a title and
items.

The project has five modules:

- `Wrappers` (`wrappers.dfy`) holds `Option`, which models a JavaScript
  result that may be `undefined`, such as the result of `find`.
- `Text` (`text.dfy`) models the JavaScript string operations the parser
  uses. These are `trim`, `split('\n')`, `split(/\s+/)`, `includes` and
  `startsWith`. Each comes with its characterising lemmas: split/join round
  trips, trim cutting only whitespace at the ends, and whitespace splitting
  losing nothing but whitespace.
- `LinkParser` (`link_parser.dfy`) holds the data model (`Item`, `Section`,
  `Entry`, `State`) and the parser itself. `Step` handles one line. `Run`
  folds it over the lines. `Finish` is the final flush, `Parse` gives the
  sections of a file, and `Links` gives the displayed list. The module also
  has the one-line lemmas and the invariants of the whole pass.
- `Segments` (`segments.dfy`) gives a second, independent account of the
  result. The lines are cut at the rules that open a section. Each cut is one
  section: its title is the line above the rule, and its items come from the
  lines up to the next such rule. It proves that the forward pass computes
  exactly this (`ParseIsSegmented`).
- `Scenarios` (`scenarios.dfy`) checks the behaviour on small inputs: a
  titled section, a link line whose fields are separated by any run of
  whitespace, a lone url, a link line directly above a rule, and an empty
  section in the middle of a file.

Whitespace is the ECMAScript WhiteSpace and LineTerminator set. This is what
both `trim()` and `\s` use, so one predicate, `Text.IsSpace`, serves both.

Points to note about the code:

- A rule is a trimmed line equal to exactly twelve dashes. Longer or shorter
  runs of dashes are ordinary lines.
- The line above a rule becomes a title even when it holds a link.
- A section closed by a later rule is shown even when it has no items. Only
  the last section needs items to be shown.
- A link line is read as a name followed by whitespace-separated fields. There
  is no keyword form such as `By:` or `License:`, and a line holding only a
  url adds nothing.
- The displayed list starts with a `{fileName}` entry, followed by one entry
  per section.

## Model

| member | source | states |
|---|---|---|
| Text.Split | src/App.jsx:25 | splitting on `'\n'` yields at least one line and no line contains the separator |
| Text.JoinSplit | src/App.jsx:25 | joining the split lines back with `'\n'` restores the text exactly, so no character is lost or reordered |
| Text.SplitJoin | src/App.jsx:25 | lines free of `'\n'` joined and split again come back unchanged, so splitting is the inverse of joining |
| Text.TrimStartCuts | src/App.jsx:27 | the leading cut is a suffix of the line, only whitespace is removed, and the result does not start with whitespace |
| Text.TrimEndCuts | src/App.jsx:27 | the trailing cut is a prefix of the line, only whitespace is removed, and the result does not end with whitespace |
| Text.TrimEnds | src/App.jsx:27 | a trimmed line neither starts nor ends with whitespace |
| Text.TrimIsSlice | src/App.jsx:27 | a trimmed line is a contiguous slice of the original with only whitespace cut from either end |
| Text.TrimFixed | src/App.jsx:47 | a string with no whitespace at either end is its own trim, so `name.trim()` leaves a whitespace-free name unchanged |
| Text.TrimIdempotent | src/App.jsx:27 | trimming a trimmed string changes nothing; this is a general property of `trim`, since the parser trims each line once |
| Text.TrimEmpty | src/App.jsx:32 | a trimmed line is empty exactly when the raw line is all whitespace, which is when `if (prevLine)` fails |
| Text.Contains | src/App.jsx:42 | `includes` is true exactly when the pattern occurs at some position of the line |
| Text.Fields | src/App.jsx:43 | whitespace splitting yields at least one field, no field holds whitespace, and a line not starting with whitespace has a non-empty first field; where the cuts fall is stated by `Text.FieldsWordSpace` and `Text.FieldsOfWords` |
| Text.FieldsNonEmpty | src/App.jsx:43 | a non-empty trimmed line splits into non-empty fields only |
| Text.FieldsKeepText | src/App.jsx:43 | the fields together hold exactly the non-whitespace characters of the line, in order |
| Text.FieldsOfWords | src/App.jsx:43 | non-empty whitespace-free words separated by any non-empty runs of whitespace (spaces, tabs, several at once) split back into exactly those words |
| Text.FieldsWordSpace | src/App.jsx:43 | a whitespace-free field followed by a whitespace run of any length and kind is cut off as exactly one field, and splitting continues after the run |
| Text.FieldsSpaceRun | src/App.jsx:43 | a whitespace run of any length before a field gives exactly one empty field, so a run counts as one separator |
| LinkParser.RuleIsTwelveDashes | src/App.jsx:29 | the rule test, equality with the twelve-dash literal, holds exactly when the trimmed line has length twelve and every character is a dash, so eleven or thirteen dashes, or dashes mixed with other text, are not rules |
| LinkParser.FindUrl | src/App.jsx:44 | `find` returns nothing exactly when no part starts with `http`, and otherwise returns the first part that does |
| LinkParser.ParseLink | src/App.jsx:42-50 | a link line yields an item if and only if its first field is non-empty and some later field starts with `http`; the name is the first field, the url is the first later such field, and every item has a non-empty whitespace-free name and a whitespace-free url starting with `http` |
| LinkParser.Finish | src/App.jsx:54-56 | the final flush keeps the sections already finished, in order, and adds the current section if and only if it has a title and at least one item |
| LinkParser.Links | src/App.jsx:58 | the displayed list is the file-name entry followed by one entry per parsed section, in order |
| LinkParser.RuleWithoutTitle | src/App.jsx:29-32 | a rule on the first line, or under a blank line, changes neither the finished sections nor the section being gathered |
| LinkParser.RuleOpensSection | src/App.jsx:31-39 | a rule under a non-blank line opens an empty section titled with that trimmed line, whatever it holds, and finishes the previous section if and only if it has a title, even one with no items |
| LinkParser.OtherLineIgnored | src/App.jsx:26-52 | a line that is neither the rule nor a non-empty line mentioning `http` changes neither the finished sections nor the section being gathered |
| LinkParser.LinkLineAppends | src/App.jsx:42-50 | a line mentioning `http` leaves the finished sections and the title alone and appends at most one item, at the end |
| LinkParser.RunGood | src/App.jsx:19-52 | after any prefix of the lines, every finished section has a title, every gathered item is well formed, and nothing has been finished while the current title is still empty |
| LinkParser.ParseWellFormed | src/App.jsx:19-56 | every section shown has a non-empty title and only well-formed items |
| LinkParser.RunExtends | src/App.jsx:26-35 | the sections finished after a prefix of the lines are a prefix of those finished after all of them, so later lines never reorder or drop a section |
| LinkParser.RunPrev | src/App.jsx:30-31 | the remembered previous line is the line just read, which is `lines[index - 1]` for the next line |
| LinkParser.UntitledNeverEmitted | src/App.jsx:20-35 | when no rule opens a section, the result is empty, so items gathered while the title is still empty are never shown |
| LinkParser.NoStructureOnlyFileName | src/App.jsx:25-58 | a file with no twelve-dash rule and no line mentioning `http` shows only its file name |
| Segments.OpenersExact | src/App.jsx:29-32 | the listed positions are exactly the rules that open a section (a twelve-dash line under a non-blank line), strictly increasing, so each appears once and in line order |
| Segments.RunIsSegmented | src/App.jsx:26-52 | after any prefix of the lines, the finished sections are the closed segments of the cut account and the current section is its open segment |
| Segments.ParseIsSegmented | src/App.jsx:19-56 | the parser's result equals the cut account: every closed segment, empty or not, then the last segment if it has items |
| Segments.SectionsInRuleOrder | src/App.jsx:26-56 | the j-th section shown is the section opened by the j-th opening rule, every opened section but the last is shown, and the last is shown exactly when it has items |
| Scenarios.RuleTextIsRule | src/App.jsx:29 | the twelve-dash line is its own trim and is a rule |
| Scenarios.LinkLineItemSpaced | src/App.jsx:42-50 | a line `name`, any whitespace run, `url` is its own trim, is a link line and not a rule, and yields exactly the item (name, url), whether the gap is one space, a tab or several characters |
| Scenarios.LinkLineItem | src/App.jsx:42-50 | a line `name url` with one space yields exactly the item (name, url) |
| Scenarios.LoneUrlDropped | src/App.jsx:43-45 | a line holding only a url yields no item, because the url becomes the name and no later field is left |
| Scenarios.FirstLine | src/App.jsx:29-51 | whatever the first line holds, a rule with no line above it, a link line or anything else, it finishes nothing and leaves the section being gathered untitled |
| Scenarios.TitleRule | src/App.jsx:29-39 | a rule under a non-blank first line opens an empty section titled with that line, and nothing is finished yet |
| Scenarios.TitleRuleLink | src/App.jsx:29-56 | a title line, a rule and a link line give one section titled with the trimmed title and holding that link |
| Scenarios.CategoryExample | src/App.jsx:29-56 | `Category X`, the rule and `toolD http://x` give one section `Category X` with the item (`toolD`, `http://x`) |
| Scenarios.DirectLinkExample | src/App.jsx:42-50 | `toolA https://example.com/a.zip` yields the item (`toolA`, `https://example.com/a.zip`) |
| Scenarios.LinkLineAboveRuleRun | src/App.jsx:29-51 | after a title, a rule, a link line and a second rule, the link sits in the finished first section and a new empty section is open, titled with the whole link line |
| Scenarios.LinkLineAboveRule | src/App.jsx:31-56 | a rule directly under a link line puts the link in the section above and opens a section titled with the whole link line, which is then dropped at the end for having no items |
| Scenarios.EmptySectionMidFile | src/App.jsx:33-56 | a section closed by a later rule is shown with no items, while the same section at the end of the file is dropped |

## Left out

- Reading the file is left out: `FileReader`, `readAsText`, the drop event's file list and the asynchronous `onload` callback are browser I/O (src/App.jsx:8-17, 61). The model starts from the decoded text and takes the file name as an opaque parameter.
- React state (`useState`, `setLinks`, `setIsDragging`) and all rendering (src/App.jsx:5-6, 87-136) are display concerns. `Links` returns the list that `setLinks` would store.
- `handleDragOver` and `handleDragLeave` (src/App.jsx:64-85) track drag state and compare floating-point positions; they do not affect parsing.
- JavaScript strings are sequences of UTF-16 code units, while Dafny's `char` is a Unicode scalar value. No whitespace character lies outside the Basic Multilingual Plane, so `trim` and `\s` behave the same on both.
- `sections.push({...currentSection})` pushes a shallow copy that shares its item array with the accumulator. The accumulator is replaced right after the push, so the shared array is never changed again. The model uses immutable values, where this sharing cannot be seen.
- Metadata fields (`By:`, `License:`, `Link:`), hub-only items, configurable rule lengths and titles placed after the rule do not exist in this code, so they are not modelled.
