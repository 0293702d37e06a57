# Verified model of the site's page scripts

This project models three client-side scripts of a bilingual (Arabic and
English) portfolio and blog site, and proves properties of them in Dafny.

- **The contact form** (`ar/contact.js`, `en/contact.js`). `validateField`
  trims a field and applies a ladder: required but empty, then pattern
  mismatch, then valid. There are three patterns: name, e-mail and message.
  The handler also keeps a character counter for the message box and
  submits only when every required field passes. The two editions differ
  only in the name alphabet and in their texts, so one model takes a
  `Locale` parameter. Values are sequences of UTF-16 code units
  (`JsText.JsString`), because `length`, `trim` and the patterns all count
  code units. One whitespace predicate serves both `trim` and `\s`.
- **The project planner** (`en/start-project/project-planner.js`). This is a
  wizard over the form's steps: Next, Back, the final POST and its outcome.
  It is modelled as an immutable `Wizard` record with one transition
  function per event. An invariant holds in every reachable state. The view
  (active step, progress bar) and the summary text are derived from it.
- **The blog post page** (`ar/posts/post-page.js`). It covers:
  - the post id taken from the URL path, with `split('/')` modelled exactly;
  - the language-switch link and the post lookup;
  - the byline and the author box;
  - the related posts;
  - the table of contents;
  - the heading highlighted while scrolling.

Modules:
- `Base`: option type, the two locales, and decimal rendering.
- `JsText`: code units, whitespace and `trim`.
- `Contact`, `Planner`, `UrlPath` and `PostPage`.

Effects become parameters:
- the outcome of a POST (`SendResult`, `Response`);
- the fetched post list (`Option<seq<Post>>`, where `None` means the
  request or the JSON failed);
- the order the random shuffle produced (any permutation of the eligible
  posts);
- the headings' positions on screen.

The planner has one quirk, shown by `Planner.StaleSubmitLabel`. The Back
button stays active while the request is in flight. If the visitor goes
back and the request then fails, the Next button reads "Submit Request" on
a step that is not the last.

## Model

| member | source | states |
|---|---|---|
| Base.Decimal | en/contact.js:38 | the rendered length is a non-empty digit string without a leading zero |
| Base.DecimalRoundTrip | en/contact.js:37-38 | reading the rendered number back gives the number |
| Base.DecimalInjective | ar/posts/post-page.js:129 | distinct numbers render as distinct texts |
| JsText.IsWhitespace | ar/contact.js:13 | the code units `trim` strips and `\s` matches: the WhiteSpace and LineTerminator code points of ECMAScript, one definition for both |
| JsText.TrimStart | ar/contact.js:51 | the result is a suffix of the input, everything dropped is whitespace, and it does not start with whitespace |
| JsText.TrimEnd | ar/contact.js:51 | the result is a prefix of the input, everything dropped is whitespace, and it does not end with whitespace |
| JsText.Trim | ar/contact.js:51 | the trimmed text is no longer than the input and neither starts nor ends with whitespace |
| JsText.TrimIsTrimmedSlice | ar/contact.js:51 | `trim` yields the slice between the first and last non-whitespace units, with only whitespace outside it |
| JsText.TrimOfUnpadded | ar/contact.js:51 | a text with non-whitespace at both ends is its own trim |
| JsText.TrimEmptyIff | ar/contact.js:61 | the trimmed value is empty (falsy) exactly when the raw value is whitespace only |
| JsText.TrimUnique | ar/contact.js:51 | any non-empty slice with only whitespace around it and none at its ends is the trim |
| JsText.TrimIdempotent | en/contact.js:51 | trimming twice is trimming once |
| Contact.KindOf | ar/contact.js:12-32 | exactly the keys `name`, `email` and `message` have a pattern and messages |
| Contact.NamePattern | ar/contact.js:13 | 2 to 50 code units, each an ASCII letter, whitespace or, on the Arabic page, a unit of the Arabic block U+0600 to U+06FF |
| Contact.EmailPattern | ar/contact.js:14 | an '@' and a later '.' cut the text into three non-empty runs free of whitespace and '@' |
| Contact.MessagePattern | ar/contact.js:15 | 10 to 1000 code units of any kind, line terminators included |
| Contact.PatternAccepts | ar/contact.js:67 | `patterns[kind].test(value)`: the pattern of the field's kind applied to the trimmed value |
| Contact.EmailPatternIffRule | ar/contact.js:14 | the e-mail pattern accepts exactly the texts with one '@', no whitespace, a non-empty local part and a '.' that is neither first nor last in the domain |
| Contact.RunsGiveRule | ar/contact.js:14 | a text the pattern matches (three plain runs around '@' and '.') satisfies the plain-words rule |
| Contact.RuleGivesRuns | ar/contact.js:14 | a text satisfying the plain-words rule splits into the pattern's three plain runs |
| Contact.ShowError | ar/contact.js:77-81 | after showing an error the field has `error`, not `valid`, and shows the message |
| Contact.ValidateField | ar/contact.js:49-75 | with no error element the field is valid and untouched; otherwise it carries `error` iff the call fails and `valid` iff it passes, and a pass clears the error text |
| Contact.ValidateFieldVerdict | ar/contact.js:59-70 | a required whitespace-only field fails with its required message; otherwise a non-blank value passes iff there is no pattern for it or the trimmed value matches, and fails with its invalid message |
| Contact.UnknownFieldFallsBack | en/contact.js:59-66 | a field without a pattern fails only when required and blank, and then shows the generic required text |
| Contact.GenericInvalidNeverShown | ar/contact.js:67-68 | the generic invalid text can never be shown |
| Contact.NameFieldAcceptance | ar/contact.js:13 | a required name passes iff its trimmed value has 2 to 50 units, each a letter, whitespace or (Arabic page) an Arabic-block unit |
| Contact.KnownFieldAcceptance | ar/contact.js:61-70 | a required known field whose pattern rejects the empty text passes iff its trimmed value matches |
| Contact.EmailFieldAcceptance | ar/contact.js:14 | a required e-mail passes iff its trimmed value satisfies the plain-words e-mail rule |
| Contact.MessageFieldAcceptance | ar/contact.js:15 | a required message passes iff its trimmed value has 10 to 1000 code units, line terminators included |
| Contact.EnglishNameRejectsArabic | en/contact.js:13 | on the English page a name holding any Arabic-block unit fails |
| Contact.EnglishAcceptedIsArabicAccepted | en/contact.js:12-16 | what the English page accepts the Arabic page accepts, and the two agree on every field but the name |
| Contact.ArabicNameOnlyOnArabicPage | ar/contact.js:13 | an all-Arabic name of 2 to 50 units passes on the Arabic page and fails on the English one |
| Contact.OnInput | ar/contact.js:87-91 | typing re-validates only a field showing an error, so it never adds an error to a clean field |
| Contact.CounterFor | en/contact.js:36-44 | the counter reads the untrimmed length, ends with the "/1000" suffix, and is over the limit iff the length exceeds 1000 |
| Contact.ResetCounterAsWritten | en/contact.js:116-120 | after a delivered message the counter reads 0 but keeps its over-limit flag |
| Contact.OverLimitSurvivesReset | ar/contact.js:127-133 | a message over 1000 units that trims to at most 1000 passes, flags the counter, and leaves it flagged after the reset as written |
| Contact.OverLimitWitness | ar/contact.js:37 | 1000 letters and a trailing space are 1001 units long and trim to 1000 |
| Contact.ResetCounter | en/contact.js:119 | the corrected reset equals the counter of an empty message box: reading 0, not over the limit |
| Contact.ValidateAll | ar/contact.js:99-104 | every field is checked, also after a failure, and the result is true iff all checks passed |
| Contact.ResetField | ar/contact.js:127-133 | after the reset a field is empty and carries neither class |
| Contact.ResetFields | en/contact.js:118-120 | every field of the form is reset |
| Contact.SubmitWith | ar/contact.js:95-143 | for a given validator and counter reset: the form is posted iff every field passes; a delivered message resets the fields, applies the given reset to the counter and shows success; otherwise the checked fields and the counter stay and the right notice is shown |
| Contact.Submit | ar/contact.js:95-143 | the handler as written: posted iff every field validates with the page's own validator; after a delivered message the counter reads "0/1000" but keeps its over-limit flag; otherwise the counter is untouched |
| Contact.SubmitCorrected | en/contact.js:116-120 | the handler with the corrected reset: posted iff every field validates, and after a delivered message the counter equals that of an empty box, not over the limit |
| Planner.Init | en/start-project/project-planner.js:8 | the wizard starts on step 0 with Back hidden and no request |
| Planner.CompileSummary | en/start-project/project-planner.js:26-32 | the summary starts with the fixed header and ends with the details text verbatim |
| Planner.SummaryRoundTrip | en/start-project/project-planner.js:26-32 | the summary holds goal, package, budget and details in that order and can be read back when the first three are single lines |
| Planner.Next | en/start-project/project-planner.js:37-83 | judged on the radio states of the shown step at the click: a blocked step or a disabled button changes nothing; before the last step the step grows by one and Back shows, the label turns "Submit Request" on reaching the last step and is otherwise unchanged, and request, summary and form are untouched; on the last step the step, Back and form stay, the summary is compiled and the POST starts |
| Planner.Prev | en/start-project/project-planner.js:85-95 | at step 0 nothing changes; above it the step drops by one, the label is "Next", Back hides on reaching 0 and is otherwise unchanged, and request, summary and form are untouched |
| Planner.Settle | en/start-project/project-planner.js:67-81 | with no request pending nothing changes; step, Back and summary never change; an ok or opaque-redirect response hides the form and leaves the button as it was; any other outcome re-enables the button as "Submit Request" and keeps the form |
| Planner.Step | en/start-project/project-planner.js:37-95 | one click or reply keeps the step a valid index; Back moves it down by one unless on step 0, and a reply never moves it |
| Planner.StepKeepsInv | en/start-project/project-planner.js:37-95 | every click and reply keeps the wizard's invariant (step in range, Back shown iff step > 0, Next disabled iff a request is pending or done) |
| Planner.Run | en/start-project/project-planner.js:37-95 | any sequence of events from an invariant state ends in an invariant state |
| Planner.StepAlwaysInRange | en/start-project/project-planner.js:8-95 | from the loaded page, the step stays within the form's steps under any events, each click carrying whatever radio states the visitor left on the shown step |
| Planner.CheckingUnblocks | en/start-project/project-planner.js:38-48 | an idle wizard on a step with an unchecked radio group stays put, and moves on once an option is checked |
| Planner.StaleSubmitLabel | en/start-project/project-planner.js:51-93 | Back during a request that then fails leaves "Submit Request" on the first of two steps |
| Planner.FormStepFlags | en/start-project/project-planner.js:10-14 | one active flag per form step |
| Planner.ProgressFlags | en/start-project/project-planner.js:16-24 | one active flag per progress indicator |
| Planner.ExactlyOneActiveStep | en/start-project/project-planner.js:10-14 | exactly one form step is active, the current one |
| Planner.ProgressIsPrefix | en/start-project/project-planner.js:16-24 | the active indicators are exactly the first min(step + 1, n) and their count is that number |
| UrlPath.Split | ar/posts/post-page.js:183 | `split('/')` gives at least one part and no part holds a slash |
| UrlPath.JoinSplit | ar/posts/post-page.js:183 | joining the parts with slashes gives the path back |
| UrlPath.SplitJoin | ar/posts/post-page.js:183 | splitting slash-free parts joined by slashes gives the parts back |
| UrlPath.NonEmpty | ar/posts/post-page.js:183 | `filter(Boolean)` yields no more parts than it is given, none of them empty |
| UrlPath.NonEmptyCounts | ar/posts/post-page.js:183 | every non-empty part is kept exactly as often as it occurs, and the empty text never |
| UrlPath.NonEmptySlashFree | ar/posts/post-page.js:183 | filtering slash-free parts leaves slash-free parts |
| UrlPath.NonEmptyAppend | ar/posts/post-page.js:183 | filtering keeps the order: the kept parts of a concatenation are the kept parts of each side in turn |
| UrlPath.NonEmptyLast | ar/posts/post-page.js:183 | the last kept part is a part after which only empty parts follow |
| UrlPath.Segments | ar/posts/post-page.js:183 | the segments are non-empty and slash-free, and each non-empty text between slashes is a segment exactly as often as it occurs |
| UrlPath.LastSegment | ar/posts/post-page.js:183-184 | the last segment is the last non-empty text between slashes |
| UrlPath.SegmentsOfJoin | ar/posts/post-page.js:183 | extra, leading and trailing slashes add no segment |
| PostPage.RouteOf | ar/posts/post-page.js:183-193 | a post is named iff there is a segment and `posts` occurs before the last one; the id is the last segment and non-empty |
| PostPage.RouteIdIsLastPart | ar/posts/post-page.js:183-184 | a post id read from the path is its last non-empty text between slashes |
| PostPage.SwitchHref | ar/posts/post-page.js:186-188 | for a path naming a post, the link is `/`, the other edition's code, `/posts/`, the id and `/`; the other edition's code differs from this one's |
| PostPage.PostPathSegments | ar/posts/post-page.js:187 | the switcher's link has the segments locale, `posts`, id |
| PostPage.SwitchKeepsPost | ar/posts/post-page.js:187 | the language-switch link names the same post as the current path |
| PostPage.FindIndex | ar/posts/post-page.js:201 | the index of the first post with the id, or none when no post has it |
| PostPage.Load | ar/posts/post-page.js:190-213 | a bad path, a failed load and an unknown id each give their own error; otherwise the first post with the id is shown |
| PostPage.BadPathReadsAsNotFound | ar/posts/post-page.js:190-212 | a bad path and an unknown id show the same message under different titles |
| PostPage.BylineOf | ar/posts/post-page.js:37-41 | the byline credits the author iff the author has a non-empty name, with the LinkedIn field as the template prints it ("undefined" if missing, "null" if null), and the owner otherwise |
| PostPage.BylineNeverBlank | ar/posts/post-page.js:37-41 | the byline always shows a non-empty name |
| PostPage.AuthorBox | ar/posts/post-page.js:64-87 | a box is rendered iff the author has a non-empty avatar, with the avatar under the site root and the name as the template prints it |
| PostPage.BoxWithoutNamedByline | ar/posts/post-page.js:37-78 | an author with an avatar and a missing, null or empty name gets a box while the byline credits the owner, and the box prints "undefined", "null" or nothing as the name |
| PostPage.Eligible | ar/posts/post-page.js:91 | every candidate is eligible, and every eligible post is a candidate exactly as often as the list holds it |
| PostPage.EligibleAppend | ar/posts/post-page.js:91 | filtering keeps the list's order: the candidates of two lists in turn are the candidates of each in turn |
| PostPage.SelectRelated | ar/posts/post-page.js:89-98 | the section is hidden iff no post is eligible; otherwise it shows min(3, eligible) eligible posts drawn from the list |
| PostPage.RelatedDistinct | ar/posts/post-page.js:92-93 | distinct posts give distinct cards |
| PostPage.BuildToc | ar/posts/post-page.js:120-136 | no table for fewer than two headings, otherwise one entry per heading |
| PostPage.TocEntries | ar/posts/post-page.js:128-133 | entry i links to `#heading-i`, its id reads back as i, and it keeps the heading's text and level |
| PostPage.TocIdsDistinct | ar/posts/post-page.js:129-132 | distinct headings get distinct ids and links |
| PostPage.LastAbove | ar/posts/post-page.js:164-170 | the last heading whose top is above 150, with every later one at or below it |
| PostPage.ActiveHeadingId | ar/posts/post-page.js:164-170 | the loop ends with the id of the last heading above 150, or the empty text |
| PostPage.MarkActive | ar/posts/post-page.js:172-177 | one flag per table-of-contents link |
| PostPage.AtMostOneMarked | ar/posts/post-page.js:172-177 | among distinct links at most one is marked active |
| PostPage.TocMarksActiveEntry | ar/posts/post-page.js:172-177 | the active heading's entry is the only one marked, and none is marked when no heading is above the threshold |
| PostPage.HighlightFollowsScroll | ar/posts/post-page.js:128-177 | when the measured headings are the ones the table was built from, the marked entry is exactly that of the last heading above 150, and none is marked when no heading is above it |

## Left out

- Network access: `fetch`, the JSON file and the form POSTs are represented by their outcome only.
- The DOM: markup templates, `innerHTML`, `alert`, `scrollIntoView`, `document.title` and the share and copy buttons are not modelled. `setLoadingState` is left out as well.
- Timers: the 5-second hiding of the contact status and the 2-second copy-icon reset are not modelled.
- The scroll-progress percentage is floating-point division that can divide by zero, so it is not modelled.
- The shuffle's distribution is not modelled. `Math.random` with a comparator fixes no order, so any permutation is allowed.
- Contact.ResetField: assumes every control's default value is empty, since `form.reset()` restores the markup's defaults.
- Contact.SubmitWith: assumes the counter element is present, although the English page guards its reset with `if(characterCount)`. The transient "sending" notice is not modelled, since it is overwritten before the handler ends.
- Contact.KindOf: names such as `constructor`, which JavaScript would also find on the prototype of `patterns`, are treated as unknown fields.
- Planner.Init: assumes the page's markup starts with the Next button reading "Next" and the Back button hidden; the script does not set them.
- Planner.Next: a click on the disabled Next button is not delivered by the browser, so it is modelled as no change. A form with no steps is not modelled.
- Planner.Next: the radio states and the answers a click carries are two independent snapshots of the same form. The model does not tie a checked radio to the answer the summary reports.
- PostPage.Load: assumes the post ids in the JSON are strings, since `find` and `filter` compare with `===` against a string taken from the URL.
- Author fields: a field holding a number, boolean or object is not modelled. Only a missing field, `null` and a string are.
- Posts: only the fields the page's logic reads are modelled (id, title, date, author). Tags, image, content and link only feed markup.

## Findings

| source | as written | input that shows it | evidently intended | confidence | as-written member | corrected member |
|---|---|---|---|---|---|---|
| ar/contact.js:127-133 | after a delivered message the counter text becomes "0/1000" but the `over-limit` class is not removed | a message of 1000 letters followed by one space: 1001 units flag the counter, the trimmed 1000 pass validation | the counter after the reset looks like the counter of an empty box, without `over-limit` | medium, not executed | Contact.ResetCounterAsWritten, Contact.OverLimitSurvivesReset, Contact.Submit | Contact.ResetCounter, Contact.SubmitCorrected |
