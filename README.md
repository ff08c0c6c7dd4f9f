# SmartAdvisors course-data core, modelled in Dafny

SmartAdvisors helps a student plan courses. Three pieces of its logic are modelled
here:

- **Catalog scraper** (`server/app/scripts/scraping.py`). It reads one department's
  course-description page from the UTA catalog. It keeps the course titles up to the
  first graduate course, numbered above 5000. It collects every number above 1000 in
  each description as `"<department> <number>"`. It builds one stored row per course.
  It also builds the page address. The model takes the texts of the page's title
  blocks and description blocks as input. The department is a parameter.
- **Transcript parser** (`server/app/scripts/parse_transcript.py`). It reads the text
  of each page of an unofficial transcript. It gathers test-credit transfers
  (`Transferred to Term ... as CODE`) and lines that start with a course code
  (`[A-Z]{3,4}\s\d{4}`). It returns the codes sorted and without repeats. A file that
  cannot be read gives the empty list.
- **Onboarding wizard** (`client/src/components/OnboardingScreen.tsx`). This is a
  three-step screen: preferred days, learning preferences, transcript upload. It has
  Next and Back buttons, a toggle on the preferred days, one setter per preference
  and a check that an upload is a PDF.

Files:

- `wrappers.dfy`: `Option`.
- `text.dfy` (module `Text`): the Python string operations the two scripts use.
  These are maximal character runs (`re.findall(r'\d+')`, `str.split()`),
  `str.split(sep)` with its inverse `sep.join`, `str.strip`, `int()` of a digit
  string, `str.lower` and Python's ordering of strings.
- `scraping.dfy` (module `Scraping`), `transcript.dfy` (module `Transcript`) and
  `onboarding.dfy` (module `Onboarding`): one module per source file.

`find_data` and `extract_all_courses` update lists and sets in loops, so they are
methods with loop invariants. `find_data`'s two loops are the methods `ScanTitles`
(proved against the predicate `StopsAt`) and `CollectDescriptions` (proved against
the function `Requisites`). `FindData` is proved against the predicate `Segments`,
and `ExtractAllCourses` against the function `Collected`. The wizard's state is the class `Onboarding.Wizard`. Its
methods keep `Valid()`: the step stays in 1..3 and no day is chosen twice. The
updater expressions (`Toggled`, `CanProceed`) are pure functions.

## What the code does not do

The model follows the code, which is narrower than a full course-data pipeline:

- There is no prerequisite/corequisite keyword classifier and no resolution of other
  departments' courses, only a TODO (scraping.py lines 50-56). Line 38 collects every
  number above 1000 in a description as a requisite of the current department.
- A title block without a number is not skipped: `re.findall(...)[0]` raises. The model
  returns `NoCourseNumber(i)` for the first such block the scan reaches. Blocks after
  the graduate boundary are never looked at.
- Credit-hour annotations are not stripped from the course name: the code keeps the
  first two `.`-separated fields as they are.
- Titles without a description are not dropped: the descriptions are cut to the number
  of titles, `insert_courses` then indexes past the shorter list and fails, so nothing
  is committed (`Rows` gives `None`).

## Model

| member | source | states |
|---|---|---|
| `Text.RunLength` | server/app/scripts/scraping.py:21 | the result is the length of the longest prefix whose characters all satisfy the predicate: all before it satisfy, the next one does not |
| `Text.Runs` | server/app/scripts/scraping.py:38 | `re.findall(r'\d+')` and `str.split()` as maximal runs of one character class, left to right; its contract is carried by `RunsShape`, `RunsOfRun`, `RunsSeparated` and `RunsFirstTwo` |
| `Text.RunsShape` | server/app/scripts/scraping.py:38 | every run, as `re.findall(r'\d+')` or `split()` returns it, is non-empty and made only of matching characters; there are no runs exactly when no character matches |
| `Text.RunsOfRun` | server/app/scripts/scraping.py:21 | a non-empty string of matching characters is one single run |
| `Text.RunsSeparated` | server/app/scripts/scraping.py:38 | runs are maximal: a non-matching character splits the runs into those before it and those after it |
| `Text.RunsFirstTwo` | server/app/scripts/parse_transcript.py:44 | a run, one character outside the class and a second run: `split()` gives exactly those two runs first, the second one maximal |
| `Text.Value` | server/app/scripts/scraping.py:21 | `int()` of a decimal digit string, leading zeros allowed; its contract is carried by `ValueBound` and `AboveThousandHasFourDigits` |
| `Text.ValueLeadingZero` | server/app/scripts/scraping.py:38 | `int()` ignores a leading zero: `0` followed by a digit string is worth the same as the string |
| `Text.ValueBound` | server/app/scripts/scraping.py:38 | `int()` of an n-digit string is below 10^n |
| `Text.AboveThousandHasFourDigits` | server/app/scripts/scraping.py:38 | a digit run worth more than 999 has at least four digits |
| `Text.Split` | server/app/scripts/scraping.py:20 | `str.split(sep)` gives at least one field, and no field contains the separator |
| `Text.Join` | server/app/scripts/scraping.py:20 | `sep.join(fields)`, the inverse of `str.split(sep)`; its contract is carried by `JoinSplit` and `SplitJoin` |
| `Text.JoinSplit` | server/app/scripts/scraping.py:20 | joining the fields of a split with the separator gives back the string |
| `Text.SplitJoin` | server/app/scripts/parse_transcript.py:40 | splitting a join of separator-free fields gives back the fields |
| `Text.SplitLeadingFields` | server/app/scripts/scraping.py:20 | the first field is the text before the first separator; the second is the text between the first and second separator; there is one field exactly when there is no separator |
| `Text.StripBounds` | server/app/scripts/parse_transcript.py:42 | `strip()` removes only whitespace, from both ends, and stops at the first and last non-space character |
| `Text.Strip` | server/app/scripts/parse_transcript.py:44 | a stripped string is empty or starts and ends with a non-space character |
| `Text.LowerChar` | server/app/scripts/scraping.py:104 | a capital letter becomes its small letter; any other character is unchanged |
| `Text.Lower` | server/app/scripts/scraping.py:104 | `lower()` keeps the length and lower-cases each character in place |
| `Text.Less` | server/app/scripts/parse_transcript.py:57 | Python's `<` on `str`: code point by code point, a proper prefix first; its contract (a strict total order) is carried by `LessIrreflexive`, `LessTransitive` and `LessTotal` |
| `Text.LessIrreflexive` | server/app/scripts/parse_transcript.py:57 | no string sorts before itself |
| `Text.LessTransitive` | server/app/scripts/parse_transcript.py:57 | Python's string order is transitive |
| `Text.LessTotal` | server/app/scripts/parse_transcript.py:57 | of two different strings, one sorts before the other |
| `Scraping.CourseNumber` | server/app/scripts/scraping.py:21 | a title block has no course number exactly when no digit comes before its first `.` |
| `Scraping.TitleFields` | server/app/scripts/scraping.py:27 | a stored title keeps one or two fields of the block |
| `Scraping.KeptTitleFields` | server/app/scripts/scraping.py:20-27 | the stored code is the text before the first `.`; the stored name, present exactly when the block has a `.`, is the text between the first and second `.` |
| `Scraping.ScanTitles` | server/app/scripts/scraping.py:17-23 | the scan keeps each block split at `.`, in order. Every kept block has a number of at most 5000. It ends at the last block or at the first block numbered above 5000. A reached block without a number stops it with an error at that index, after only kept blocks |
| `Scraping.CollectDescriptions` | server/app/scripts/scraping.py:32-39 | the first min(count, #descriptions) descriptions are kept verbatim, and entry i of the requisite lists is the requisite list of description i |
| `Scraping.FindData` | server/app/scripts/scraping.py:5-41 | kept titles are the first two fields of a prefix of the title blocks. Every kept block has a number of at most 5000. The scan ends at the last block or at the first block numbered above 5000, and nothing after that is kept. A reached block without a number is an error at its index. Descriptions are cut to min(#descriptions, #titles) and kept verbatim. `reqs[i]` is the requisite list of description i |
| `Scraping.RequisitesOf` | server/app/scripts/scraping.py:38 | the comprehension over the digit runs of a description: `department + " " + j` for each run j worth more than 1000, in order; its contract is carried by `RequisitesOfAppend`, `RequisitesMembership` and `NoLargeNumberNoRequisite` |
| `Scraping.Requisites` | server/app/scripts/scraping.py:38 | the requisite list of one description; its contract is carried by `RequisitesMembership` (through `RequisitesOf`) and `RequisitesSeparated` |
| `Scraping.RequisitesOfAppend` | server/app/scripts/scraping.py:38 | requisites are collected run by run in order, duplicates kept: the list for two groups of runs is the two lists concatenated |
| `Scraping.RequisitesMembership` | server/app/scripts/scraping.py:38 | an entry is a requisite exactly when it is the department, a space and a digit run of the description worth more than 1000; each such entry carries at least four digits |
| `Scraping.RequisitesSeparated` | server/app/scripts/scraping.py:38 | a non-digit character in a description splits its requisite list into those before and those after it |
| `Scraping.NoLargeNumberNoRequisite` | server/app/scripts/scraping.py:38 | a description whose numbers are all at most 1000 has no requisite |
| `Scraping.ListRepr` | server/app/scripts/scraping.py:94 | `str()` of a list is bracketed, and is `[]` exactly for the empty list |
| `Scraping.Rows` | server/app/scripts/scraping.py:90-97 | rows can be built exactly when every title has a name field and there are at least as many requisite lists and descriptions as titles; then there is one row per title |
| `Scraping.RowsOfSegments` | server/app/scripts/scraping.py:90-96 | for a scraped page, the rows can be built exactly when every kept block has a `.` and there are at least as many description blocks as kept titles. Row i then holds block i's code and name fields, the repr of its requisites and its description unchanged |
| `Scraping.CatalogUrl` | server/app/scripts/scraping.py:102-105 | the address is the catalog base followed by the department code, each letter lower-cased |
| `Scraping.CatalogUrlIgnoresCase` | server/app/scripts/scraping.py:104 | a department code and its lower-case form give the same address |
| `Transcript.LetterCount` | server/app/scripts/parse_transcript.py:15 | a code matched at the start has three or four capitals |
| `Transcript.CodeMatch` | server/app/scripts/parse_transcript.py:19 | the text a match covers is exactly one code |
| `Transcript.CodeLineWords` | server/app/scripts/parse_transcript.py:44-45 | on a line that starts with a code, `split()` gives the capitals first, then the whole whitespace-free word that begins with the four digits |
| `Transcript.LineCourse` | server/app/scripts/parse_transcript.py:41-46 | a line gives a code exactly when, stripped, it starts with 3-4 capitals, one whitespace character and 4 digits. The code is those capitals, one space and the whole word from the first digit up to the next whitespace (so `CSE 1310-001` stays whole), and it matches the pattern itself |
| `Transcript.AsCodeAt` | server/app/scripts/parse_transcript.py:19 | the result is where the code starts exactly when ` as`, one or more whitespace characters and a code follow the position; there is at most one such place, and when there is none the result is `None` |
| `Transcript.AsCodeUnique` | server/app/scripts/parse_transcript.py:19 | `\s+` after ` as` covers the whole whitespace run: a code can start only right after it |
| `Transcript.LazyScan` | server/app/scripts/parse_transcript.py:19 | the lazy `.*?` stops at the first position where ` as\s+CODE` begins, crossing no newline on the way; `None` means no position before the next newline (or the end) has one |
| `Transcript.CreditAt` | server/app/scripts/parse_transcript.py:19 | a match needs `Transferred to Term ` at the start; its capture is one code and the match is not empty |
| `Transcript.TestCredits` | server/app/scripts/parse_transcript.py:35 | every captured test credit is a code |
| `Transcript.NoMarkerNoCredits` | server/app/scripts/parse_transcript.py:35-37 | text that never says `Transferred to Term ` gives no test credit |
| `Transcript.EmptyPageAddsNothing` | server/app/scripts/parse_transcript.py:31-32 | a page with empty text adds no code |
| `Transcript.UnionOf` | server/app/scripts/parse_transcript.py:22-46 | the set that `add` calls build over the pages (and over the lines of a page), item by item; its contract is carried by `UnionStep`, `UnionMembership`, `UnionIgnoresOrder` and `UnionGrows` |
| `Transcript.PageCourses` | server/app/scripts/parse_transcript.py:31-46 | what one page adds: its test credits and the code of each of its course lines, nothing for a page without text; its contract is carried by `AddPageCourses`, `EmptyPageAddsNothing` and `UnionMembership` |
| `Transcript.Collected` | server/app/scripts/parse_transcript.py:28-46 | the union of what the pages add; its contract is carried by `CollectedMembership`, `CollectedIgnoresOrder` and `ExtractAllCourses` |
| `Transcript.UnionStep` | server/app/scripts/parse_transcript.py:28 | one more page (or line) adds its codes to what the earlier ones gave |
| `Transcript.UnionMembership` | server/app/scripts/parse_transcript.py:28-46 | a code is in the union exactly when some page (or line) contributes it |
| `Transcript.UnionIgnoresOrder` | server/app/scripts/parse_transcript.py:22 | the union depends only on which pages (or lines) occur, not on their order or repeats |
| `Transcript.CollectedMembership` | server/app/scripts/parse_transcript.py:28-46 | a code is collected exactly when some page adds it |
| `Transcript.CollectedIgnoresOrder` | server/app/scripts/parse_transcript.py:22 | the collected codes depend only on which pages occur, not on their order or repeats |
| `Transcript.UnionGrows` | server/app/scripts/parse_transcript.py:37 | reading more pages (or lines) never loses a code: the set only grows |
| `Transcript.Insert` | server/app/scripts/parse_transcript.py:57 | inserting into an ascending list keeps it ascending and without repeats, and adds exactly that element |
| `Transcript.SortedList` | server/app/scripts/parse_transcript.py:57 | `sorted(list(set))` is strictly ascending and holds exactly the set's elements, once each |
| `Transcript.AddPageCourses` | server/app/scripts/parse_transcript.py:35-46 | one page's pass adds exactly the page's test credits and course-line codes to the set |
| `Transcript.ProcessPage` | server/app/scripts/parse_transcript.py:29-46 | a page without text adds nothing; a page whose extraction raises stops the parse |
| `Transcript.ExtractAllCourses` | server/app/scripts/parse_transcript.py:6-58 | the result is strictly ascending and holds exactly the union of the pages' codes; a file that cannot be opened, or a page that fails, gives the empty list |
| `Onboarding.Without` | client/src/components/OnboardingScreen.tsx:35 | filtering removes the day and keeps every other day |
| `Onboarding.WithoutAppend` | client/src/components/OnboardingScreen.tsx:35 | filtering keeps order: it distributes over concatenation |
| `Onboarding.WithoutAbsent` | client/src/components/OnboardingScreen.tsx:35 | filtering out an absent day changes nothing |
| `Onboarding.WithoutNoDuplicates` | client/src/components/OnboardingScreen.tsx:35 | filtering keeps a list free of repeats |
| `Onboarding.Toggled` | client/src/components/OnboardingScreen.tsx:34-36 | after a toggle the day is present exactly when it was absent before; other days are untouched; an absent day is appended at the end |
| `Onboarding.ToggleTwiceRestores` | client/src/components/OnboardingScreen.tsx:34-36 | toggling an absent day twice gives back the original list |
| `Onboarding.TogglePresent` | client/src/components/OnboardingScreen.tsx:34-35 | toggling a present day removes every occurrence and keeps the other days in order |
| `Onboarding.ToggleNoDuplicates` | client/src/components/OnboardingScreen.tsx:31-37 | toggling keeps the preferred days free of repeats |
| `Onboarding.CanProceed` | client/src/components/OnboardingScreen.tsx:82-87 | Next is enabled at step 1 exactly when a day is chosen. At step 2 it is enabled exactly when all three preferences are set, at step 3 exactly when a transcript is set, and never at any other step |
| `Onboarding.AcceptsFile` | client/src/components/OnboardingScreen.tsx:55-59 | only a present file of type `application/pdf` is accepted |
| `Onboarding.Wizard.constructor` | client/src/components/OnboardingScreen.tsx:18-25 | the wizard starts at step 1 with empty preferences and no transcript |
| `Onboarding.Wizard.ToggleDay` | client/src/components/OnboardingScreen.tsx:31-38 | only the preferred days change, by the toggle; step and transcript are unchanged |
| `Onboarding.Wizard.SetAssessmentType` | client/src/components/OnboardingScreen.tsx:179 | only assessmentType changes |
| `Onboarding.Wizard.SetAttendanceRequired` | client/src/components/OnboardingScreen.tsx:200 | only attendanceRequired changes |
| `Onboarding.Wizard.SetClassSize` | client/src/components/OnboardingScreen.tsx:222 | only classSize changes |
| `Onboarding.Wizard.HandleFileUpload` | client/src/components/OnboardingScreen.tsx:53-61 | a missing or non-PDF file is rejected and leaves the transcript as it was; a PDF becomes the transcript |
| `Onboarding.Wizard.RemoveTranscript` | client/src/components/OnboardingScreen.tsx:277 | Remove clears the transcript only |
| `Onboarding.Wizard.HandleNext` | client/src/components/OnboardingScreen.tsx:74-80 | before step 3 the step goes up by one; at step 3 it stays, and the current preferences are handed to onComplete; the step stays in 1..3 |
| `Onboarding.Wizard.PressNext` | client/src/components/OnboardingScreen.tsx:307-309 | a disabled Next changes nothing. An enabled Next before step 3 advances one step; an enabled Next at step 3 stays there and hands the current preferences to onComplete. Completion happens only that way |
| `Onboarding.Wizard.PressBack` | client/src/components/OnboardingScreen.tsx:299-301 | Back lowers the step by one and is offered only after step 1, so the step stays in 1..3 |

## Left out

- HTML parsing of the catalog page. The title and description block texts are inputs,
  in page order.
- The HTTP fetch of the catalog page and its status check. Only the address is
  modelled.
- The SQLite table creation, inserts and commit in `insert_courses`, its console
  prints, and the exit when the table already exists. A second row with the same course number would violate the
  table's primary key; that is not modelled.
- The module-level driver and the global `department`. The department is a parameter.
- Reading the PDF with pdfplumber, and the console messages. A transcript is a value
  of type `Pdf`: either "cannot be opened", or one `PageText` per page.
- The upload request after a PDF is accepted, the `classes` state it fills, alerts,
  console logging, all rendering, `AuthScreen.tsx`, `App.tsx`, `server/run.py`,
  `server/app/config.py` and `server/app/scripts/algorithm.py`.
- Character classes are ASCII. `\d` and `int()` use `0`-`9`. `\s`, `strip()` and
  `split()` use space, tab, newline, carriage return, vertical tab and form feed.
  `lower()` maps `A`-`Z`. Python also treats the separators `\x1c`-`\x1f` and other
  Unicode whitespace as whitespace, accepts other Unicode digits and lower-cases
  non-ASCII letters; the model does not.
- Scraping.ListRepr: always quotes with `'` and escapes nothing. Python's `repr`
  switches quotes or escapes for strings that contain quotes, backslashes or
  unprintable characters.
- Regular expressions in general: only the three patterns the two scripts use are
  modelled, as explicit scans: `\d+` (`Text.Runs`), `^[A-Z]{3,4}\s\d{4}`
  (`StartsWithCode`) and the test-credit pattern (`CreditAt`/`LazyScan`).
