# ResumeTailor core, modelled in Dafny

ResumeTailor takes a résumé and a job description and produces a tailored
résumé. Most of the application is UI, Firebase I/O, Gemini prompts and PDF
rendering. This project models the pure, sequential logic underneath and
proves what it promises:

- **Response post-processing** (`src/lib/ai-service.ts`), module `AiService`:
  - extracting the JSON object from a model reply (first `{` to last `}`);
  - discovering the original section list (`sections || []`);
  - the section-fidelity filter, which keeps only listed, truthy sections and
    then demands a named `personalInfo`;
  - the `parseInt`-and-clamp ATS score;
  - the fixed skill reordering of `applyTailoringSuggestions`.
- **Résumé enhancement helpers and upload checks** (`src/lib/pdf-utils.ts`),
  module `PdfUtils`:
  - the clean-up tail of `extractJobKeywords`;
  - `enhanceSkillsWithJobRequirements`;
  - `enhanceProjectDescription`;
  - `validatePdfFile`;
  - `generateResumeFilename`.
- **The line-based text extractor** (`src/lib/pdf-server.ts`), module
  `PdfServer`:
  - the header state machine of `extractSections`;
  - `processSectionContent`;
  - the experience, education, project and certification parsers;
  - keyword skill detection.
- **The change summary** of the analyse route
  (`src/app/api/ai/analyze/route.ts`), module `AnalyzeRoute`.

Shared modules:

- `Wrappers`: `Option` and `Result`.
- `Seqs`: filtering, de-duplication and subsequences.
- `Strings`: ASCII case mapping, `includes`, `trim`, `join`.
- `Numerals`: `String(n)` and the digit arithmetic of `parseInt`.
- `Json`: JSON values, with objects as an ordered key list plus a map.
- `Resume`: the data shapes of `src/types/index.ts`.
- `Blocks`: the "a start line opens a group, the following lines join it"
  grouping that the extractor and three parsers share.

Regular expressions are modelled as concrete predicates over strings with the
same meaning. Examples: a `\d{4}` run, a case-insensitive header word, a
trailing extension. The Gemini replies, `JSON.parse` and `Date.now()` are
inputs: a reply string, a `parse` function parameter and a `timestamp`
parameter.

Two decisions follow the code rather than its documentation:

- **Filename arguments.** `generateResumeFilename` follows its declared
  signature `(originalName, userId)`. The upload route passes the arguments
  swapped (`src/app/api/resume/upload/route.ts:43`). That call site is not
  modelled.
- **The project bullet.** `parseProjectEntries` compares against the
  three-character string `â€¢`. That is the UTF-8 encoding of `•` read as
  Windows-1252. `extractSections` runs the parser as written; the corrected
  reading is modelled alongside it; see Findings.

## Model

| member | source | states |
|---|---|---|
| AiService.ExtractJson | src/lib/ai-service.ts:83-86 | There is no match exactly when no `{` has a `}` after it. Otherwise the match is the span from the first `{` to the last `}`. |
| AiService.SectionList | src/lib/ai-service.ts:89 | A falsy or missing `sections` becomes `[]`. A truthy non-array is the value whose `forEach` throws (at line 236). An array yields every element, in order, converted with `String` to the property key it denotes. |
| AiService.KeepSections | src/lib/ai-service.ts:233-243 | After the listed sections are visited, a key is kept iff it is listed and its candidate value is truthy. Kept values are the candidate's, unchanged. |
| AiService.KeepSectionsOrder | src/lib/ai-service.ts:236-238 | Kept keys are listed sections and appear in the order of their first listing. |
| AiService.ValidateSections | src/lib/ai-service.ts:233-256 | Succeeds iff `personalInfo` is listed, present, an object and has a truthy `name`. Otherwise it fails with the missing-name error. The result holds only listed sections whose candidate value is truthy, copied unchanged and in listing order. |
| AiService.KeepSectionsIgnoresUnlisted | src/lib/ai-service.ts:246-250 | An unlisted candidate key never changes the kept object. |
| AiService.ExtraSectionIgnored | src/lib/ai-service.ts:246-250 | Adding or changing an unlisted candidate key does not change the validation outcome. |
| AiService.MissingSectionTolerated | src/lib/ai-service.ts:240-242 | A listed section missing from the candidate (other than `personalInfo`) is dropped and is never an error. |
| AiService.ParseStructure | src/lib/ai-service.ts:83-88 | A structure reply without a braced span fails with "could not extract resume structure". A span that `JSON.parse` rejects, or that is not an object, fails with the parse error. A parsed object is returned. |
| AiService.ParseCandidate | src/lib/ai-service.ts:210-226 | A tailored reply without a braced span fails with "no valid JSON found". A span that `JSON.parse` rejects, or that is not an object, fails with "JSON parsing failed". A parsed object yields its fields. |
| AiService.ParseAndTailor | src/lib/ai-service.ts:83-256 | Errors come in source order: the structure reply's, then the tailored reply's, then the `forEach` throw of a non-array `sections`. With both replies parsed and a section list, the result is the validation of the candidate against that list. Success needs both braced spans and gives a named `personalInfo` and only listed sections. |
| AiService.NonArraySectionsReportedLast | src/lib/ai-service.ts:210-236 | A `sections` value that `forEach` cannot walk fails only after the tailored reply: its extraction or parse error wins, otherwise the `forEach` throw is reported. |
| AiService.NoTailoredJsonBeforeSections | src/lib/ai-service.ts:210-236 | Structure `{"sections": "x"}` with a tailored reply `no json here` fails with "no valid JSON found", not the `forEach` error. |
| AiService.NoSectionsAlwaysFails | src/lib/ai-service.ts:89-256 | A structure object without a truthy `sections` makes the whole operation fail. |
| AiService.ParseInt | src/lib/ai-service.ts:344 | `parseInt` gives NaN exactly when, after leading white space, a sign and a `0x` prefix, no digit of the selected radix follows. |
| AiService.AtsScore | src/lib/ai-service.ts:339-349 | The score is always in 0..100. A thrown call or an unparsable reply gives 0. A parsed number is clamped into range. |
| AiService.ParseIntOfDecimal | src/lib/ai-service.ts:344 | Decimal digits followed by a non-alphanumeric character read back as their number. |
| AiService.AtsScoreOfNumber | src/lib/ai-service.ts:342-345 | A reply starting with the number n scores n when n ≤ 100 and 100 otherwise. |
| AiService.ParseIntNegated | src/lib/ai-service.ts:344 | A leading `-` before a number negates the value it reads as. |
| AiService.ParseIntOfHex | src/lib/ai-service.ts:344 | A `0x` prefix followed by hexadecimal digits, then a non-hexadecimal character or nothing, reads as the radix-16 value of those digits. |
| AiService.ParseIntHexExample | src/lib/ai-service.ts:344 | `parseInt("0x50")` is 80. |
| AiService.WithoutPriority | src/lib/ai-service.ts:306 | The `filter` keeps exactly the technical skills outside the four priority skills, in original order and with their original number of copies. |
| AiService.ApplyTailoringSuggestions | src/lib/ai-service.ts:300-309 | Fails iff `skills.technical` is not an array. On success: `technical` is the four priority skills, then the other original skills in original order with their original number of copies; other skill categories and other top-level fields are unchanged; `summary` gets the fixed sentence appended. |
| AiService.WithoutPriorityIdempotent | src/lib/ai-service.ts:306 | Filtering out the priority skills twice equals filtering once. |
| AiService.PrioritySkillsRemoved | src/lib/ai-service.ts:306 | The filter removes all four priority skills. |
| AiService.ReorderingIsIdempotent | src/lib/ai-service.ts:300-309 | Applying the suggestions to an already tailored résumé leaves `technical` unchanged. |
| PdfUtils.RemoveSpecialChars | src/lib/pdf-utils.ts:51 | Only word characters, white space, `.` and `-` remain, and every such character of the input is kept. |
| PdfUtils.RemoveSpecialCharsKeepsOrder | src/lib/pdf-utils.ts:51 | The kept characters appear in input order and with their input multiplicity; every other character is gone. |
| PdfUtils.TitleCaseBounds | src/lib/pdf-utils.ts:54 | Title-casing a trimmed keyword keeps it non-empty, never lengthens it, keeps a length of at least 3 and cannot make it all digits. |
| PdfUtils.Yield | src/lib/pdf-utils.ts:51-54 | A candidate that survives clean-up has length 3..49 and is not all digits. |
| PdfUtils.Survivors | src/lib/pdf-utils.ts:50-54 | The surviving keywords are exactly the cleaned, title-cased forms of candidates that pass both filters. |
| PdfUtils.SurvivorsConcat | src/lib/pdf-utils.ts:50-54 | The map and filter chain works candidate by candidate: survivors of a concatenation are the concatenated survivors, and one candidate yields its cleaned form or nothing. |
| PdfUtils.CleanKeywords | src/lib/pdf-utils.ts:50-57 | The result has at most 15 items, no duplicates, each of length 3..49 and none all digits. Each comes from some candidate. When fewer than 15 are returned, every surviving candidate is among them. |
| PdfUtils.CleanKeywordsFirstSeen | src/lib/pdf-utils.ts:55-57 | The kept keywords are in order of first appearance among the survivors, and any survivor first seen before a kept keyword is kept too: they are the first distinct survivors. |
| PdfUtils.ExtractJobKeywords | src/lib/pdf-utils.ts:5-57 | A blank job description gives `[]`. Otherwise there are at most 15 distinct keywords, each of length 3..49, not all digits and produced by some candidate; fewer than 15 means every surviving candidate is there. |
| PdfUtils.IndexedObject | src/lib/pdf-utils.ts:67 | Spreading an array yields a valid object whose keys are "0", "1", … in index order, each holding the element at that index. |
| PdfUtils.Spread | src/lib/pdf-utils.ts:67 | Spreading an object copies it. Spreading any other truthy value yields a valid object. |
| PdfUtils.LowerSkills | src/lib/pdf-utils.ts:79-85 | Collecting one category fails exactly when it is an array holding a non-string, whose `toLowerCase` is not a function. |
| PdfUtils.ExistingSkills | src/lib/pdf-utils.ts:78-86 | The `reduce` over the categories succeeds iff every category's collection does. |
| PdfUtils.ExistingSkillsMembership | src/lib/pdf-utils.ts:78-86 | An existing skill is the lower-cased form of a string category or of a string inside an array category. |
| PdfUtils.NewKeywords | src/lib/pdf-utils.ts:89-93 | A keyword is new iff no existing skill contains it or is contained in it, ignoring case. New keywords keep their order, and there are none iff all are related. |
| PdfUtils.TargetIndex | src/lib/pdf-utils.ts:100-109 | Finds the first category whose lower-cased name contains skill, technical, tool, software or relevant. |
| PdfUtils.TargetCategory | src/lib/pdf-utils.ts:97-110 | The target is the first fitting category, or `job_relevant` when none fits. |
| PdfUtils.ExtendCategory | src/lib/pdf-utils.ts:113-122 | The target becomes an array: the old items of an array, the old value alone for a truthy non-array, nothing for a falsy value, followed by the new keywords. |
| PdfUtils.EnhanceSkills | src/lib/pdf-utils.ts:61-131 | Falsy skills give `{relevant: keywords}`, or `{}` without keywords. No keywords gives a copy. A non-string array item is an error. No category is removed and only the target (or `skills` for `{}`) changes. The target ends with the new keywords. With no new keywords the copy is returned. |
| PdfUtils.AllRelatedIsNoop | src/lib/pdf-utils.ts:89-95 | When every keyword is related to an existing skill, the result equals the input. |
| PdfUtils.EnhanceIsIdempotent | src/lib/pdf-utils.ts:61-131 | For string or string-array categories, enhancing a second time with the same keywords changes nothing. |
| PdfUtils.StripFinalPeriod | src/lib/pdf-utils.ts:150 | One final `.` is removed and nothing else changes. |
| PdfUtils.MissingKeywordsMembership | src/lib/pdf-utils.ts:140-142 | A keyword is missing iff the description does not contain it, ignoring case. |
| PdfUtils.MissingKeywordsEmpty | src/lib/pdf-utils.ts:140-144 | Nothing is missing iff every keyword is mentioned. |
| PdfUtils.AddedKeywords | src/lib/pdf-utils.ts:140-142 | Exactly min(2, number missing) keywords are added: the first missing ones, in order. None are added iff none are missing. |
| PdfUtils.AddedIsMissing | src/lib/pdf-utils.ts:140-142 | Every added keyword is a listed keyword the description does not mention. |
| PdfUtils.EnhanceProjectDescription | src/lib/pdf-utils.ts:134-154 | The description is returned unchanged iff it is empty or mentions every keyword. Otherwise the result is the description minus one final period, then ` utilizing `, the added keywords joined by ` and `, and a `.`. |
| PdfUtils.AddedKeywordsMentioned | src/lib/pdf-utils.ts:144-150 | Every keyword added is mentioned by the enhanced description. |
| PdfUtils.MentionedNeverAdded | src/lib/pdf-utils.ts:140-142 | A keyword the description already mentions is never appended. |
| PdfUtils.ValidatePdfFile | src/lib/pdf-utils.ts:696-715 | Valid iff the type is `application/pdf` and the size is at most 10×1024×1024, and valid iff there is no error. A wrong type reports the type message even when the file is too large. |
| PdfUtils.SizeLimitBoundary | src/lib/pdf-utils.ts:697-712 | Exactly 10 MiB is accepted, and one byte more is rejected with the size message. |
| PdfUtils.SanitizeName | src/lib/pdf-utils.ts:729 | The length is kept. Every character in `[A-Za-z0-9.-]` is kept in place, and every other character becomes `_`. |
| PdfUtils.SanitizeFixedPoints | src/lib/pdf-utils.ts:729 | Sanitising changes nothing iff the name is already safe, so it is idempotent. |
| PdfUtils.StripExtension | src/lib/pdf-utils.ts:730 | The result is a prefix of the name. If anything is removed, it is a dot followed by a non-empty tail without dots or slashes. If nothing is removed, the name has no such tail. |
| PdfUtils.StemIsSafe | src/lib/pdf-utils.ts:729-730 | The stem of a stored name holds only `[A-Za-z0-9._-]`. |
| PdfUtils.GenerateResumeFilename | src/lib/pdf-utils.ts:727-733 | The name is exactly `<stem>_<userId>_<timestamp>.pdf`: it starts with `<stem>_<userId>_`, ends with `_<userId>_<timestamp>.pdf` where the timestamp is written in decimal, and has the length of those parts. |
| PdfUtils.TimestampRoundTrip | src/lib/pdf-utils.ts:732 | The timestamp is read back, from the digits between the last `_` and `.pdf`, as the value it was generated with. |
| PdfUtils.SafePdfNameKeepsBase | src/lib/pdf-utils.ts:729-732 | An already safe `<base>.pdf` keeps `<base>` as its stem. |
| PdfServer.HeaderKindFirstMatch | src/lib/pdf-server.ts:108-130 | A header is shorter than 50 characters and its section is the first in table order whose pattern matches. A line is no header iff it is too long or no pattern matches. |
| PdfServer.NonBlank | src/lib/pdf-server.ts:121-141 | A line contributes its trimmed text iff that text is non-empty. |
| PdfServer.ParseExperienceEntries | src/lib/pdf-server.ts:233-263 | Every entry has the placeholder title and company, and no technologies. |
| PdfServer.ExperiencePerTrigger | src/lib/pdf-server.ts:239-252 | There is one entry per trigger line, in order, and its duration is that line trimmed. |
| PdfServer.ExperiencePreambleDropped | src/lib/pdf-server.ts:253 | Lines before the first trigger line are dropped. |
| PdfServer.ExperienceDescription | src/lib/pdf-server.ts:239-260 | An entry's description is the non-blank lines, trimmed, up to the next trigger line. |
| PdfServer.FirstDigitRun | src/lib/pdf-server.ts:272 | The result is the leftmost four-digit run of the line at or after the start, and there is none iff the line has no such run. |
| PdfServer.FirstYear | src/lib/pdf-server.ts:272 | The year is four digits, absent iff no line has a four-digit run, and otherwise taken from the first line that has one. |
| PdfServer.LineOr | src/lib/pdf-server.ts:270-271 | The line is used if present and non-empty, and the default otherwise. |
| PdfServer.ParseEducationEntries | src/lib/pdf-server.ts:268-274 | There is exactly one entry. Degree and institution come from lines 0 and 1 or the defaults. The year is four digits, defaulting to 2020 when no line has one. |
| PdfServer.EducationYear | src/lib/pdf-server.ts:272 | The year is the leftmost four-digit run of the first line that has one. |
| PdfServer.ParseCertificationEntries | src/lib/pdf-server.ts:314-323 | There is one entry per non-blank line, with the trimmed name, the fixed issuer and empty dates. |
| PdfServer.CertificationNames | src/lib/pdf-server.ts:315-318 | A certification name is exactly a trimmed non-blank line of the section. |
| PdfServer.ProjectsWith | src/lib/pdf-server.ts:279-309 | Every project has no technologies and no achievements. |
| PdfServer.AdjacentStartsAreSeparate | src/lib/pdf-server.ts:284-294 | Two consecutive start lines give two projects, the first with an empty description. |
| PdfServer.ExampleLinesStartProjects | src/lib/pdf-server.ts:284 | Under the comparison as written, `Portfolio site` and `• Built with React` are both start lines. |
| PdfServer.BulletStartsProjectAsWritten | src/lib/pdf-server.ts:284 | As written, a `•` line under a project becomes a project of its own. |
| PdfServer.BulletLinesJoinProject | src/lib/pdf-server.ts:283-301 | With the corrected bullet, `-` and `•` lines after a project head join its description with single spaces. |
| PdfServer.ContinuationLinesJoinProject | src/lib/pdf-server.ts:283-301 | For any bullet, a start line and the continuation lines after it, up to the next start line, form one project named by the start line trimmed, whose description is the non-blank continuation lines trimmed and joined with single spaces. |
| PdfServer.ProjectPerStartLine | src/lib/pdf-server.ts:283-309 | For any bullet, so also for the parser as written, lines before the first start line are dropped and there is one project per start line, named by that line trimmed. |
| PdfServer.ApplySection | src/lib/pdf-server.ts:154-186 | A section's content changes only the field of its own kind, which becomes: the lines joined by newlines and trimmed for the summary, and the experience, education, project (as written) or certification parse of the content. Skills and personal info are never touched. |
| PdfServer.ProjectsSectionSplitsBullets | src/lib/pdf-server.ts:174-177 | A projects section `Portfolio site`, `• Built with React` gives two projects, the second named `• Built with React`, because the section runs the parser as written. |
| PdfServer.LaterSectionOverwrites | src/lib/pdf-server.ts:157-185 | A later section of the same kind replaces the earlier one, and a skills section changes nothing. |
| PdfServer.HeaderStep | src/lib/pdf-server.ts:132-139 | A header hands the open section's content over and opens an empty section of its kind. |
| PdfServer.BodyStep | src/lib/pdf-server.ts:140-142 | Any other line, trimmed, joins the open section's content when non-blank. |
| PdfServer.ScanSections | src/lib/pdf-server.ts:117-148 | The loop computes the block-by-block reference definition, for any header classifier. |
| PdfServer.ExtractSections | src/lib/pdf-server.ts:107-149 | `extractSections` computes the block-by-block reference definition. |
| PdfServer.SectionsPreambleDiscarded | src/lib/pdf-server.ts:140-142 | Lines before the first recognised header are discarded. |
| PdfServer.SectionContent | src/lib/pdf-server.ts:132-147 | A header's content is exactly the following non-header lines up to the next header, trimmed and without blanks. |
| PdfServer.EmptySectionUntouched | src/lib/pdf-server.ts:134-147 | A header with no content lines leaves the résumé untouched. |
| PdfServer.SkillsSectionIgnored | src/lib/pdf-server.ts:157-185 | Content under a skills header never changes the résumé. |
| PdfServer.FoundSkills | src/lib/pdf-server.ts:214-216 | A keyword is found iff its lower-case form occurs in the lower-cased text. Found keywords keep list order. |
| PdfServer.ExtractSkills | src/lib/pdf-server.ts:191-228 | Each of the technical, database, tool and framework lists is the ordered sublist of its keywords occurring in the text. Soft skills, languages and everything else are unchanged. |
| AnalyzeRoute.DescribeInjective | src/app/api/ai/analyze/route.ts:177-216 | Different changes give different records, because entry numbers are rendered injectively. |
| AnalyzeRoute.SlotsMembership | src/app/api/ai/analyze/route.ts:196-216 | The comparison inspects the summary, the skills and the entry pairs below both lengths. |
| AnalyzeRoute.SlotsOrdered | src/app/api/ai/analyze/route.ts:177-216 | Changes are inspected as summary, skills, experiences by index, then projects by index. |
| AnalyzeRoute.ReportedMembership | src/app/api/ai/analyze/route.ts:174-219 | A change is reported iff it is inspected and the compared fields differ. |
| AnalyzeRoute.ReportedSubsequence | src/app/api/ai/analyze/route.ts:174-219 | Reported changes keep the inspection order. |
| AnalyzeRoute.ChangesAppend | src/app/api/ai/analyze/route.ts:174-219 | Inspecting one more change appends its record iff its fields differ, and changes nothing else. |
| AnalyzeRoute.DescribeAllMembership | src/app/api/ai/analyze/route.ts:177-216 | A change's record is among the records of a list of changes iff the change is in the list. |
| AnalyzeRoute.SummaryStep | src/app/api/ai/analyze/route.ts:178-184 | The first record is the summary change, present iff the summaries differ. |
| AnalyzeRoute.SkillsStep | src/app/api/ai/analyze/route.ts:187-193 | The skills change follows it, present iff the technical lists differ. |
| AnalyzeRoute.ExperienceStep | src/app/api/ai/analyze/route.ts:196-204 | Each experience index adds its record iff the descriptions differ. |
| AnalyzeRoute.ProjectStep | src/app/api/ai/analyze/route.ts:207-216 | Each project index adds its record iff the description or the achievements differ. |
| AnalyzeRoute.ChangeReportedIff | src/app/api/ai/analyze/route.ts:174-219 | A change is reported iff the résumés differ where it looks. |
| AnalyzeRoute.OnlySlotRecords | src/app/api/ai/analyze/route.ts:174-219 | Every record describes a real difference. |
| AnalyzeRoute.ChangesOrdered | src/app/api/ai/analyze/route.ts:174-219 | Records come out in the order summary, skills, experiences by index, projects by index. |
| AnalyzeRoute.ChangesSummaryProperties | src/app/api/ai/analyze/route.ts:174-219 | There is a summary record iff the summaries differ, and a skills record iff the technical lists differ. There is an experience record for i iff i is below both lengths and the descriptions differ. There is a project record for i iff i is below both lengths and the description or achievements differ. |
| AnalyzeRoute.ChangesSummaryBounds | src/app/api/ai/analyze/route.ts:174-219 | The total is at most 2 + both minimum lengths. Identical résumés give `[]`. |
| AnalyzeRoute.GenerateChangesSummary | src/app/api/ai/analyze/route.ts:174-219 | The two loops compute the reference definition: the described inspected changes whose fields differ. |

## Left out

- Gemini calls, prompts and `bufferToBase64`: the replies are inputs. A call that throws is an absent reply in `AtsScore`.
- `JSON.parse` is not part of this model; it is a function parameter. Since the extracted text starts with `{`, a successful parse is an object.
- Floating point: JSON numbers are integers, and `formatFileSize` is not part of this model, because it uses `Math.log` and `toFixed`.
- Unicode: case mapping is ASCII only. White space is the JavaScript `\s` set, including U+00A0, U+2028 and U+FEFF. Strings are sequences of characters, not UTF-16 units.
- JavaScript property order: integer-like keys are not moved ahead of other keys. Prototype properties (`toString`, `constructor`) are not modelled.
- PdfUtils.ExtractJobKeywords: the regular-expression scan of the description (lines 11-47) is not modelled; the raw matches are a parameter.
- PdfUtils.EnhanceSkills: the spread copy is shallow, so `push` also changes the caller's array. The model works on values and does not show that aliasing.
- PdfUtils.EnhanceIsIdempotent: stated only for skills objects whose categories are strings or string arrays. Other values are read by `toLowerCase` only in those two shapes.
- PdfServer.HeaderKindFirstMatch: header patterns are word lists. The alternatives `professional experience`, `work experience` and `technical skills` are subsumed by `experience` and `skills`.
- `extractPersonalInfo`, `extractResumeDataFromText` and the PDF text extraction around `extractSections` are not part of this model: they are regular-expression scraping and library I/O.
- AnalyzeRoute.GenerateChangesSummary: résumés are typed, so `experience`, `projects` and `skills.technical` are always present. The route reads them unguarded (src/app/api/ai/analyze/route.ts:187, 196, 207), and a stored résumé lacking one makes it throw; the section filter of `parseAndTailorResume` (src/lib/ai-service.ts:233-243) allows such a résumé. That error is not modelled.
- The upload, parse and PDF-generation routes, Firebase, React pages and middleware are not modelled: I/O, UI and configuration.

## Findings

| source | as written | input that shows it | evidently intended | confidence | as-written member | corrected member |
|---|---|---|---|---|---|---|
| src/lib/pdf-server.ts:284 | `line.startsWith('â€¢')`, the UTF-8 bytes of `•` read as Windows-1252 | `["Portfolio site", "• Built with React"]` gives two projects, the second named `• Built with React` | `line.startsWith('•')`, so that bullet lines join the project description | not executed | PdfServer.BulletStartsProjectAsWritten | PdfServer.BulletLinesJoinProject |
