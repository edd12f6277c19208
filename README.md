# Job Search Chatbot, modelled in Dafny

The system is a small job-search chatbot.

- A browser page (`script.js`) lets the user type a question or fill in a filter form (location, company, role, skills).
- A Flask backend (`chatbot.py`) answers questions through an LLM agent. It also filters a CSV table of job postings.
- The page shows the answers in a message area. Filter results are shown as an HTML table.

This project models the deterministic logic under the DOM and HTTP glue and proves what it promises.

- **`wrappers.dfy`** (`Wrappers`): `Option`.
- **`text.dfy`** (`Text`): ASCII lower-casing, substring search, and JavaScript `trim` and Python `strip`.
  - The whitespace classes are those of ECMAScript and of `str.isspace`.
  - Python `str.split` on one character and its inverse `join`.
  - The decimal rendering of numbers.
  - The code-point order Python sorts strings by.
- **`html.dfy`** (`Html`): `escapeHtml` and `formatMessage`.
  - `escapeHtml` is the text-node serialisation of section 13.3 of the HTML Living Standard: `&`, `<`, `>` and U+00A0 become entities.
  - `formatMessage` escapes, then applies the lazy single-line `**x**` rewrite, then the multiline `^[•-]\s` rewrite.
- **`results_table.dfy`** (`ResultsTable`): the string `displayFilterResults` builds. It is built by a looped method proved equal to a specification function.
- **`chat.dfy`** (`Chat`): the page's state as a class `ChatApp` with the handler methods.
  - The state is `isLoading`, `isConnected`, `activeFilters`, the form fields, the input box, the disabled controls, the message area, and the requests and alerts issued.
  - Each `async` handler is split at its `await`. The part up to the request is one method and the part after the response is another. A third method composes them for a reply that arrives at once.
- **`backend.dfy`** (`Backend`): `filter_data` as a looped method proved equal to a relational specification, and the empty-query check of `query`.
  - Column detection: the first candidate column present under a lower-cased name.
  - Sequential narrowing, the skills any-match, and truncation to 50 after counting.
- **`data_info.dfy`** (`DataInfo`): the `filter_options` that `get_data_info` computes. Each category holds the sorted, distinct, non-null values of its first candidate column. It is a looped method proved equal to a function.
- **`protocol.dfy`** (`Protocol`): what the page sends meets what the endpoints accept.

Behaviour of the code that the model keeps as written:

- `isConnected` is only ever assigned `false` (script.js:8, 32). `ChatApp.Valid` keeps it false, so a failed query always shows the "Unable to connect" text. The generic error text of script.js:402 is never reached.
- `applyFilters` sets `isLoading` without checking it first (script.js:124). `BeginApplyFilters` therefore runs whatever the flag is. `removeFilter` calls it again while a request may still be out.
- Header cells are the first record's keys, not escaped (script.js:255). Filter tag values are shown unescaped too (script.js:190).
- An assistant reply that contains `<table>` anywhere is inserted raw (script.js:309). `Chat.AssistantTableRaw` exhibits a reply that smuggles in an `<img` tag this way.
- The candidate lists of `get_data_info` differ from those of `filter_data`.
  - `get_data_info` also tries `loc`, `org`, `job`, `job_role` and `YOUR_COLUMN_NAME` (chatbot.py:93, 101, 109).
  - So a `loc` column fills the location drop-down but is never filtered on (`DataInfo.LocOfferedButIgnored`).
- `columns_lower` maps each lower-cased name to the last column with that name (chatbot.py:147).
  - The mixed-case placeholder `YOUR_COLUMN_NAME` can never be found there.
- A blank skill token (an empty piece, or a trailing comma) is a substring of every value. Such a skills filter keeps every row whose skills cell is not null.

## Model

| member | source | states |
|---|---|---|
| Text.LowerChar | chatbot.py:155 | lower-casing maps exactly the ASCII capitals 32 code points down and keeps every other character |
| Text.Lower | chatbot.py:179 | lower-casing keeps the length and lower-cases each character in place |
| Text.LowerIdempotent | chatbot.py:179 | lower-casing twice is lower-casing once |
| Text.Contains | chatbot.py:186 | defines substring search: Python's `in` on strings, `str.contains` with a literal needle (chatbot.py:155) and `includes` (script.js:309); its meaning is given by `Text.ContainsAt`, `Text.ContainsExtendRight`, `Text.ContainsExtendLeft` and `Text.NotContainsWithout` |
| Text.ContainsAt | chatbot.py:155 | a block found at some position of the text is contained in it |
| Text.ContainsExtendRight | chatbot.py:186 | containment survives appending text on the right |
| Text.ContainsExtendLeft | chatbot.py:186 | containment survives prepending text on the left |
| Text.NotContainsWithout | script.js:309 | a needle starting with a character the text lacks is not contained in it |
| Text.ContainsBlock | chatbot.py:179 | a block of a text that lacks a character lacks it too |
| Text.LeadingSpacesMeaning | script.js:359 | the counted prefix is all whitespace and the next character is not |
| Text.TrailingSpacesMeaning | script.js:359 | the counted suffix is all whitespace and the character before it is not |
| Text.Trim | script.js:359 | defines trimming as dropping the leading and the trailing run of `space` characters; `Text.TrimMeaning` and `Text.TrimBlock` state what it keeps |
| Text.TrimMeaning | script.js:359 | the trimmed text is a block of the input; it is empty exactly when the input is all whitespace; otherwise it neither starts nor ends with whitespace |
| Text.TrimBlock | script.js:359 | trimming removes only whitespace: the result is the block that follows the leading whitespace, and everything before and after that block is whitespace |
| Text.LowerSlice | chatbot.py:179 | lower-casing commutes with taking a block |
| Text.LowerBlock | chatbot.py:179 | the lower-cased text contains the lower-cased form of each of its blocks |
| Text.JsTrim | script.js:359 | defines `String.prototype.trim` as trimming ECMAScript white space and line terminators; its properties are those of `Text.TrimMeaning` |
| Text.PyStrip | chatbot.py:179 | defines `str.strip()` as trimming the characters `str.isspace` accepts; its properties are those of `Text.TrimMeaning` |
| Text.Split | chatbot.py:179 | at least one piece, no piece holds the separator, at least two pieces when the separator occurs, an empty last piece after a trailing separator |
| Text.JoinSplit | chatbot.py:179 | joining the pieces with the separator gives the text back |
| Text.NatToString | script.js:240 | a non-empty string of decimal digits without a leading zero |
| Text.NatToStringRoundTrip | script.js:240 | the digits of a number give the number back |
| Text.IntToString | script.js:240 | the rendering starts with a minus sign exactly for negative numbers |
| Text.LexLess | chatbot.py:97 | defines the string order `sorted` uses: code point by code point, a proper prefix first; the four lemmas below prove it a strict total order |
| Text.LexLessIrreflexive | chatbot.py:97 | no string sorts before itself |
| Text.LexLessTransitive | chatbot.py:97 | the sort order is transitive |
| Text.LexLessTotal | chatbot.py:97 | of two different strings one sorts before the other |
| Text.LexLessAsymmetric | chatbot.py:97 | two strings never sort before each other |
| Html.EscapeChar | script.js:427-431 | each character becomes itself or an entity spelled from `&;ampltgnbs` |
| Html.EscapeHtml | script.js:427-431 | the escaped text holds no `<`, `>` or no-break space; every character is from the input or from an entity; it is no shorter |
| Html.UnescapeChar | script.js:427-431 | decoding undoes the escape of one character followed by any text |
| Html.Unescape | script.js:427-431 | defines the decoding of the four entities, the inverse that `Html.UnescapeEscape` pairs with the escape |
| Html.UnescapeEscape | script.js:427-431 | decoding the escaped text gives the text back |
| Html.EscapeHtmlInjective | script.js:427-431 | two texts that escape alike are equal |
| Html.OnlyTagsConcat | script.js:433-443 | joining two strings whose every `<` opens an allowed tag keeps that property |
| Html.TagAlone | script.js:438 | an allowed tag with one `<` opens only allowed tags |
| Html.FormatTagsAlone | script.js:438-441 | `<strong>`, `</strong>`, `<br>` and the bullet replacement `<br>• ` open only those tags |
| Html.FormatTagsNoMark | script.js:441 | none of the inserted tags holds a `•` or `-`, so the bullet pattern never matches inside one |
| Html.CloseBold | script.js:438 | the lazy group ends at the first `**` with no line terminator before it; there is none only when every later `**` has a line terminator before it |
| Html.Bold | script.js:438 | defines the global lazy `**x**` rewrite into `<strong>x</strong>`, closing where `Html.CloseBold` says |
| Html.BoldOnlyTags | script.js:438 | the bold rewrite of a text without `<` opens only `<strong>` and `</strong>` |
| Html.BulletsFrom | script.js:441 | defines the multiline `^[•-]\s` rewrite into `<br>• ` from a position on |
| Html.Bullets | script.js:441 | defines the bullet rewrite of a whole text |
| Html.FormatMessage | script.js:433-443 | defines `formatMessage` as escape, then bold, then bullets; `Html.FormatMessageOnlyTags` and `Html.FormatMessagePlain` state its properties |
| Html.BulletsPassThrough | script.js:441 | text without bullet marks passes through the bullet rewrite unchanged |
| Html.BulletsKeepTag | script.js:441 | the bullet rewrite copies an inserted tag unchanged |
| Html.BulletsOnlyTags | script.js:441 | the bullet rewrite keeps every `<` an opening of `<strong>`, `</strong>` or `<br>` |
| Html.FormatMessageOnlyTags | script.js:433-443 | for every text, each `<` in the output opens one of the inserted tags `<strong>`, `</strong>`, `<br>` (escape first) |
| Html.BoldWithoutStars | script.js:438 | a text without `*` is left unchanged by the bold rewrite |
| Html.FormatMessagePlain | script.js:433-443 | a text without `*`, `-` or `•` is only escaped |
| ResultsTable.Keys | script.js:250 | one column per property of the record |
| ResultsTable.Get | script.js:262 | defines `row[key]` as the value stored under `key`, or `undefined`; `ResultsTable.GetMeaning` states it |
| ResultsTable.Truthy | script.js:262 | defines JavaScript truthiness of a JSON value, the test `||` makes; `ResultsTable.CellText` states its effect on a cell |
| ResultsTable.GetMeaning | script.js:262 | `row[key]` is the stored value, and missing exactly when the record has no such key |
| ResultsTable.CellText | script.js:262 | a cell is empty exactly when the value is missing or falsy |
| ResultsTable.Headline | script.js:240 | defines the first line of a non-empty answer; `ResultsTable.HeadlinePlural` states its wording |
| ResultsTable.HeaderCells | script.js:254-256 | defines one `<th>` cell per key, unescaped |
| ResultsTable.DataCell | script.js:262 | defines one `<td>` cell holding the escaped text of the value |
| ResultsTable.DataCells | script.js:261-263 | defines the cells of one row, one per key in order; `ResultsTable.DataCellsOnlyTags` and `ResultsTable.DataCellsTrCount` state its properties |
| ResultsTable.RowHtml | script.js:260-264 | defines one row as `<tr>`, its cells and `</tr>`; `ResultsTable.AppendRow` computes it and `ResultsTable.RowsTrCount` counts it |
| ResultsTable.RowsHtml | script.js:259-265 | defines one row per result, in order; `ResultsTable.RowsTrCount` counts them |
| ResultsTable.TableHtml | script.js:249-268 | defines the table: the opening, the header from the first record's keys, the body, the closing |
| ResultsTable.FilterResultsText | script.js:239-271 | defines the answer `displayFilterResults` shows; `ResultsTable.DisplayFilterResults` builds it by the source's loops |
| ResultsTable.AppendRow | script.js:259-265 | one pass of the row loop appends exactly one row: `<tr>`, an escaped cell per key, `</tr>` |
| ResultsTable.DisplayFilterResults | script.js:239-271 | the string built by the nested loops equals the specification: the fixed message for count 0, else the headline and a table when there are results |
| ResultsTable.NoResultsNoLess | script.js:243 | the no-results message carries no markup |
| ResultsTable.HeadlineNoLess | script.js:240 | the headline carries no markup |
| ResultsTable.NoResultsIffZero | script.js:242-246 | the answer is the no-results message exactly when the count is 0 |
| ResultsTable.TableWithResults | script.js:249-268 | a non-zero count with results gives a table |
| ResultsTable.TableExactlyWithResults | script.js:242-268 | the answer contains `<table>` exactly when the count is non-zero and there are results |
| ResultsTable.BodyTagsAlone | script.js:260-264 | `<tr>`, `</tr>`, `<td>` and `</td>` open only those tags |
| ResultsTable.DataCellsOnlyTags | script.js:261-263 | the cells of a row open no tag but `<td>` and `</td>`: values are escaped |
| ResultsTable.RowsOnlyTags | script.js:259-265 | the table body opens no tag but `<tr>`, `</tr>`, `<td>`, `</td>` |
| ResultsTable.TableHeaderAt | script.js:252-255 | within the table, the header cells come right after the opening `<div>`, `<table>`, `<thead>` and `<tr>` tags |
| ResultsTable.HeaderCellsAt | script.js:250-257 | the header cells are the first record's keys in order, right after the table and header openings |
| ResultsTable.HeaderNotEscaped | script.js:254-256 | a key is copied into its header cell without escaping |
| ResultsTable.TrCountConcat | script.js:259-265 | `<tr>` openings add up over a concatenation when the left part does not end inside a tag |
| ResultsTable.NoLessTrCount | script.js:262 | text without `<` opens no row |
| ResultsTable.DataCellTrCount | script.js:262 | a cell opens no row |
| ResultsTable.DataCellsTrCount | script.js:261-263 | the cells of a row open no row |
| ResultsTable.RowTagsTrCount | script.js:260-264 | the opening row tag counts as one row and the closing one as none |
| ResultsTable.RowsTrCount | script.js:259-265 | the table body holds exactly one `<tr>` per result |
| ResultsTable.HeadlinePlural | script.js:240 | the headline says "result" when the count is 1 and "results" otherwise |
| Chat.ClearField | script.js:214-216 | clearing a field empties that field and leaves the others unchanged |
| Chat.CollectFilters | script.js:90-100 | defines the criteria a form describes: each filled-in field under its name |
| Chat.CollectFiltersMeaning | script.js:90-100 | both directions: every filled-in field is present with its value, and every collected criterion is one of the four names holding the non-empty value of its field |
| Chat.CollectFiltersEmpty | script.js:98-103 | the collected criteria are empty exactly when all four fields are empty |
| Chat.RemoveEmptyFilters | script.js:90-100 | the delete loop leaves exactly the filled-in fields; the map is well formed; it is empty exactly when every field is empty |
| Chat.CollectClear | script.js:203-217 | clearing a field removes exactly that name from the collected criteria |
| Chat.FormatFilterLabel | script.js:228-236 | the four names get their capitalised labels; a label equals its key exactly for the other names |
| Chat.Tags | script.js:186-199 | defines the tags of the active filters, in form order, each a label and a value |
| Chat.TagStrip | script.js:176-200 | defines the filter strip as the tags of the four names |
| Chat.TagsMeaning | script.js:186-199 | every active filter has a tag showing its label and value, and every tag shows an active filter |
| Chat.TagsCount | script.js:186-199 | over distinct names, the number of tags is the number of active filters among those names |
| Chat.TagStripCount | script.js:186-199 | the strip holds exactly as many tags as there are active filters; with `TagsMeaning`, one tag per filter |
| Chat.TagStripEmpty | script.js:179-182 | the tag strip is empty exactly when there are no active filters |
| Chat.RemoveLoadingEntry | script.js:348-353 | nothing changes without a placeholder; otherwise exactly one placeholder goes |
| Chat.RemoveLoadingFirst | script.js:348-353 | the placeholder that goes is the first one: the entries before it stay in front and those after it follow |
| Chat.RemoveLoadingMultiset | script.js:348-353 | removing the placeholder takes away exactly one placeholder and nothing else |
| Chat.RemoveLoadingKeepsMessages | script.js:348-353 | removing the placeholder keeps every message in order |
| Chat.AssistantHtml | script.js:309 | defines an assistant message's content: raw when it contains `<table>`, through formatMessage otherwise |
| Chat.MessageHtml | script.js:274-321 | defines the content `addMessage` inserts for each role |
| Chat.MessageHtmlSafe | script.js:274-321 | user and system messages are escaped; an assistant message without `<table>` opens only the tags formatMessage inserts |
| Chat.AssistantTableRaw | script.js:309 | an assistant reply containing `<table>` is inserted raw, with any other markup in it |
| Chat.FilterResultsDisplay | script.js:270 | a results table is shown as built; an answer without a table goes through formatMessage |
| Chat.ChatApp.constructor | script.js:7-10 | the page starts idle, offline, with no filters, an empty message area and nothing sent |
| Chat.ChatApp.BeginApplyFilters | script.js:88-130 | with every field empty, only an alert appears; otherwise the active filters become the collected criteria, the flag is set, the controls are disabled, a placeholder appears and the request is sent; the flag is not checked |
| Chat.ChatApp.CompleteFilterRequest | script.js:142-161 | the placeholder goes and the results or the error text appear; the flag is reset and the controls are enabled on both paths |
| Chat.ChatApp.ApplyFilters | script.js:88-162 | the form, the input box and the connection flag never change; with every field empty only an alert appears and nothing else changes; otherwise the criteria are stored, one request is sent, no alert appears, the placeholder is replaced by the outcome's message, and the flag is reset afterwards |
| Chat.ChatApp.ClearFilters | script.js:165-173 | the four fields and the active filters are emptied; no request, no message, the flag unchanged |
| Chat.ChatApp.RemoveFilter | script.js:203-225 | the name's field is cleared; when nothing remains, the filters empty and no request is sent; otherwise the filters are re-applied from the form; when the form matched the filters, exactly that name is removed |
| Chat.ChatApp.BeginSend | script.js:356-373 | an all-whitespace input or a request in progress changes nothing; otherwise the trimmed text is shown and sent, the input is emptied, the flag is set and the controls are disabled |
| Chat.ChatApp.CompleteQuery | script.js:387-410 | the placeholder goes and the reply or the offline text appears; the flag is reset and the controls are enabled on both paths |
| Chat.ChatApp.HandleSend | script.js:356-411 | the filters, the form and the alerts never change; an all-whitespace input or a request in progress changes nothing; otherwise exactly one query is sent, the user's message and then the reply (or the offline text) appear, the input is emptied and the flag is reset |
| Backend.ColumnsLower | chatbot.py:147 | defines `columns_lower`: lower-cased name to column, the later column winning |
| Backend.ColumnsLowerFindsAll | chatbot.py:147 | every column's lower-cased name is a key of the map |
| Backend.ColumnsLowerSound | chatbot.py:147 | every key maps to a column of the table whose lower-cased name is that key |
| Backend.ColumnsLowerLastWins | chatbot.py:147 | a name maps to the last column that lower-cases to it |
| Backend.PlaceholderNeverMatches | chatbot.py:90-93 | `YOUR_COLUMN_NAME` is never a key of the lower-cased map |
| Backend.FirstCandidate | chatbot.py:152-156 | defines the column of the first candidate present |
| Backend.FirstCandidateMeaning | chatbot.py:151-156 | no column exactly when no candidate is present; otherwise the column of a present candidate with no present candidate before it |
| Backend.CandidateColumns | chatbot.py:151 | defines the candidate columns of each filter name: the lists at chatbot.py:151, 160, 169 and 178 (the constants `LocationColumns`, `CompanyColumns`, `RoleColumns`, `SkillsColumns`), and none for any other name; `Protocol.CollectedKeysRead` uses it |
| Backend.TextStep | chatbot.py:150-156 | defines the location step (and the company and role steps at chatbot.py:159-165 and 168-174): none unless the value is present and non-empty and a candidate column exists, else a case-insensitive text test on the first candidate; `Backend.CriterionForMeaning`, `Backend.InactiveKeyIgnored` and `Backend.MatchingMembership` state it |
| Backend.SkillsStep | chatbot.py:177-189 | defines the skills step on the same terms, testing for any of the skill tokens; `Backend.CriterionForMeaning` and `Backend.MatchingMembership` state it |
| Backend.CriterionFor | chatbot.py:150-189 | defines the step of any filter name, the skills step for `skills` and the text step otherwise |
| Backend.CriterionForMeaning | chatbot.py:150-189 | a name takes a step exactly when its value is present and non-empty and one of its candidate columns exists; the step then tests the first candidate present, for the value as a text or, for skills, for any of its tokens |
| Backend.ActiveCriteria | chatbot.py:149-189 | defines the steps a request takes, in order; `Backend.MatchingSelect` shows the narrowing is selection by them |
| Backend.ActiveCriteriaSteps | chatbot.py:149-189 | the steps are those of location, company, role and skills, in that order |
| Backend.FindColumn | chatbot.py:152-156 | the `for`/`break` scan finds the first candidate present |
| Backend.Holds | chatbot.py:155 | defines when a row meets a criterion: a non-null cell containing the needle ignoring case, or (for skills, chatbot.py:186) containing one of the tokens |
| Backend.Keep | chatbot.py:185-188 | defines the boolean mask: the rows that meet a criterion, in their order |
| Backend.SkillTokens | chatbot.py:179 | one token per comma-separated piece |
| Backend.TokenShape | chatbot.py:179 | a token taken from a comma-free piece holds no comma and no ASCII capital, and when non-empty neither starts nor ends with whitespace |
| Backend.TokenOrigin | chatbot.py:179 | a token is a block of its lower-cased piece |
| Backend.TokenBlank | chatbot.py:179 | a token is empty exactly when its piece is all whitespace |
| Backend.SkillTokensMeaning | chatbot.py:179 | token `i` comes from piece `i` of the comma split: it holds no comma and no ASCII capital, is a block of the lower-cased piece, has no surrounding whitespace, and is empty exactly when the piece is blank |
| Backend.Matching | chatbot.py:149-189 | defines the rows left after the location, company, role and skills steps, narrowed in that order |
| Backend.FilterSpec | chatbot.py:136-197 | defines the response: refused without filters, else the first 50 matches and the number of all matches |
| Backend.FilterData | chatbot.py:132-203 | the step-by-step narrowing, count and truncation equal the specification |
| Backend.SubseqPrefix | chatbot.py:196-197 | a prefix of a subsequence is a subsequence |
| Backend.SelectMembership | chatbot.py:150-189 | a row is selected exactly when it is in the table and meets every criterion |
| Backend.SelectSubseq | chatbot.py:144-192 | the selected rows keep the table's order |
| Backend.KeepSelect | chatbot.py:150-189 | one more narrowing step is one more criterion selected at once |
| Backend.MatchingSelect | chatbot.py:150-189 | the four sequential steps select exactly the rows meeting all active criteria |
| Backend.MatchingMembership | chatbot.py:150-189 | a row matches exactly when it is in the table and meets every active criterion |
| Backend.FilterResponseShape | chatbot.py:136-197 | no filters is refused; otherwise count is the number of matches, the results are the first min(count, 50) of them, and they keep table order |
| Backend.SelectNarrower | chatbot.py:150-189 | more criteria select a subsequence of fewer criteria |
| Backend.SelectSameCriteria | chatbot.py:150-189 | the same criteria in any arrangement select the same rows |
| Backend.MoreCriteriaNarrow | chatbot.py:150-189 | adding a filter never enlarges the result |
| Backend.InactiveKeyIgnored | chatbot.py:150-174 | a filter that is empty or has no candidate column does not narrow |
| Backend.NarrowCommute | chatbot.py:150-189 | two narrowing steps commute |
| Backend.KeepAllSelect | chatbot.py:150-189 | narrowing by a list of criteria selects by all of them |
| Backend.MatchingAnyOrder | chatbot.py:150-189 | applying the active criteria in any order gives the same rows |
| Backend.BlankSkillMatchesAll | chatbot.py:179-187 | a blank skill token keeps every row with a non-null skills cell |
| Backend.TrailingCommaMatchesAll | chatbot.py:179-187 | a skills filter ending in a comma keeps every row with a non-null skills cell |
| Backend.Query | chatbot.py:57-68 | a missing or empty query is refused; otherwise the answer is the agent's reply to it |
| DataInfo.ColumnValues | chatbot.py:97 | defines the non-null values of a column, in row order |
| DataInfo.ColumnValuesMeaning | chatbot.py:97 | the values listed are exactly the non-null cells of the column |
| DataInfo.StrictlySortedDistinct | chatbot.py:97 | a strictly sorted list has no duplicates |
| DataInfo.InsertSortedMeaning | chatbot.py:97 | inserting keeps the list strictly sorted and adds exactly the new value |
| DataInfo.SortedDistinct | chatbot.py:97 | defines the sorted distinct values by insertion into a strictly sorted list |
| DataInfo.SortedDistinctMeaning | chatbot.py:97 | the options are strictly sorted and hold exactly the values given |
| DataInfo.StrictlySortedUnique | chatbot.py:97 | two strictly sorted lists with the same elements are equal: sorted unique values are determined by the set of values |
| DataInfo.CategoryOptions | chatbot.py:94-98 | defines a category's options: the sorted distinct values of the first candidate column present, or none |
| DataInfo.CategoryOptionsMeaning | chatbot.py:93-98 | a category has options exactly when a candidate column is present; they are sorted, distinct, and exactly the non-null values of the first present candidate |
| DataInfo.ScanCategory | chatbot.py:94-98 | the `for`/`break` scan stores the options of the first candidate present, or nothing |
| DataInfo.GetFilterOptions | chatbot.py:87-114 | the three scans build exactly the specified options |
| DataInfo.AddOptionMeaning | chatbot.py:97 | storing a category's options adds that key only and changes no other |
| DataInfo.FilterOptions | chatbot.py:87-114 | defines `filter_options`: locations, companies and roles, each when its category has a column |
| DataInfo.FilterOptionsShape | chatbot.py:87-114 | only `locations`, `companies` and `roles` appear; each exactly when its category has a candidate column, holding that category's options |
| DataInfo.PlaceholderIrrelevant | chatbot.py:93 | the trailing placeholder candidate never changes which column is found |
| DataInfo.LocOfferedButIgnored | chatbot.py:93-98 | a table whose only location-like column is `loc` offers locations, yet the location filter never narrows it |
| Protocol.SentQueryAnswered | script.js:359-384 | a query the page sends is never refused by the query endpoint |
| Protocol.CollectedFiltersRefusedIffEmpty | chatbot.py:136-141 | the filter endpoint refuses the page's criteria exactly when every field was empty, the case the page alerts on instead |
| Protocol.CollectedKeysRead | script.js:90-95 | every name the page sends has candidate columns in the filter endpoint |

## Left out

- DOM and rendering effects are not modelled: focus, scrolling, `classList`, `setTimeout`, the welcome screen, and the SVG icon markup of `addMessage` and `addLoadingMessage`. The message area is a list of entries, with `Chat.MessageHtml` giving each entry's content markup.
- `fetch`, JSON parsing and HTTP status codes are not modelled. A request's end is an abstract outcome (`FilterOutcome`, `QueryOutcome`). A response body that makes code inside a `try` throw is not modelled: in `applyFilters`, one that makes `displayFilterResults` throw; in `handleSend`, a `response` field that is not a string, so `content.includes` (script.js:309) throws. In both cases the `catch` removes a second placeholder and adds the error text.
- `toggleFilterPanel`, `populateFilterDropdown`, `loadFilterOptions` and `scrollToBottom` are left out. They only touch the DOM. `handleKeyPress` is left out too: it calls `handleSend`, which is modelled.
- `checkBackendConnection` is network probing, and it refers to undeclared globals. The model keeps its `isConnected = false` as the invariant `!isConnected`.
- The note that the backend is offline is not modelled. The `catch` of `checkBackendConnection` adds it as a system message after 500 ms (script.js:38-40), so the transcript gains it at a time no modelled operation fixes.
- Flask routing, CORS, CSV loading, `health_check` and server start-up output are framework plumbing and are left out.
- `agent.run` and the LLM model set-up are a foreign call. The agent is the parameter `run` of `Backend.Query`.
- The 500 error paths of the three endpoints are not modelled: they catch exceptions of pandas and the agent.
- `total_count`, `rows`, `columns` and `sample` in the responses are not modelled. Only `results`, `count` and `filter_options` are.
- Pandas' `str.contains` is a regular-expression search. It is modelled as a substring search, which agrees on filter text without regular-expression metacharacters.
- Case-insensitivity is modelled as ASCII lower-casing. Unicode case mapping is not modelled.
- Cells are strings or null. Numeric or mixed-type columns, and Python's `sorted` on mixed types, are not modelled.
- JavaScript prototype keys are not modelled: `labels[key]` for a name such as `constructor` would find an inherited property. Neither are non-integer counts. Number cells are modelled as integers that print exactly: `String(n)` switches to exponent form from 10^21 on, and integers beyond 2^53 lose precision when the JSON is parsed, which the model does not capture.
- Interleavings of several outstanding requests are modelled only through the separate Begin and Complete methods. Which response arrives first is up to the caller of the model.
- Outstanding requests are counted in `pending`, not matched to their kind: `CompleteFilterRequest` and `CompleteQuery` require only `pending > 0`, so the model lets a filter response complete a request begun by `BeginSend`, and the other way round.
