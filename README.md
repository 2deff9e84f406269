# Karate tournament entry system: the entry rules

A school's teachers use this application to enter their athletes in a
high-school karate tournament, and an administrator manages the schools.
This project models the rules behind the screens of `app.py` and proves
properties of them:

- **Headcount validation.** For each sex, the entries are counted per
  category (individual kata, individual kumite, team kata, team kumite),
  with regulars (`正選手`) and substitutes (`補欠`) counted separately.
  Every count above the tournament's limit gives one error message.
- **The application sheet.** One guarded writer fills the header, the
  first four advisors and one row per athlete. It writes nothing for a
  missing value, shortens `<digits>年` to the digits, and sends a write
  inside a merged area to that area's top-left cell. Athletes fill blocks
  of 22 rows, the blocks 46 rows apart. Each sex has its own columns for
  the team marks (`○` or `補`) and the individual marks (`補`, `○<rank>`
  or `シ<rank>`). The date line uses the Reiwa era.
- **Settings loading.** Missing or malformed `limits` entries are filled
  in from the default limits. Values already stored are kept.
- **The entry form.** Each athlete's widgets start from the `last_*`
  columns of their roster row. Unknown stored types read as `一般`. Saving
  writes the form back into the roster only when validation reports
  nothing.
- **The advisor tab.** An advisor can be moved up, deleted or appended, and the profile saved.
  The first advisor in the list is the head advisor.
- **The administrator's account tab.** Renaming a school moves its
  account, its advisor profile and its roster rows to the new name.
  Deleting a school drops all three. The per-school counts of the summary
  report are modelled too.

Modules:

- `Wrappers`: `Option`.
- `Decimal`: integer rendering and parsing, and the digit test.
- `Entries`: sexes, categories, placements, roles, roster rows, entries and
  updates.
- `Validation`: the headcount validator.
- `Settings`: JSON settings and limit completion.
- `Layout`: rows, columns, marks and the era date.
- `Sheet`: the worksheet and its writer.
- `EntryForm`: the entry form and the save merge.
- `Advisors`: the advisor tab.
- `Admin`: the administrator's account tab.

Outside inputs are modelled as parameters:

- the stored JSON documents and roster;
- the template's cells and merged areas;
- today's date;
- what the user did with each widget.

## Model

| member | source | states |
|---|---|---|
| Validation.CountEntries | app.py:313-321 | The counter the loop builds holds, for every sex, category and slot, the number of entries the counting rule adds there (`Tallies`). |
| Validation.ValidateEntries | app.py:311-329 | The messages are exactly one per violation: `男子` before `女子`, categories in the order ind_kata, ind_kumite, team_kata, team_kumite, regulars before substitutes. Each message shows the sex, the category label, the slot, the count and the cap. |
| Validation.IndividualCountingRule | app.py:314-319 | A new entry adds one to its own sex's individual kata/kumite regular count iff that type is `一般` and one to the substitute count iff it is `補欠`; `シード` or no type counts nowhere. |
| Validation.TeamCountingRule | app.py:320-321 | A new entry adds one to its own sex's team kata/kumite count iff that team category is checked, as a substitute iff its role is `補欠` and as a regular otherwise. |
| Validation.OtherSexCountingRule | app.py:314-321 | A new entry leaves every count of the other sex unchanged. |
| Validation.ViolationMember | app.py:324-328 | A violation is reported iff its count exceeds its cap. |
| Validation.ViolationsEmptyIff | app.py:324-329 | No message iff every count is within its cap. |
| Validation.ViolationsOrdered | app.py:324-328 | The violations are strictly ordered by sex, then category, then regular before substitute. So each one appears once. |
| Validation.CountAppend | app.py:314-321 | Counting a concatenation adds the counts of its parts. |
| Validation.CountPermutation | app.py:314-321 | Counts do not depend on the order of the entries. |
| Validation.ViolationsPermutation | app.py:311-329 | Reordering the entries leaves the messages unchanged. |
| Validation.Messages | app.py:327-328 | One message per violation, in the same order. |
| Decimal.ShowInt | app.py:168 | The rendering of an integer is non-empty and starts with `-` iff the integer is negative. The rest is ASCII digits. |
| Decimal.ParseShowInt | app.py:326 | Parsing the rendering of an integer gives the integer back. |
| Decimal.ShowIntInjective | app.py:168 | Different integers render differently. |
| Decimal.ParseNat | app.py:326 | A string parses as a natural number iff it is a non-empty string of ASCII digits. |
| Decimal.ParseNatShape | app.py:326 | Every accepted string is some zeros followed by the rendering of its value, so `"007"` is worth 7, as `int()` gives. |
| Decimal.ParseZerosShowNat | app.py:326 | Any number of zeros followed by the rendering of `n` parses as `n`. |
| Entries.DecodePlacement | app.py:515-516 | A stored type among `一般`, `シード`, `補欠` reads as itself; anything else reads as `一般`. |
| Entries.StoredRole | app.py:511 | A stored role reads as a regular iff it is `正選手`; anything else selects `補欠`. |
| Entries.ApplyUpdate | app.py:544-546 | The update overwrites the ten `last_*` columns. Read back, they give the update's values. The identity columns are unchanged. |
| Settings.LoadSettings | app.py:125-145 | The loaded settings equal `Normalize` of the stored document. |
| Settings.RepairLimits | app.py:139-144 | The loop over the four default categories yields `CompleteLimits` of the stored limits. |
| Settings.Normalize | app.py:136-145 | After loading, `limits` is an object with all four categories, each an object with both `reg` and `sub`. |
| Settings.NormalizeKeeps | app.py:132-138 | A document that is not an object is replaced by the default settings. Otherwise every other stored key keeps its value. |
| Settings.CompleteLimitsSpec | app.py:139-144 | The completed limits keep every stored key and add the four category keys. Unrelated keys keep their values. Each category holds its completed cap. |
| Settings.CompletedCapKeeps | app.py:140-144 | A stored category object keeps every stored field, and only a missing `reg` or `sub` is filled from the default. A missing or non-object category becomes the default cap. |
| Settings.CompleteLimitsIdempotent | app.py:137-145 | Completing the limits twice changes nothing. |
| Settings.NormalizeIdempotent | app.py:136-145 | Loading what was loaded changes nothing. |
| Settings.LimitCaps | app.py:326 | The caps can be read as integers iff every `reg` and `sub` converts. They then hold exactly the converted values and cover every category. |
| Settings.DefaultCaps | app.py:126-131 | The default limits are complete and give 4/2, 4/2, 3/1 and 5/2. |
| Layout.RowOfFirstBlock | app.py:191-193 | Athletes 0..21 go on rows 16..37. |
| Layout.RowOfNextBlock | app.py:191-193 | An athlete 22 places later is 46 rows lower. |
| Layout.RowOfInBlock | app.py:191-193 | Within a block the rows are consecutive. |
| Layout.RowOfStrictlyIncreasing | app.py:191-193 | A later athlete is on a strictly later row, so no two athletes share a row. |
| Layout.RowOfAvoidsHeader | app.py:191-193 | No athlete row is a header or advisor row. |
| Layout.EntryCol | app.py:199-206 | `男子` uses columns 11..14 and everyone else columns 15..18. |
| Layout.EntryColInjective | app.py:199-206 | Each (sex, category) pair has its own column, and no category column is an identity column. |
| Layout.TeamMarkReads | app.py:202-203 | A team mark is written iff the category is checked. It is `補` iff the role is `補欠`, and `○` otherwise. |
| Layout.FormatRank | app.py:305-309 | No type or an empty type gives nothing. `補欠` gives `補` whatever the rank. `一般` gives `○` followed by the rank. Any other type gives `シ` followed by the rank. |
| Layout.FormatRankReadBack | app.py:305-309 | The mark of an entered category gives back its placement and, except for `補欠`, its rank. An unentered category writes nothing. |
| Layout.EraDateInjective | app.py:166-168 | Different dates give different Reiwa date lines. |
| Sheet.NormalizeSpec | app.py:161 | `<digits>年` loses exactly its `年`, and any other value is kept. Normalising twice is normalising once. |
| Sheet.Stored | app.py:162 | Assigning a non-text value stores it unchanged. A stored text is a prefix of the text assigned. |
| Sheet.StoredSpec | app.py:162-164 | A text is refused iff one of its first 32767 characters is a control character U+0000-U+0008, U+000B, U+000C or U+000E-U+001F; the swallowed error then leaves the cell as it was. Otherwise a text of at most 32767 characters is stored whole and a longer one is cut to 32767. |
| Sheet.WriteCellPlain | app.py:152-164 | A missing value changes nothing, and neither does a value the cell refuses. Any other value written to a cell outside every merged area lands there, normalised and as the cell stores it, and nothing else changes. |
| Sheet.WriteCellMerged | app.py:157-160 | With non-overlapping merged areas, a write of a value the cell takes, anywhere inside an area, lands on its top-left cell. |
| Sheet.FirstContaining | app.py:158-160 | The scan finds the first merged area containing the cell, or reports that none does. |
| Sheet.Worksheet.SafeWrite | app.py:152-164 | The worksheet after one write is `WriteCell` of the one before. |
| Sheet.Worksheet.GenerateExcel | app.py:171-212 | The filled worksheet results from applying the header writes, the writes of the first four advisors and each athlete's eight writes, in order. The file name is `申込書_<school>.xlsx`. |
| Sheet.EntryWritesCells | app.py:192-208 | An athlete's eight writes go to eight different columns of the athlete's row. |
| Sheet.HeadWritesRows | app.py:175-189 | Header and advisor writes go only to rows 3, 7, 8, 9, 42 and 43. |
| Sheet.LastWriteWins | app.py:152-164 | A cell holds what it stores of the last write that lands on it. |
| Sheet.ApplyWritesUntouched | app.py:152-164 | A cell that no write lands on keeps its value. |
| Sheet.SheetShowsEntry | app.py:171-212 | When no merged area reaches an athlete row, each of athlete i's cells ends with the athlete's normalised value as the cell stores it. A cell the athlete leaves blank, or whose text the cell refuses, keeps the template's value. |
| EntryForm.RenderDefaults | app.py:508-531 | Each box starts from the stored flag. An unchecked team category has role `正選手`, and a checked one starts from the stored role. An unchecked individual category has no type, and a checked one starts from the stored type (unknown types read as `一般`). The rank is blank unless the category is checked and not `補欠`. The update records exactly what the entry holds. |
| EntryForm.RenderResubmit | app.py:508-531 | Saving a form and reopening it untouched yields the same entry and update. |
| EntryForm.BuildForm | app.py:533-538 | The form lists one entry per roster row of the school, and each entry is what its row's widgets produce. The update map is built in form order, so a repeated name keeps its last row's update. |
| EntryForm.SexIndices | app.py:506 | Each listed roster position holds a row of that school and sex. |
| EntryForm.SexIndicesIncreasing | app.py:506 | The positions are listed in strictly increasing order, so each once and in roster order, as the pandas filter keeps rows. |
| EntryForm.SexIndicesComplete | app.py:506 | Every roster position holding a row of that school and sex is listed. |
| EntryForm.SexRows | app.py:504-506 | A sex's section holds the roster rows at those positions, one per position, in roster order. |
| EntryForm.SexRowsMembers | app.py:504-506 | A sex's section holds exactly that school's roster rows of that sex. |
| EntryForm.FormRowsMen | app.py:533-535 | The form opens with the school's men, in roster order. |
| EntryForm.FormRowsWomen | app.py:533-538 | After the men come the school's women, in roster order, and the form holds no other rows. |
| EntryForm.FormRowsOrdered | app.py:533-538 | Men come before women, and the form holds exactly the school's rows. |
| EntryForm.UpdatesOfLast | app.py:538 | A name has an update iff some form row has that name. The update is the last such row's. |
| EntryForm.MergedTouchesOnly | app.py:544-546 | The merge changes a roster row iff its school is the saving school and its name has an update. It then applies exactly that update, and the identity columns never change. |
| EntryForm.SaveMerge | app.py:544-546 | After the loop every roster row is its merged self. |
| EntryForm.Submit | app.py:539-547 | The errors are the validator's messages. With errors the roster is unchanged; without, every row is merged. |
| Advisors.Swapped | app.py:469 | Moving advisor i up swaps it with advisor i - 1. Every other position is unchanged. |
| Advisors.Removed | app.py:477 | Deleting advisor i drops it and keeps the others in order. |
| Advisors.SwappedPermutes | app.py:469 | Moving up keeps the same advisors, and moving up twice restores the list. |
| Advisors.SwappedHead | app.py:468-471 | Moving the second advisor up makes them head advisor. |
| Advisors.RemovedDrops | app.py:476-478 | Deleting removes exactly one copy of the advisor. Deleting the head passes the title to the next advisor, or leaves no head. Deleting any other advisor keeps the head. |
| Advisors.HeadIsFirst | app.py:295 | Only position 0 is titled `筆頭顧問`, and that advisor's name is the head name. |
| Advisors.AdvisorTab.MoveUp | app.py:468-471 | The list becomes `Swapped`, the principal and the stored flag are unchanged, and an unstored profile stays blank. |
| Advisors.AdvisorTab.Remove | app.py:476-479 | The list becomes `Removed`, the principal and the stored flag are unchanged, and an unstored profile stays blank. |
| Advisors.AdvisorTab.Add | app.py:481-484 | A stored profile gains a blank referee attending both days. For a school without a stored profile the append goes to the unsaved blank profile (app.py:455), so the list stays empty. |
| Advisors.AdvisorTab.Blank | app.py:455 | A school without a stored profile is shown an unstored blank profile. |
| Advisors.AdvisorTab.Save | app.py:485-488 | The typed principal and the list shown are stored, and the profile is stored from then on. |
| Admin.Moved | app.py:429-431 | The value moves to the new key, and the old key is gone. Every other key keeps its value. A missing old key changes nothing. |
| Admin.MovedBack | app.py:429-431 | Moving to a fresh key and back restores the map. |
| Admin.Relabelled | app.py:433-435 | Every row of the old school now carries the new name, and no other field changes. The order is kept. |
| Admin.Kept | app.py:441-442 | Exactly the rows of other schools remain. |
| Admin.Registry.RenameSchool | app.py:426-437 | The rename succeeds iff the name is non-empty and no account has it. It then moves the account, the profile (if any) and the roster rows. Otherwise nothing changes, and links stay valid. |
| Admin.Registry.DeleteSchool | app.py:438-443 | When confirmed, the account, the profile and the school's rows are dropped. Otherwise nothing changes, and links stay valid. |
| Admin.RenameKeepsLinked | app.py:426-437 | An accepted rename keeps every profile and row attached to an account, and the old name disappears. |
| Admin.RenameRoundTrip | app.py:426-437 | Renaming to a fresh name and back restores the accounts, the profiles and the roster. |
| Admin.RenameMovesRows | app.py:433-435 | The new name's rows are the old school's rows in order. Third schools keep their rows, and the old name has none. |
| Admin.DeleteKeepsLinked | app.py:438-443 | A delete keeps every profile and row attached to an account, and no row of the school remains. |
| Admin.DeleteCounts | app.py:442 | Kept rows plus the school's rows make the whole roster. |
| Admin.DeleteKeepsOthers | app.py:442 | Other schools keep their rows in order. |
| Admin.CountChecked | app.py:272 | The count is the number of positions holding a row of that sex with that category checked. |
| Admin.CountCheckedAt | app.py:270-272 | Counting within the school's rows gives the number of the school's matching rows in the whole roster. |
| Admin.SummaryOf | app.py:267-277 | For each sex, the individual kata and kumite figures count the school's rows of that sex with the category checked. A team flag is set iff some such row has the team category checked. The total is the school's number of rows. |
| Admin.RenameKeepsSummary | app.py:267-277 | After a rename, the summary under the new name equals the old school's summary. |

## Left out

- Google Sheets access (reading and writing the `auth`, `schools`, `settings` and `members` documents), credentials and caching. The stored documents are parameters and fields.
- The Streamlit screens: layout, widgets, session state, reruns and the login. The model keeps only the decisions they wrap, with each widget's value as an input.
- openpyxl: loading the template, saving the workbook, cell alignment, and the "template not found" error. The template is a cell map plus a list of merged rectangles.
- The pandas report files (entry details, advisor list, raw CSV) and the sorting of report rows by school number. Of the reports, only the summary's per-school counts are modelled.
- `datetime.date.today()`. The date is a parameter.
- Passwords, the administrator password check, and editing school numbers (app.py:414-419).
- The advisor tab's field edits (name, duty, day checkboxes, app.py:472-475). These copy widget values into the profile.
- The roster tab's add and delete of athletes (app.py:490-501).
- JSON numbers are integers; floats are not modelled.
- Settings.ToInt: reads only an optional `-` followed by ASCII digits. Python's `int()` also accepts surrounding blanks, `+`, underscores and other Unicode digits.
- Decimal.IsDigitString: covers ASCII and full-width digits only. `str.isdigit` accepts every Unicode digit character.
- The order of Python dictionaries: a renamed account moves to the end of `auth`. Maps here carry no order.
- Sex values other than `男子` and `女子`. The two-value `Sex` is an assumption about stored rows: the roster can be edited outside the app. In the source, a row with any other value appears in neither form section (app.py:506), is never counted, and is kept unchanged by the merge.
- A repeated athlete name within a school: the widget keys collide. The model keeps the update of the last row with that name.
- Sheet.SheetShowsEntry: assumes that no merged area reaches into an athlete row (`RowsClear`) and that the row fits the worksheet.
- openpyxl stores a text starting with `=` as a formula and other typed values (dates, error codes) with their own data type. The model keeps every stored text as text.
- The summary's display: a count of 0 is shown blank and a set team flag as `○`. The model keeps the numbers and flags.
- The settings completion uses the four default categories; the validator assumes completed limits (`Validation.Complete`). An integer conversion that fails before validation is not modelled.
