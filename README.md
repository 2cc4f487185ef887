# ChurchDatabase core rules in Dafny

This project is a Dafny model of the rules under a Django church-membership
application (members, assemblies, units, cells, families, administrators,
committees, inventory, sermons). It covers the following:

- **Admin rules** from `core/models.py`: who an administrator manages and may
  see, the permission table, a member's age, and what `Admin.save` does. On a
  save it creates the user account, whose username comes from a uniqueness
  loop, and it moves the member into the admin's cell.
- **CSV member import** (`core/utils/csv_import.py`):
  - the `parse_date` format list, replayed with Python's `strptime` matching;
  - the fixed unit and cell lookup tables, and `get_or_create_family`;
  - how each row maps to member fields;
  - the upsert loop, which matches an existing member by phone and then by
    email, and counts rows created and updated.
- **Form validators** (`core/forms.py`, `core/adminforms.py`): the phone
  character rule, no dates in the future, the order of a member's dates, date
  ranges, CSV upload limits, admin-level rules and form field setup.
- **How the views apply these rules**:
  - `member_list`'s base set and filter pipeline, `create_member`,
    `public_registration` and `ajax_search` (`core/views.py`);
  - the superadmin gate and same-assembly lookups of the admin views
    (`core/adminviews.py`);
  - the `role_required` decision (`core/decorators.py`).
- **Small tables**:
  - committees and their memberships (`core/commiteeview.py`);
  - the inventory list, dashboard, quantity update and deletes
    (`core/inventoryviews.py`);
  - API registration, login and the newest-first sermon lists
    (`api/views.py`).

### Modelling conventions

- Tables are Dafny sequences whose index is the row id, or maps keyed by id.
  The `Database` class holds the tables the application writes, and its
  methods change them in place.
- A view's outcome (a redirect, a JSON reply, a status code) is a datatype
  value. Anything a view reads from the request is a parameter.
- "Today" and the current year are parameters. So are the ids the database
  assigns and the results of forms whose definition is not in the sources.
- Queries follow Django's rules:
  - `.first()` and `order_by` sort by the model's `Meta.ordering`, using a
    stable insertion sort;
  - `[:k]` is the first k rows of that order;
  - a table with no ordering keeps id order.
- Where a view passes a GET or POST value to `int()`, the value is read the way
  Python's `int()` reads it (`Common.PyInt`). Where the query would raise, the
  result is `None`, `Err` or a 500 reply.

Modules: `Common`, `Sorting`, `Models`, `Provisioning`, `DateParse`,
`DateParseProperties`, `CsvImport`, `Forms`, `AdminForms`, `Committees`,
`MemberViews`, `AdminViews`, `Decorators`, `Inventory`, `Api`.

## Model

| member | source | states |
|---|---|---|
| Models.ManagedMembers | core/models.py:384-393 | A superadmin or moderator manages exactly the members of its assembly. A Cell admin with a cell manages the members of its assembly and cell. Anyone else manages nobody. The result is always a subset of the table. |
| Models.CanAccessIffManaged | core/models.py:352-363 | For every member of the table, `can_access_member` holds iff the member is in `get_managed_members()`. |
| Models.CellAdminWithoutCellManagesNobody | core/models.py:358-363 | A Cell admin with no cell manages and can see no member. |
| Models.HasPermission | core/models.py:365-382 | `manage_users` and `system_config` hold iff the admin is a superadmin. `access_all_cells` holds iff superadmin or moderator. Finances and content need a flag and superadmin or moderator. Members and events follow their flags. Unknown names are refused. |
| Models.CellAdminHasNoFinanceOrContentRights | core/models.py:365-382 | A Cell admin never has finance, content, all-cells or configuration rights, whatever its flags. |
| Models.Age | core/models.py:149-156 | None exactly when there is no birth date. Otherwise the year difference, one less before the birthday. |
| Models.AgeCountsAnniversaries | core/models.py:149-156 | The age is the number of birthdays that have passed by today. |
| Models.AgeMonotone | core/models.py:149-156 | A later day never gives a smaller age. |
| Models.AgeOnBirthday | core/models.py:149-156 | On the n-th birthday the age is exactly n. |
| Models.Candidate | core/models.py:305-313 | The k-th username the loop tries starts with the base name, and is longer than it after the first try. |
| Models.CandidateIndexInverts | core/models.py:305-313 | Distinct tries give distinct names: k can be recovered from the k-th candidate. |
| Models.MemberNameLeqIsTotalPreorder | core/models.py:143-144 | `Member.Meta.ordering` (last name, then first name) is a total preorder. |
| Provisioning.GenerateUsername | core/models.py:305-313 | The loop ends with the first candidate not taken, which is not any existing username. |
| Provisioning.AccountFor | core/models.py:315-321 | The account copies the member's normalised email and both names. The password is the given one, or else the first name + "sepcam". |
| Provisioning.Database.ConfirmCellMembership | core/models.py:328-333 | The member's cell becomes the admin's cell, including None. The member row is unchanged when the cell already agreed. |
| Provisioning.Database.LinkNewAccount | core/models.py:315-324 | Exactly one user is appended and linked to the admin. The nested `save` then confirms the cell. |
| Provisioning.Database.InsertAccount | core/models.py:315-323 | The account built from the admin's member (normalised email; the given password or the first name + "sepcam") becomes the next user and is linked to the admin. The members and the other tables are unchanged. |
| Provisioning.Database.CreateUserAccount | core/models.py:300-326 | An admin that already has an account gets it back and nothing changes. Otherwise one new user is created, with the given name or the first free `first.last` candidate, and linked. A given name already taken is the integrity error. |
| Provisioning.Database.Provision | core/models.py:335-338 | After `save`, the admin has an account and the tables are as `Provisioned` describes. |
| Provisioning.StoreKeepsOneProfile | core/models.py:286 | `member` is a one-to-one field: storing a row whose member no other row holds keeps at most one admin row per member. |
| Provisioning.StoreKeepsOneAccount | core/models.py:292-298 | `user_account` is a one-to-one field: storing a row whose user no other row holds keeps at most one admin row per user. |
| Provisioning.Database.SaveAdmin | core/models.py:335-338 | Stores the row, then gives it an account if it has none and confirms the cell. No other table changes. It keeps the table invariant, which includes at most one admin row per member and at most one per user account (`member` and `user_account` are one-to-one fields). |
| Provisioning.SaveTwiceCreatesOneAccount | core/models.py:300-303 | Saving the same admin twice creates exactly one user, linked to the admin. |
| DateParse.Strptime | core/utils/csv_import.py:23-24 | Any date `strptime` returns is a real calendar date. |
| DateParse.FirstFormatIsFirst | core/utils/csv_import.py:18-26 | The loop's result is that of the first format that parses. It is None iff no format parses. |
| DateParse.DayMonthFallback | core/utils/csv_import.py:29-34 | The "day/month" fallback gives a real date in the current year, and only for text with one '/'. |
| DateParse.ParseDate | core/utils/csv_import.py:7-36 | Empty text, "nil" or "null" in any case give None. Any date returned is real. |
| DateParseProperties.DayFirstWins | core/utils/csv_import.py:13-24 | "dd/mm/yy" text of a real date is read day first, by `%d/%m/%y`. |
| DateParseProperties.DayFirstExample | core/utils/csv_import.py:13-24 | "03/04/90" is 3 April 1990. |
| DateParseProperties.MonthFirstWhenDayOver12 | core/utils/csv_import.py:13-26 | "mm/dd/yy" text with a day above 12 fails the day-first formats and is read by `%m/%d/%y`. |
| DateParseProperties.MonthFirstExample | core/utils/csv_import.py:13-26 | "12/26/90" is 26 December 1990. |
| DateParseProperties.YearlessDayMonth | core/utils/csv_import.py:21-34 | "dd/mm" is that day of the current year, or None when the current year has no such day. |
| DateParseProperties.YearlessExample | core/utils/csv_import.py:21-23 | "26/12" is 26 December of the current year. |
| DateParseProperties.YearlessDayMonthName | core/utils/csv_import.py:13-36 | "dd-Mon", with an English month abbreviation in any case, fails the first two formats and is read by `%d-%b` as that day of the current year. When the current year has no such day, every format fails and the result is None. |
| DateParseProperties.YearlessNameFormat | core/utils/csv_import.py:21-23 | `%d-%b` is tried as `%d-%b-%Y` on the text with "-" and the current year appended. On "dd-Mon" it gives that day, or fails when the day is not real. |
| DateParseProperties.YearlessNameExample | core/utils/csv_import.py:13-23 | "26-Dec" is 26 December of the current year. |
| DateParseProperties.InvalidDayMonthExample | core/utils/csv_import.py:28-36 | "31/02" is not parsed. |
| CsvImport.GetOrCreateUnit | core/utils/csv_import.py:63 | Returns the one unit of that name, or inserts one. Two or more of that name is `MultipleObjectsReturned`, and nothing is inserted. |
| CsvImport.GetOrCreateCell | core/utils/csv_import.py:77-80 | The same for cells, a new cell dated today. |
| CsvImport.CreateUnits | core/utils/csv_import.py:53-66 | On success every listed unit name maps to a unit row of that name. Existing rows are kept. |
| CsvImport.CreateCells | core/utils/csv_import.py:68-83 | On success every listed cell name maps to a cell row of that name. Existing rows are kept. |
| CsvImport.FamiliesLike | core/utils/csv_import.py:92-95 | Exactly the assembly's families whose name contains the surname, ignoring case. |
| CsvImport.GetOrCreateFamily | core/utils/csv_import.py:85-108 | An empty surname gives nothing. Otherwise the first matching family by `family_name`, or one new family with the row's address, phone and email. |
| CsvImport.FoundFamilyMatches | core/utils/csv_import.py:97-98 | The family found matches and comes first in name order among the matches. |
| CsvImport.YearStartAsWritten | core/utils/csv_import.py:173-174 | Non-digit text gives None. Digit text outside 1..9999 raises. |
| CsvImport.YearStart | core/utils/csv_import.py:173-180 | 1 January of the year iff the text is digits naming a year 1..9999. |
| CsvImport.YearStartRefinesAsWritten | core/utils/csv_import.py:173-180 | Wherever the code as written does not raise, it agrees with `YearStart`. It raises exactly on out-of-range digits. |
| CsvImport.YearZeroAbortsImport | core/utils/csv_import.py:173-180 | "0" and "10000" make the code as written raise. |
| CsvImport.GenderOf | core/utils/csv_import.py:141-142 | "M" and "F" are kept. Anything else is "O". |
| CsvImport.MaritalStatusOf | core/utils/csv_import.py:145-156 | The result is always a choice value. Unmapped text is "SINGLE". |
| CsvImport.BirthDate | core/utils/csv_import.py:159 | A birth date, when present, is a real date. |
| CsvImport.RowNames | core/utils/csv_import.py:130-138 | The first name is "Other Names 1", or the surname when that is empty. The last name is the surname, the middle name "Other Names 2", all stripped. |
| CsvImport.RowStatus | core/utils/csv_import.py:142-156 | Gender is in {M, F, O}. Marital status is a choice value. The membership status is "ACTIVE". |
| CsvImport.RowDates | core/utils/csv_import.py:170-180 | With the corrected year reading (`YearStart`), the baptism date is set iff Baptism is "yes" in any case and the year reads. The membership date is set iff the born-again year reads. Both are 1 January. |
| CsvImport.RowDataAsWrittenRefines | core/utils/csv_import.py:170-180 | As written, a row raises iff a year it reads (the baptism year only after "yes") is digits outside 1..9999. A row that does not raise maps to the same fields as with the corrected reading. |
| CsvImport.BlankNamesAreNotSkipped | core/utils/csv_import.py:126-136 | A surname of spaces passes the skip test, which reads unstripped text, yet maps to empty names. |
| CsvImport.RowUnit | core/utils/csv_import.py:162-163 | "Main Unit", or else "Sub-Unit 1", names the unit. A unit is set only for a name on the fixed list. |
| CsvImport.RowCell | core/utils/csv_import.py:166-167 | "Cell", or else "Assembly", names the cell. A cell is set only for a name on the fixed list. |
| CsvImport.Overwrite | core/utils/csv_import.py:219-220 | Every field the row sets is overwritten. The id, family, confirmation and emergency fields are kept. |
| CsvImport.NewMember | core/utils/csv_import.py:226 | The created member carries the row's fields, and the rest are defaults. |
| CsvImport.Filter | core/utils/csv_import.py:204-215 | Exactly the members with that phone (or email) whose names contain the row's names, ignoring case. |
| CsvImport.ExistingMemberMatches | core/utils/csv_import.py:201-215 | No phone and no email: no match. A member found is in the table and matches by phone or by email. When a phone match exists, the phone match is used, and it is first in `Member` order. When the row has an email and no phone match exists (no phone, or nobody matching it), an email match is found whenever one exists, and it is first in `Member` order. |
| CsvImport.ReimportFindsNewMember | core/utils/csv_import.py:201-215 | When nobody matched a row that has a phone or an email, the member created from it is the one the same row finds next time. |
| CsvImport.ReimportUpdates | core/utils/csv_import.py:201-228 | Importing a just-created row again updates that member to the same values, so the table is unchanged, when the row has a phone or an email. With neither, it creates a second member. |
| CsvImport.ImportRow | core/utils/csv_import.py:124-228 | A skipped row changes nothing. An unmatched row appends exactly one new member. A matched row overwrites that member in place. Row ids stay positional. |
| CsvImport.CountsAddUp | core/utils/csv_import.py:217-233 | `created + updated` is the number of rows not skipped, and the table grows by `created`. |
| CsvImport.SkippedRowsChangeNothing | core/utils/csv_import.py:126-127 | A file whose rows are all skipped leaves the table as it was, with both counts 0. |
| CsvImport.ImportMembers | core/utils/csv_import.py:124-233 | The loop leaves the member table and counts that the fold over the rows computes. Users, admins, units, cells and families are untouched. |
| CsvImport.ImportFromCsv | core/utils/csv_import.py:110-233 | Creates the unit and cell tables, then imports every row with the current year for `parse_date` and the corrected year reading. If a lookup table fails, no member changes. |
| CsvImport.ImportLoopAsWritten | core/utils/csv_import.py:123-228 | The loop as written runs row by row until the file ends or a row raises. It leaves what the fold `ImportUntilFailure` computes. |
| CsvImport.NothingRaisedAgrees | core/utils/csv_import.py:123-228 | When no read row raises, the loop as written ends without error, with the table and counts of the corrected loop. |
| CsvImport.FailureSticks | core/utils/csv_import.py:123-228 | Once a row has raised, later rows change nothing. |
| CsvImport.FirstRaisingRowStops | core/utils/csv_import.py:123-228 | The first row that raises ends the import with its error. The rows before it stay imported. |
| CsvImport.FirstFailureKeepsPrefix | core/utils/csv_import.py:123-228 | After rows that map as in the corrected loop, a raising row leaves exactly the corrected result for the rows before it, and an error. |
| CsvImport.AsWrittenImportAgrees | core/utils/csv_import.py:123-228 | On a file with no out-of-range year in a row that is read, the import as written and the corrected import agree. |
| CsvImport.AsWrittenImportKeepsEarlierRows | core/utils/csv_import.py:123-228 | When row `k` is the first read row with an out-of-range year, the import as written fails. It keeps the corrected import's table and counts for rows `0..k-1`, because each member is saved as its row is reached. |
| Forms.CleanPhone | core/forms.py:101-105 | A phone passes unchanged or fails with the field's message. |
| Forms.PhoneRule | core/forms.py:101-105 | A phone is accepted iff it is empty, or only digits, '+', ' ' and '-' with at least one digit. The same rule covers core/forms.py:161-165, 322-326 and 328-332. |
| Forms.PlusAloneRejected | core/forms.py:101-105 | "+" alone is rejected. |
| Forms.PunctuatedNumberAccepted | core/forms.py:101-105 | A number written like "+1 2-3" (any three digits) is accepted as given. |
| Forms.LetterRejected | core/forms.py:322-326 | A phone containing a letter is rejected. |
| Forms.CleanNotFuture | core/forms.py:298-320 | A date is accepted iff absent or not after today. The rule covers core/forms.py:95-99 and 183-187. |
| Forms.TodayIsNotFuture | core/forms.py:298-302 | Today is accepted. Any later day is rejected. |
| Forms.CleanMemberDates | core/forms.py:334-360 | Accepted iff membership and baptism are not before birth and confirmation is not before baptism, each checked only when both dates are present. The first failure is reported. |
| Forms.MemberDatesLenient | core/forms.py:334-360 | Equal dates pass. Missing dates skip their checks. |
| Forms.CleanDateRange | core/forms.py:498-507 | Rejected iff both ends are present and the start is after the end. |
| Forms.CleanCsvFile | core/forms.py:468-476 | Accepted iff there is no file, or the name ends with ".csv" and the size is at most 5 MiB. The name check is reported first. |
| Forms.CsvFileBoundaries | core/forms.py:468-476 | Exactly 5 MiB passes. One byte more fails. ".CSV" fails. |
| Forms.MemberFormFields | core/forms.py:281-296 | The nine listed fields become optional. An unsaved form starts at "NEW_MEMBER". Nothing else changes. |
| Forms.UnitLeaderField | core/forms.py:127-131 | The leader is optional. The choices are exactly the ACTIVE members. |
| AdminForms.CleanAdminForm | core/adminforms.py:32-52 | Fails iff level "Cell" has no cell, or a new admin's member already has a profile. The cell error comes first. Nothing else can fail. |
| AdminForms.UpdateSkipsProfileCheck | core/adminforms.py:45-50 | On a saved admin the one-profile rule never applies. |
| AdminForms.CleanLevelChange | core/adminforms.py:74-85 | Fails iff level "Cell" has no cell. |
| AdminForms.LevelChangeForm | core/adminforms.py:55-85 | The bound level-change form accepts iff the level is one of the three admin types, a chosen cell is a stored cell, and a Cell admin has a cell. On valid fields it is exactly `clean`. |
| AdminForms.LevelChangeIsAdminFormRule | core/adminforms.py:74-85 | The level-change rule is the admin form's rule on a saved admin. |
| AdminForms.LevelChoicesAreTheLevels | core/adminforms.py:91 | The filter's choices are "" followed by exactly the three levels. |
| Committees.CommitteeStore.MembersOf | core/commiteeview.py:35-38 | Exactly the members having a membership in the committee. |
| Committees.CommitteeStore.NonMembers | core/commiteeview.py:35-38 | Exactly the table's members not on the committee. |
| Committees.MembersAndNonMembersPartition | core/commiteeview.py:35-38 | Members and non-members are disjoint and together make up the member table. |
| Committees.CommitteeStore.CreateCommittee | core/commiteeview.py:55-62 | Stores the committee. A leader, when chosen, gets exactly one membership with role "Leader". |
| Committees.CommitteeStore.AddMember | core/commiteeview.py:100-136 | 405, 404, 400 and 500 in the source's order. A duplicate is 400 and leaves the table unchanged. Success inserts exactly one membership with the given role, default "". |
| Committees.CommitteeStore.RemoveMember | core/commiteeview.py:140-154 | Deletes only a membership whose id and committee both match. Otherwise 404 and nothing is removed. |
| Committees.CommitteeStore.UpdateRole | core/commiteeview.py:158-174 | Changes only the addressed membership's role, default "". |
| Committees.CommitteeStore.SetLeader | core/commiteeview.py:178-205 | Succeeds only for a member already on the committee. Otherwise the leader is unchanged. |
| Committees.AddTwiceEnrolsOnce | core/commiteeview.py:114-126 | Adding the same member twice: the first add succeeds, the second is 400, and one membership is added. |
| MemberViews.BaseMembers | core/views.py:836-846 | A superadmin gets every member. A Cell admin gets the members whose cell equals its own, in any assembly. Anyone else gets no queryset. Both sets are sorted by first, then last name. |
| MemberViews.ByName | core/views.py:840 | `order_by("first_name", "last_name")` returns the same members, sorted by first name, then last name. |
| MemberViews.ParseIdFilter | core/views.py:848-876 | An absent id does not filter. "None" selects null where allowed. Any other value is read by `int()`. |
| MemberViews.ParseFilters | core/views.py:848-885 | The cell filter applies only for a superadmin. Gender "" or "all" does not filter. |
| MemberViews.PassesIsEveryFilter | core/views.py:857-889 | A member passes iff it passes each of the seven filters. |
| MemberViews.FilteredSelects | core/views.py:857-885 | Each filter step only narrows the set. Exactly the members passing the steps so far remain. |
| MemberViews.FilteredKeepsOrder | core/views.py:857-885 | Filter steps keep the order. |
| MemberViews.PipelineSelects | core/views.py:857-889 | The pipeline keeps exactly the members passing every filter, and never grows the set. |
| MemberViews.PipelineOrder | core/views.py:886-889 | Without a month filter the order is kept. With one, the result is sorted by day of birth. |
| MemberViews.MemberListSelects | core/views.py:818-889 | The view fails iff the viewer is neither superadmin nor Cell admin, or a filter value does not read. Otherwise it lists exactly the base members passing every filter. |
| MemberViews.ModeratorListFails | core/views.py:836-857 | A moderator's request fails. |
| MemberViews.CellAdminListIgnoresAssembly | core/views.py:842-846 | A Cell admin lists a member of its cell from another assembly, which `can_access_member` refuses. |
| MemberViews.CellAdminWithoutCellSeesUnassigned | core/views.py:842-846 | A Cell admin with no cell lists exactly the members with no cell. |
| MemberViews.CellFilterOnlyForSuperadmin | core/views.py:866-871 | For anyone but a superadmin the cell parameter changes nothing. |
| MemberViews.GenderAllIsNoFilter | core/views.py:859-864 | Gender "all" is the same as no gender filter. |
| MemberViews.CreatedCell | core/views.py:335-344 | A Cell admin with a cell imposes its cell. Otherwise the submitted cell is kept. |
| MemberViews.CreateMember | core/views.py:326-364 | A non-POST is 405 and an invalid form 400, both storing nothing. A valid POST appends exactly one member, with the imposed cell. |
| MemberViews.PublicRegistration | core/views.py:742-761 | A valid POST appends exactly one member, with status "NEW_MEMBER". Otherwise nothing is stored. |
| MemberViews.ShowUnit | core/views.py:216-225 | A description over 100 characters becomes its first 100 plus "...". A shorter one is unchanged. |
| MemberViews.AjaxSearch | core/views.py:144-244 | A blank query gives empty results. Every category holds at most 10 hits. |
| MemberViews.AjaxSearchMembers | core/views.py:150-158 | The member hits match the query and are sorted in `Member` order (last name, then first name). No matching member left out ranks before one shown. There are 10 of them, or all the matches when fewer. |
| MemberViews.AjaxSearchAssemblies | core/views.py:167-172 | The same for assemblies, in `Assembly` order (by name). |
| MemberViews.AjaxSearchUnits | core/views.py:174-177 | The unit hits match the query and are sorted by name. No matching unit left out has a name before one shown. There are 10 of them, or all the matches. A description over 100 characters is cut to 100 and "...". |
| MemberViews.AjaxSearchCells | core/views.py:179-180 | The cell hits are the first 10 matching cells in table order (`Cell` declares no ordering), or all of them. |
| AdminViews.Dispatch | core/adminviews.py:29-41 | The view runs iff the user is logged in and a superadmin. Otherwise the user goes to login, or to the URL named "dashboard". |
| AdminViews.AdminMatches | core/adminviews.py:102-123 | Exactly the admins of the viewer's assembly passing the level, search and cell filters given. |
| AdminViews.AdminListSelects | core/adminviews.py:102-123 | The query fails iff the cell parameter does not read. Otherwise it holds exactly those admins, sorted by member first name, then last name. |
| AdminViews.AdminDetail | core/adminviews.py:227-249 | A missing admin is 404. The page is shown iff the viewer is that admin or a superadmin. Anyone else goes to "admin_dashboard". |
| AdminViews.EditGate | core/adminviews.py:137-144 | Editing proceeds iff logged in and a superadmin. Otherwise the user goes to login, or to "admin_dashboard" (not to "dashboard", as `Dispatch` sends it). |
| AdminViews.AdminCreate | core/adminviews.py:133-177 | Gated as above. A valid POST for a member with no admin row saves the new admin with its provisioning. For a member that has one, the insert fails on the one-to-one field and the error redirect follows. Every other path leaves admins, users and members unchanged. |
| AdminViews.AdminUpdate | core/adminviews.py:181-223 | Gated. An admin outside the viewer's assembly is the error redirect. A valid POST writes the fields and saves, unless another admin row belongs to the new member: that is the error redirect. Otherwise nothing changes. |
| AdminViews.AdminChangeLevelAsWritten | core/adminviews.py:253-294 | Past the gate every request ends in the error redirect, and nothing changes. |
| AdminViews.AdminChangeLevel | core/adminviews.py:253-294 | Gated, same-assembly only. A POST that the bound form accepts sets level and cell and saves: an admin-type level, a stored cell if any, and a cell for a Cell admin. Otherwise nothing changes. |
| AdminViews.LevelChangeNeverApplies | core/adminviews.py:273-283 | For a request the corrected view carries out, the view as written still fails. |
| AdminViews.AdminDelete | core/adminviews.py:298-332 | Gated, same-assembly only. Deletes exactly that row, and only on POST. |
| Decorators.RoleRequired | core/decorators.py:6-30 | Not logged in → "login". No profile → 403. A role in the list → the view's own answer. Otherwise `redirect_to` if given, else 403. The view is reached iff logged in with an allowed role. |
| Decorators.RoleIsAllThatMatters | core/decorators.py:22-28 | Two profiles with the same role get the same answer. |
| Decorators.MoreRolesAdmitMore | core/decorators.py:22-23 | Adding roles never turns an admitted request away. |
| Decorators.NoRolesNoView | core/decorators.py:22-28 | With no roles allowed the view is never reached. |
| Inventory.OrderKey | core/inventoryviews.py:49-60 | A whitelisted `order_by` is used. Anything else, or none, is "name". |
| Inventory.ByOrderIsTotalPreorder | core/inventoryviews.py:49-60 | Each accepted ordering, descending ones included, is a total preorder. |
| Inventory.ItemMatches | core/inventoryviews.py:19-46 | Exactly the items passing the search, status, condition and assembly filters given. |
| Inventory.InventoryListSelects | core/inventoryviews.py:13-60 | The list fails iff the assembly parameter does not read. Otherwise it holds exactly the filtered items, sorted by the accepted key. |
| Inventory.UnknownOrderIsByName | core/inventoryviews.py:59-60 | An unknown `order_by` lists in name order. |
| Inventory.LowStock | core/inventoryviews.py:65 | Exactly the items with quantity below 0. |
| Inventory.LowStockCountIgnoresOrder | core/inventoryviews.py:62-65 | The low-stock count is the same whatever order was asked for. |
| Inventory.AttentionItemsSelect | core/inventoryviews.py:246-249 | At most 10 items, each worn, broken or under maintenance or lost. All of them are shown when there are at most 10. |
| Inventory.LowStockItemsSelect | core/inventoryviews.py:236-238 | At most 10 items, each of negative quantity. All of them are shown when there are at most 10. |
| Inventory.InventoryStore.QuickUpdate | core/inventoryviews.py:312-341 | Only an AJAX POST acts, and a missing item is 404. A quantity `int()` cannot read is refused and changes nothing. Otherwise only that quantity changes, to the parsed value. |
| Inventory.InventoryStore.DeleteInventory | core/inventoryviews.py:446-461 | Only an AJAX POST deletes, and only an existing item. Otherwise nothing changes. |
| Inventory.InventoryStore.InventoryDelete | core/inventoryviews.py:175-191 | A missing item is 404. Only a POST deletes. |
| Api.RegistrationError | api/views.py:26-42 | Missing fields are reported first, then a taken username, then a taken email. Registration proceeds iff none applies. |
| Api.Register | api/views.py:17-61 | A refusal is 400 and stores nothing. Success appends exactly one user with the given username and the email normalised by `create_user` (domain lower-cased), gives it a token and returns the stored user (201). The duplicate-email check compares the address as given with the stored ones. |
| Api.RegisterTwiceRefused | api/views.py:32-36 | Registering the same username again is refused, and one user is added in all. |
| Api.UserNamed | api/views.py:86 | Finds the user of that username, if any. |
| Api.Authenticate | api/views.py:86 | Succeeds iff the user of that username has that password. |
| Api.NewUserAuthenticates | api/views.py:86 | A user appended under a username nobody has is authenticated by that username and its own password, and is the new row. |
| Api.Login | api/views.py:71-100 | A missing field is 400. Matching credentials get a token and the user (200). Other credentials are 400. Only tokens change. |
| Api.RegisterThenLogin | api/views.py:17-100 | A fresh registration can log in at once and gets the new user back, with the normalised email in both replies. |
| Api.NewestFirst | api/views.py:134-146 | The k newest sermons are newest first and drawn from the table. None left out is newer than one shown. |
| Api.PublicSermonsSelect | api/views.py:134-139 | `public`: at most 5 sermons (exactly 5 when there are that many), newest first. |
| Api.RecentSermonsSelect | api/views.py:141-146 | `recent`: at most 10 sermons (exactly 10 when there are that many), newest first. |
| Api.PublicIsHeadOfRecent | api/views.py:134-146 | The public list is the head of the recent list. |
| Sorting.SortSorted | core/models.py:143-144 | Sorting yields an ordered permutation of its input, as `order_by` does. |
| Sorting.TopKSelects | api/views.py:137 | `order_by(...)[:k]` is ordered, drawn from the input, and no row left out ranks before one selected. |
| Sorting.TopKIsLeast | core/views.py:150-157 | The selected rows come from the input and rank before every row left out. |
| Sorting.FirstInOrderIsLeast | core/utils/csv_import.py:204-208 | `.first()` is a row of the query that ranks before every other. |
| Sorting.Where | core/views.py:857-885 | A filter keeps exactly the rows satisfying it, and never more rows. |
| Sorting.WherePermutation | core/inventoryviews.py:65 | Filtering a reordering gives the same number of rows. |

## Left out

- **I/O.** File reading, template rendering, `messages`, pagination, JSON
  encoding and `print` are not modelled. CSV rows are maps from column name to
  text, read as already parsed.
- **Login redirects.** `login_required` redirects are not modelled: views whose
  outcome depends on authentication take it as a parameter.
- MemberViews.MemberList: takes the viewer's `Admin` row as given. The view has
  no login decorator and reads `request.user.admin_account` unguarded, so an
  anonymous visitor (`AttributeError`) or a user without an admin profile
  (`RelatedObjectDoesNotExist`) ends in an uncaught exception; those requests
  are not modelled.
- **Dashboard.** The dashboard view, statistics and percentages, and
  `float(total_price)` are left out: the first calls a missing helper, and the
  rest is floating point.
- **Stand-in records.**
  - `Committee`, `CommitteeMembership`, `Inventory` and `Admin.role` are not
    defined in the sources. They are records with the fields the views read.
  - `Admin.has_permission` reads `can_manage_members`, `can_manage_finances`,
    `can_manage_events` and `can_manage_content` (core/models.py:368-371).
    `Admin` declares none of them, so as written those lookups raise
    `AttributeError`. The model gives `Admin` four boolean fields that stand
    in for them.
  - `Member.get_full_name` is not defined in core/models.py. `Admin.get_full_name`
    (core/models.py:395-396), the admin views (core/adminviews.py:154, 208,
    279, 288, 318) and the committee views (core/commiteeview.py:118, 130,
    143, 168, 203) call it, so as written those calls raise `AttributeError`.
    The name only goes into messages and titles. The model assumes the
    method exists. For example, `AdminCreate` and `AdminUpdate` end in the
    success redirect after the save. As written, the message after the save
    raises, and the view's `except` gives the error redirect, with the row
    already stored.
  - A save that would give a member a second admin row is refused by the
    one-to-one `member` field. `SuperAdminCreationForm` and
    `SuperAdminUpdateForm` are not in the sources, so the model cannot tell
    whether their validation catches that first. It treats the refusal as
    the database error, which the views' `except` turns into the error
    redirect.
  - `SuperAdminCreationForm`, `SuperAdminUpdateForm`, `CommitteeForm`,
    `InventoryForm` and `MemberForm` validation are results passed in.
  - The inventory price is a whole number, and null prices are not modelled.
- **Ids.** The ids the database assigns are supplied or computed as table
  positions. So is the assembly `create_assembly` returns: `ImportFromCsv`
  takes it as a parameter.
- **Text.**
  - `str.isdigit`, `str.lower` and `icontains` are restricted to ASCII.
  - `int()` and the `\d` of `strptime` accept only the ASCII digits. Python
    accepts any Unicode decimal digit, so text such as "1٣/04/90" is
    parsed there and refused here.
  - `isspace` (`Common.IsSpace`, used by `strip`) is Python's full Unicode
    whitespace set.
  - `%b` accepts the English month abbreviations in any case.
  - `create_user` puts the username through NFKC normalisation. Neither
    `Api.Register` nor `Provisioning.Database.CreateUserAccount` models it:
    usernames are stored as given.
- **Dates.** `%y` reads 00-68 as 2000-2068 and 69-99 as 1900-1999, which is
  Python's pivot. Only the nine formats of `parse_date` are modelled.
- DateParseProperties.YearlessDayMonth: stated for current years 1000-9999
  only, the years written with four digits; other years are not covered.
- DateParseProperties.YearlessDayMonthName: stated for current years
  1000-9999 only, for the same reason.
- **Paging.** `page_size` parsing in `member_list` is not modelled, because
  the members shown before paging do not depend on it.
- **Logout.** `logout_user` is not modelled.
- **Other forms.**
  - `MemberPublicRegistrationForm` is not modelled. `public_registration`
    does not use it: it builds a `MemberForm` (core/views.py:745). The form's
    `__init__` drops the fields its `Meta` does not list and relabels
    `assembly` (core/forms.py:370-376). But it first runs `MemberForm.__init__`,
    which sets `self.fields['family']`, a field that `Meta` leaves out
    (core/forms.py:284). So building the form raises `KeyError`.
  - `BulkFamilyAssignmentForm.__init__` only narrows its two querysets to
    an assembly, and is not modelled.
- **The `role_required` profile lookup** is a parameter.
  `Admin.objects.get(member=request.user)` passes a `User` where the key
  expects a `Member`. Django may refuse that query, and such a failure is not
  modelled.
- **Passwords.** Password hashing and token keys are not modelled. A token is
  the id of the user holding it. `authenticate` compares the stored password
  with the given one, and ignores `is_active`.
- **Concurrency.** The race between the username check and the insert is out
  of scope.
- CsvImport.ImportFromCsv: `family` is not set by the import, and
  `get_or_create_family` is not called by it (as in the source).
  `GetOrCreateFamily` is modelled on its own. The method uses the corrected
  year reading, so it does not raise on an out-of-range year (see
  Findings). The loop as written is `ImportLoopAsWritten`: it stops at the
  first such row, with the rows before it saved.
- CsvImport.RowDates: states the corrected year reading. As written, an
  out-of-range year raises instead of giving no date, as
  `RowDataAsWrittenRefines` states.
- **Ordering ties.** When rows tie on the ordering key, the model keeps table
  order; the database may return them in another order.
- **Low-stock threshold.** Low stock uses `quantity < 0` in both places the
  code computes it, although a comment there says "less than 5". The model
  follows the code.

## Findings

| source | as written | input that shows it | evidently intended | confidence | as-written member | corrected member |
|---|---|---|---|---|---|---|
| core/utils/csv_import.py:173-174, 179-180 | A year that passes `isdigit()` goes to `datetime(int(year), 1, 1)`. Year 0 or above 9999 raises ValueError, and nothing catches it. The import stops at that row, and the rows before it stay saved. | "born again year" = "0" (or "10000") | Treat an out-of-range year as no date, as for non-digit text | not executed | CsvImport.YearStartAsWritten, CsvImport.YearZeroAbortsImport, CsvImport.ImportLoopAsWritten, CsvImport.AsWrittenImportKeepsEarlierRows | CsvImport.YearStart, CsvImport.YearStartRefinesAsWritten, CsvImport.ImportFromCsv, CsvImport.AsWrittenImportAgrees |
| core/adminviews.py:273-283 | `AdminLevelChangeForm(..., current_user=request.user)` is built on GET and POST. The form's `__init__` passes the keyword on to `ModelForm.__init__`, which rejects it with a TypeError. The view's `except Exception` then redirects with an error, so no level is ever changed. | Any superadmin request for an admin of its own assembly | Drop the keyword, as `AdminForm.__init__` does with `pop`, and apply the validated level and cell | not executed | AdminViews.AdminChangeLevelAsWritten, AdminViews.LevelChangeNeverApplies | AdminViews.AdminChangeLevel |
