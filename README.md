# School grade management: a Dafny model

This project models the rules of a school grade-management web application.
Administrators manage classes, students, users, the grade schema and reports.
Teachers enter grades for the students of the classes and subjects assigned to them.
Every page handler is a short, ordered sequence of reads and writes against a hosted database.
The model keeps that order.

- **The database** (`database.dfy`, class `Database.Db`) is one object.
  - It holds the tables the pages use, as sequences of rows: classes, class assignments, students, grades, attendance, profiles, the grade schema and the audit log.
  - It also holds `log`, the list of calls a handler has issued, in order.
  - A call either succeeds or fails.
  - A handler's calls are numbered from 0, and the calls whose numbers are in its `faults` set fail.
- **Pages with state** are classes whose fields the handlers reassign. This covers the administrator's students, settings, audit-log and reports pages, and the teacher's grades and reports pages. The administrator's classes page keeps no modelled state of its own: its handlers (`SaveClassChanges`, `AddClass` and the steps they use) are methods over the database.
- **Pure logic** is functions and lemmas: the request middleware's routing, the password endpoint, the statistics, the grade-schema page, the CSV layout and the report window.
- **Scores** are integers counting half points, since every score input steps by 0.5. A nullable column is an `Option`. The grade `total` is only read: the database maintains it.
- **Modules** follow the program's files. Shared pieces are in their own modules:
  - `Common`: filters, lookups and de-duplication;
  - `Text`: number printing, `join` and `split`;
  - `Cells`: how a nullable score prints;
  - `Ordering`: `ORDER BY`, with text compared by code point (a C collation) and ties kept in table order;
  - `Calendar`: the month window;
  - `Records`: the rows.

The default grade-schema maxima are 10, 10, 10, 10, 20, 5, 5 and 5. They add up to 75.

## Model

| member | source | states |
|---|---|---|
| Access.ProfileLookup | lib/supabase/middleware.ts:51-55 | the profile found is a row of the table with the user's id; a successful read that matches exactly one row finds it |
| Access.AnonymousSpec | lib/supabase/middleware.ts:37-44 | without a user, exactly the paths starting with `/auth` pass; every other path is redirected to the login page, without sign-out |
| Access.SignedInSpec | lib/supabase/middleware.ts:47-81 | a signed-in user with no profile or an inactive one is signed out and sent to the login page on any path; an active user on the login page is sent to `/dashboard` when admin and to `/teacher/dashboard` otherwise |
| Access.AdminSpec | lib/supabase/middleware.ts:83-102 | an active admin passes exactly on paths that start with neither `/auth/login` nor `/teacher`, and is sent from `/teacher` paths to `/dashboard` |
| Access.TeacherSpec | lib/supabase/middleware.ts:83-102 | an active teacher passes exactly on paths that start with none of `/auth/login`, `/admin` and `/dashboard`, and is sent from `/admin` and `/dashboard` paths to `/teacher/dashboard` |
| Access.OtherRoleReachesAdmin | lib/supabase/middleware.ts:83-93 | an active user whose role is neither admin nor teacher passes on `/admin/settings` but is sent from `/dashboard` to `/teacher/dashboard` |
| Access.NoRedirectLoop | lib/supabase/middleware.ts:37-102 | following any redirect, signed out when it says so and with the same profile otherwise, passes |
| ChangePassword.MessageOr | app/api/auth/change-password/route.ts:49 | `message \|\| fallback` is the message when it is non-empty and the fallback when it is empty, so never empty when the fallback is not |
| ChangePassword.PostValidation | app/api/auth/change-password/route.ts:8-14 | a missing or empty field gives 400 with the missing-fields text, and a password under six characters 400 with the length text, whoever the caller is and before anything is sent; six characters are not refused with 400 |
| ChangePassword.PostAuthorization | app/api/auth/change-password/route.ts:23-58 | with valid input, no caller gives 401 and a caller whose role is not admin (or unreadable) 403; an update is sent exactly for an admin caller and carries the requested user and password; 200 exactly when it is sent and succeeds; an upstream failure gives 500 with the upstream message, or the default "فشل تحديث كلمة المرور" when that message is empty |
| ChangePassword.PostSendsOnlyWhenAllowed | app/api/auth/change-password/route.ts:4-60 | over every request, including a malformed body, an update goes upstream if and only if the body is valid, the password has at least six characters and the caller is an admin, and it carries the requested password |
| ChangePassword.ChangePasswordGuards | app/profile/change-password/page.tsx:39-70 | a mismatch is reported before the length check; the new password is sent exactly when the two match, it has six characters or more and the user has an email; success exactly when sent without error, and success clears the form |
| ChangePassword.CurrentPasswordIgnored | app/profile/change-password/page.tsx:61-63 | the outcome and what is sent do not depend on the current-password field |
| ChangePassword.LoadedRole | app/profile/change-password/page.tsx:24-31 | a role is set exactly when there is a user, and it is never empty (a missing role becomes "teacher") |
| ChangePassword.LayoutSpec | app/profile/change-password/page.tsx:149-161 | the page keeps loading exactly when there is no user, uses the admin frame exactly for the admin role, and the teacher frame for a missing or empty role |
| AuditLogs.Newest | app/admin/audit-logs/page.tsx:32-36 | the rows read are never more than 500 |
| AuditLogs.NewestSpec | app/admin/audit-logs/page.tsx:32-36 | the rows read are as many as the table has, up to 500, drawn from the table, newest first, and no row left out is newer than a row kept |
| AuditLogs.NewestKeyOrder | app/admin/audit-logs/page.tsx:35 | ascending order of the sort key is descending order of `created_at` |
| AuditLogs.UserName | app/admin/audit-logs/page.tsx:43-51 | the user name shown is never empty |
| AuditLogs.UserNameSpec | app/admin/audit-logs/page.tsx:43-51 | a successful lookup that finds the user's one profile with a non-empty name shows that name; a failed lookup, a user with no profile, a lookup matching two or more rows, or one row with a missing or empty name shows "Unknown" |
| AuditLogs.Enriched | app/admin/audit-logs/page.tsx:41-54 | one listed entry per row read, in order, each holding that row unchanged, with the user name that row's own lookup gives (`UserName`: the profile's full name, or "Unknown") |
| AuditLogs.FilteredLogs | app/admin/audit-logs/page.tsx:64-68 | an entry is listed exactly when it is loaded and its user name, action or entity type contains the search term |
| AuditLogs.EmptySearchKeepsAll | app/admin/audit-logs/page.tsx:64-68 | an empty search lists every entry, in order |
| AuditLogs.SearchIsCaseSensitive | app/admin/audit-logs/page.tsx:64-68 | "Sara" finds an entry by the user "Sara" that "sara" does not: the search does not fold case |
| AuditLogs.LabelSpec | app/admin/audit-logs/page.tsx:70-84 | the five known actions and the five known entity types show their label, which differs from the key; any other value is shown as it is (lines 127 and 133) |
| AuditLogs.AuditLogsPage.constructor | app/admin/audit-logs/page.tsx:21-23 | the page starts with no entries and an empty search |
| AuditLogs.LookUpUsers | app/admin/audit-logs/page.tsx:41-54 | the lookups issue one profile read per entry, in order, and yield exactly `Enriched`: each entry unchanged with the name its own read gives |
| AuditLogs.AuditLogsPage.FetchLogs | app/admin/audit-logs/page.tsx:30-62 | a failed read (call 0) leaves the list as it was after one read; otherwise the list, built entry by entry as each profile lookup is issued, is the newest rows with their user names (`Enriched`), after one profile lookup per row |
| AdminStudents.ClassNameOf | app/admin/students/page.tsx:60 | the class name shown is never empty |
| AdminStudents.ClassNameOfSpec | app/admin/students/page.tsx:60 | a student whose class id matches no class shows "Unknown"; otherwise the name of the first class with that id, when it is non-empty |
| AdminStudents.Enrich | app/admin/students/page.tsx:58-61 | one listed student per row, in order, each row unchanged with its class name |
| AdminStudents.FilteredStudents | app/admin/students/page.tsx:120-124 | a student is listed exactly when loaded, their lower-cased name contains the lower-cased term, and the class filter is empty or equals their class id |
| AdminStudents.FilteredStudentsSpec | app/admin/students/page.tsx:120-124 | no search and no filter list every student in order; the "all" option (line 219) keeps only students whose class id is literally "all" |
| AdminStudents.AdminStudentsPage.constructor | app/admin/students/page.tsx:24-38 | the page starts with empty lists, search, filter and form, the form hidden and no error |
| AdminStudents.AdminStudentsPage.FetchData | app/admin/students/page.tsx:44-69 | the classes are read, then (if that succeeded) the students; the class list is the classes by name, the student list the students by name with their class names; a failed read keeps the old list and shows an error |
| AdminStudents.AdminStudentsPage.HandleAddStudent | app/admin/students/page.tsx:71-103 | an empty name or class is refused before any call; otherwise exactly one student row is appended, holding the form's name, class and seat number, no national id, and a fresh id; the grade table is untouched; a refusal or a failed insert leaves the form, its visibility and both lists as they were; on success the form is reset and hidden and the lists are those `FetchData` reads (classes by name, students by name with their class names), with the error shown exactly when one of those reads fails |
| AdminStudents.AdminStudentsPage.HandleDeleteStudent | app/admin/students/page.tsx:105-118 | nothing happens without confirmation; a successful delete removes exactly the rows with that id, and the student's grade rows with them, then reads the lists again; the page's lists are then those `FetchData` reads, with the error shown when one of those reads fails; without confirmation nothing on the page changes, and a failed delete changes no table or list and shows an error |
| Database.Db.DeleteStudent | app/admin/students/page.tsx:109 | one delete call; when it succeeds the student rows with that id and the grade rows that refer to them are gone and every other row stays; a failed call changes nothing |
| AdminSettings.MergeSpec | app/admin/settings/page.tsx:55-61 | the updated row keeps its id and email; an untouched or emptied name, role or subject keeps the stored value and a non-empty one replaces it; `is_active` takes the edit whenever it was set, false included; an untouched edit writes back the stored values |
| AdminSettings.EditOf | app/admin/settings/page.tsx:185-186 | picking a user fills every edit field with that user's value, a null name or subject included |
| AdminSettings.PickedEditWritesListed | app/admin/settings/page.tsx:55-61 | saving a freshly picked user without touching a field sends what an empty edit would, writing the listed values onto the stored row and leaving the listed row unchanged |
| AdminSettings.ActiveColumnOnly | app/admin/settings/page.tsx:77-91 | the toggle and the soft delete each write the `is_active` column alone |
| AdminSettings.ToggleTwice | app/admin/settings/page.tsx:75-85 | toggling a user from the shown status and then from the new one restores the table |
| AdminSettings.DeletedUserIsSignedOut | app/admin/settings/page.tsx:87-108 | the soft delete keeps every row and id, leaves the user's rows inactive, and the middleware then signs that user out to the login page on any path |
| AdminSettings.PasswordGuardMatchesEndpoint | app/admin/settings/page.tsx:113-116 | for a selected user the page refuses a password exactly when the endpoint would answer 400 |
| AdminSettings.FilteredUsers | app/admin/settings/page.tsx:145-147 | a user is listed exactly when loaded and the email or the full name (missing as "") contains the term |
| AdminSettings.FilteredUsersSpec | app/admin/settings/page.tsx:145-147 | containment is case-sensitive substring search at some position of the email or name, and the empty term keeps every user in order |
| AdminSettings.AdminSettingsPage.constructor | app/admin/settings/page.tsx:19-29 | the page starts with no users, no selection, no edit and an empty, hidden password field |
| AdminSettings.AdminSettingsPage.FetchUsers | app/admin/settings/page.tsx:35-47 | one read; the list is the profiles when it succeeds and the old list otherwise |
| AdminSettings.AdminSettingsPage.SelectUser | app/admin/settings/page.tsx:184-187 | picking a user selects it and sets the edit to `EditOf` that user |
| AdminSettings.AdminSettingsPage.HandleUpdateUser | app/admin/settings/page.tsx:49-73 | nothing without a selection; otherwise one update of the merged columns on that id, and on success the selection and edit are cleared and the list read again; a failed write changes no row |
| AdminSettings.AdminSettingsPage.HandleToggleActive | app/admin/settings/page.tsx:75-85 | one update setting `is_active` to the opposite of the shown status on that id, then a read of the list when it succeeded |
| AdminSettings.AdminSettingsPage.HandleDeleteUser | app/admin/settings/page.tsx:87-108 | nothing without confirmation; otherwise `is_active` is set to false (the row stays) and, when that succeeds, the delete endpoint is called and the list read again |
| AdminSettings.AdminSettingsPage.HandleChangePassword | app/admin/settings/page.tsx:110-143 | the endpoint is called exactly when a user is selected, the password is non-empty with at least six characters, and the change is confirmed; an accepted change clears and hides the field, anything else leaves it |
| AdminClasses.Removes | app/admin/classes/page.tsx:189-199 | one deletion per given row, by that row's id, in order |
| AdminClasses.Adds | app/admin/classes/page.tsx:202-217 | one insertion per given pair into the edited class, in order |
| AdminClasses.PlanExact | app/admin/classes/page.tsx:189-217 | a save deletes a current row exactly when its teacher/subject pair is not in the edit list, deletes only current rows, and inserts a pair exactly when it is in the edit list and no current row has it, into the edited class |
| AdminClasses.PlanRemovesDoomed | app/admin/classes/page.tsx:189-199 | every deletion of a save removes a current row whose pair the edit list lacks |
| AdminClasses.PlanRemovesExact | app/admin/classes/page.tsx:189-199 | with unique row ids, a current row is deleted exactly when its pair is not in the edit list |
| AdminClasses.PlanAddsExact | app/admin/classes/page.tsx:202-217 | the insertions are exactly the edit pairs that match no current row, into the edited class |
| AdminClasses.DeletesPrecedeInserts | app/admin/classes/page.tsx:189-217 | every delete call is issued before every insert call |
| AdminClasses.RemovesMembership | app/admin/classes/page.tsx:189-199 | after the deletions a row remains exactly when it was there and its id was not deleted |
| AdminClasses.AddsMembership | app/admin/classes/page.tsx:202-217 | after the insertions the table holds the old rows plus one row of the edited class per inserted pair, and nothing else |
| AdminClasses.AddsCover | app/admin/classes/page.tsx:202-217 | every inserted pair is held by some row of the edited class afterwards |
| AdminClasses.SaveResult | app/admin/classes/page.tsx:180-225 | after a save whose writes all succeed, the class holds a pair exactly when the edit list names it |
| AdminClasses.SaveIdempotent | app/admin/classes/page.tsx:180-225 | saving the same edit list a second time, after a fully successful save, issues no write |
| AdminClasses.EditAllowsSharedSubject | app/admin/classes/page.tsx:202-217 | the edit path has no duplicate-subject check: two teachers listed for one subject both end up assigned to it |
| AdminClasses.PairsOf | app/admin/classes/page.tsx:177 | the teacher/subject pair of each row, in order |
| AdminClasses.UnchangedEditWritesNothing | app/admin/classes/page.tsx:175-225 | saving the class's own pairs unchanged plans no write |
| AdminClasses.DeleteWritesArePlanned | app/admin/classes/page.tsx:189-199 | the first loop, one current row at a time, issues exactly the planned deletions |
| AdminClasses.InsertWritesArePlanned | app/admin/classes/page.tsx:202-217 | the second loop, one edit pair at a time, issues exactly the planned insertions |
| AdminClasses.SaveClassChanges | app/admin/classes/page.tsx:180-225 | one read of the class's rows, then the planned deletions and insertions in that order; the table becomes the old one with every write whose call did not fail applied, and the log gains exactly those calls (a failed read plans from an empty list) |
| AdminClasses.CreationCalls | app/admin/classes/page.tsx:125-151 | each inserted form row costs two calls: a duplicate check, then an insert |
| AdminClasses.NewClassSubjects | app/admin/classes/page.tsx:125-151 | in a class no row referred to before, after inserting some form rows, the class has a row with a subject exactly when one of those rows names it |
| AdminClasses.SubjectRows | app/admin/classes/page.tsx:127-131 | the rows of that class with that subject, and only those |
| AdminClasses.FormInsertsAreAdds | app/admin/classes/page.tsx:125-151 | row by row, the creation loop issues the insertions of its form rows in order |
| AdminClasses.DuplicateCheck | app/admin/classes/page.tsx:127-138 | the duplicate check of a form row finds a row exactly when an earlier form row named the same subject |
| AdminClasses.CreationFrom | app/admin/classes/page.tsx:125-151 | the number of rows a creation run inserts lies between where it started and the form's length |
| AdminClasses.CreationFromFacts | app/admin/classes/page.tsx:125-151 | the inserted rows name distinct subjects; a rejection names the first row whose subject came earlier, with the message of line 136; the class is created exactly when the form names distinct subjects and no call fails; only a failed call makes the run fail |
| AdminClasses.AddFormRow | app/admin/classes/page.tsx:126-150 | one form row: a failed check or a found subject inserts nothing; otherwise one row of the new class is inserted and logged |
| AdminClasses.AddFormRows | app/admin/classes/page.tsx:125-151 | the loop ends as the creation run describes, with exactly its first rows inserted and, on success, two calls logged per row |
| AdminClasses.AddClass | app/admin/classes/page.tsx:108-160 | a failed class insert changes nothing else; otherwise the class row is appended with the next id and the form rows are inserted in order up to the first failure or repeated subject; it reports creation exactly when the class insert succeeds, the subjects are distinct and no call fails, and it cannot fail without a failed call |
| AdminClasses.CreationSummary | app/admin/classes/page.tsx:125-151 | what a creation run leaves in the table and reports, read off its description |
| AdminClasses.RemoveRow | app/admin/classes/page.tsx:237-242 | removing form row `index` drops exactly that row and keeps the rest in order; an index out of range removes nothing |
| AdminClasses.RemoveUndoesAdd | app/admin/classes/page.tsx:227-242 | adding an empty row appends one blank pair, and removing it gives back the form |
| AdminClasses.SetRowTeacher | app/admin/classes/page.tsx:314-317 | only the chosen row's teacher changes |
| AdminClasses.SetRowSubject | app/admin/classes/page.tsx:334-337 | only the chosen row's subject changes |
| AdminClasses.Teachers | app/admin/classes/page.tsx:61-64 | exactly the profiles whose role is teacher |
| AdminClasses.TeacherNameSpec | app/admin/classes/page.tsx:85-92 | a teacher's name is the first matching teacher's non-empty full name, and "Unknown" when no teacher has the id |
| AdminClasses.EnrichAssignments | app/admin/classes/page.tsx:85-92 | one view per assignment row, in order, with its teacher and subject, and the teacher name `TeacherName` gives for that teacher (the first teacher profile's non-empty name, or "Unknown") |
| AdminClasses.EditList | app/admin/classes/page.tsx:175-178 | one edit pair per shown assignment |
| AdminClasses.EditOpensOnStoredPairs | app/admin/classes/page.tsx:175-178 | the editor opens on exactly the class's stored pairs, whatever the teacher names, so saving it unchanged writes nothing |
| AdminReports.ClassList | app/admin/reports/page.tsx:58-66 | the class list holds exactly the class rows, sorted by name; a failed read lists none |
| AdminReports.ClassWindowRows | app/admin/reports/page.tsx:76-81 | exactly the grade rows of the class, of any teacher, whose update stamp falls in the chosen month |
| AdminReports.ClassWindowAttendance | app/admin/reports/page.tsx:85-90 | exactly the class's attendance rows dated in the chosen month |
| AdminReports.StudentIds | app/admin/reports/page.tsx:92 | each student id the rows name, once |
| AdminReports.TeacherIds | app/admin/reports/page.tsx:93 | each teacher id the rows name, once |
| AdminReports.StudentsIn | app/admin/reports/page.tsx:95 | exactly the students whose id is in the list |
| AdminReports.ProfilesIn | app/admin/reports/page.tsx:97 | exactly the profiles whose id is in the list |
| AdminReports.StudentLabelSpec | app/admin/reports/page.tsx:102-106 | a student label is "غير معروف" or the name of a student with that id; it is "غير معروف" when no student has it, and the first matching student's name whenever that is non-empty |
| AdminReports.TeacherLabelSpec | app/admin/reports/page.tsx:103-109 | a teacher label is "غير معروف" or the full name of a profile with that id; it is "غير معروف" when no profile has it, and the first matching profile's full name whenever that is present and non-empty |
| AdminReports.ClassLabelSpec | app/admin/reports/page.tsx:99-107 | a class label is "غير معروف" or the name of a class with that id; it is "غير معروف" when no class has it, and the first matching class's name whenever that is non-empty |
| AdminReports.ReadByIdsKeepsNames | app/admin/reports/page.tsx:92-103 | reading only the students and teachers the rows name labels every row as the whole tables would |
| AdminReports.Entry | app/admin/reports/page.tsx:105-119 | the entry keeps the row's components, takes 0 for a missing total and "غير معروف" for an empty subject |
| AdminReports.Entries | app/admin/reports/page.tsx:101-120 | one entry per grade row, in order |
| AdminReports.BuildAdminReportSpec | app/admin/reports/page.tsx:68-130 | no report exactly when the grade read fails; otherwise one entry per grade row of the class in the month, in table order, with the class label and the student and teacher labels of the whole tables, or "غير معروف" when those reads fail |
| AdminReports.AdminAttendance | app/admin/reports/page.tsx:85-123 | the class's attendance rows in the month, or none when that unchecked read fails |
| AdminReports.AdminTableMatchesCsv | app/admin/reports/page.tsx:151-165 | the table has the export's columns but the class; a missing component is "-" in the table and blank in the export; a non-zero component is the same text in both; a whole total gains ".0" in the table (see also lines 313-326) |
| AdminReports.AdminRowShape | app/admin/reports/page.tsx:151-165 | where each column of the export row and of the table row comes from (see also lines 313-326) |
| AdminReports.AdminCell | app/admin/reports/page.tsx:156-163 | one component: "-" in the table exactly when missing, blank in the export when missing, the same text when non-zero (see also lines 316-323) |
| AdminReports.AdminCsvLosesZero | app/admin/reports/page.tsx:156 | as written, a component of 0 exports as an empty field, like a missing one, while the table shows "0" |
| AdminReports.NullishCsvMatchesTable | app/admin/reports/page.tsx:156-163 | with `??`, an export field is blank exactly when the table shows "-", which is exactly when the component is missing, and is otherwise the table's text (see also lines 316-323) |
| AdminReports.AdminCsvRows | app/admin/reports/page.tsx:151-165 | one export row per entry, in order |
| AdminReports.ExportAdminCsv | app/admin/reports/page.tsx:132-174 | no download exactly when the report is empty; the file is named after the class id and the day's date |
| AdminReports.AdminCsvRowFree | app/admin/reports/page.tsx:151-165 | a field of an export row holds a comma or line break only when a name or subject does |
| AdminReports.AdminExportLines | app/admin/reports/page.tsx:167 | when no name or subject holds a line break, the export is the header line and then one line per entry, its thirteen fields joined by commas |
| AdminReports.Generate | app/admin/reports/page.tsx:68-130 | the report is missing exactly when the grade read fails |
| AdminReports.AdminReportsPage.constructor | app/admin/reports/page.tsx:27-34 | empty lists, no class selected, report type "class", the current year and month |
| AdminReports.AdminReportsPage.FetchClasses | app/admin/reports/page.tsx:58-66 | one read; the list is the classes by name, or empty when the read fails |
| AdminReports.AdminReportsPage.GenerateClassReport | app/admin/reports/page.tsx:68-130 | nothing without a class; a failed grade read alerts and keeps the old report after one call; otherwise four reads and the report and attendance become those computed from the tables |
| Database.InClass | app/admin/classes/page.tsx:186-188 | exactly the assignment rows of the class |
| Database.ClassEntries | app/teacher/students/page.tsx:66-68 | when every joined class row is present, one class entry per assignment, in order, with that assignment's class id |
| Database.ClassEntriesPresent | app/teacher/students/page.tsx:68 | the join succeeds whenever every assignment's class row exists |
| Database.NewAssignment | app/admin/classes/page.tsx:142-148 | an inserted assignment carries the class and the pair it was given, under an id the table does not use |
| Database.AssignmentCalls | app/admin/classes/page.tsx:189-217 | one call per write: a delete by id or an insert |
| Database.ApplyAssignmentWritesUnique | app/admin/classes/page.tsx:189-217 | deletions and insertions keep assignment ids unique |
| Database.SetMaxima | app/admin/grade-schema/page.tsx:73-77 | the rows with that id take the new maxima; the others are unchanged |
| Database.SetGradeField | app/teacher/grades/page.tsx:124-127 | the rows with that id get the new component value; nothing else changes |
| Database.ApplyProfileUpdate | app/admin/settings/page.tsx:55-61 | an update never changes a profile's id or email |
| Database.UpdateProfiles | app/admin/settings/page.tsx:55-91 | the rows with that id take the updated columns; the others are unchanged |
| Database.Db.NextClassId | app/admin/classes/page.tsx:115-122 | a new class id is used by no class and named by no assignment |
| Database.Db.NextStudentId | app/admin/students/page.tsx:82-88 | a new student id is used by no student and named by no grade row |
| Database.Db.constructor | app/admin/classes/page.tsx:115-122 | an empty database with an empty log |
| Database.Db.Read | app/admin/reports/page.tsx:60 | a read is logged and changes no table |
| Database.Db.Post | app/admin/settings/page.tsx:96-121 | a request to an endpoint is logged and changes no table |
| Database.Db.InsertClass | app/admin/classes/page.tsx:115-122 | one logged insert; on success the class row is appended under the next id, which is returned; on failure nothing changes |
| Database.Db.WriteAssignment | app/admin/classes/page.tsx:142-148 | one logged delete or insert on the assignments; it takes effect only when the call succeeds, and keeps ids unique (see also lines 194-214) |
| Database.Db.InsertStudent | app/admin/students/page.tsx:82-88 | one logged insert; on success one student row with the given name, class and seat number and a fresh id, no national id, is appended |
| Database.Db.InsertGrade | app/teacher/students/page.tsx:144-151 | one logged insert; on success one grade row of that student, class, teacher and subject, with no component, no total and not locked, is appended |
| Database.Db.UpdateGrade | app/teacher/grades/page.tsx:124-127 | one logged update naming that column; on success only that component of the rows with that id changes |
| Database.Db.UpdateProfile | app/admin/settings/page.tsx:55-91 | one logged update naming the columns it sends; on success only those columns of the rows with that id change |
| Database.Db.InsertSchema | app/admin/grade-schema/page.tsx:81 | one logged insert; on success one schema row with the given maxima and a fresh id is appended |
| Database.Db.UpdateSchema | app/admin/grade-schema/page.tsx:73-77 | one logged update of the eight maxima columns on the row with that id |
| Calendar.JsDayZero | app/teacher/reports/page.tsx:94 | `new Date(y, m, 0)` with the one-based month shown is a valid date: the last day of that month |
| Calendar.FebruaryEnd | app/admin/reports/page.tsx:74 | the window of February ends on the 29th exactly in leap years (2024, 2000) and on the 28th otherwise (2023, 2100) |
| Calendar.WindowBounds | app/teacher/reports/page.tsx:93-94 | for four-digit years, the lower bound is the ISO date of the month's first day and the upper bound that of its last day followed by "T23:59:59" |
| Calendar.DateWindowIsMonth | app/admin/reports/page.tsx:89-90 | a date passes the window exactly when it lies in the chosen calendar month |
| Calendar.StampWindowIsMonth | app/admin/reports/page.tsx:80-81 | a timestamp passes the window exactly when it lies in the chosen month, except for the fraction of a second after 23:59:59 on its last day |
| TeacherReports.ReportClasses | app/teacher/reports/page.tsx:60-83 | without a session the picker is left as it was; a failed read lists no class; otherwise the same classes as the grade page, each one the teacher is assigned to |
| TeacherReports.WindowRows | app/teacher/reports/page.tsx:96-102 | exactly the teacher's grade rows of the class whose update stamp falls in the window |
| TeacherReports.WindowGradesSpec | app/teacher/reports/page.tsx:96-103 | the report's rows are exactly the teacher's rows of the class updated in the window, all subjects together, a permutation of them sorted by student id |
| TeacherReports.WindowAttendance | app/teacher/reports/page.tsx:107-113 | exactly the teacher's attendance records of the class dated in the window |
| TeacherReports.WindowAttendanceIsMonth | app/teacher/reports/page.tsx:107-113 | a well-formed record is read exactly when it is the teacher's, of the class, and dated in the chosen calendar month |
| TeacherReports.Processed | app/teacher/reports/page.tsx:117-131 | one entry per grade row, in order, with its subject, total and components |
| TeacherReports.ProcessedNames | app/teacher/reports/page.tsx:118 | each entry's name is the one the grade page shows for that row: "Unknown" or the name of a student with the row's id, and the first such student's name whenever that is non-empty |
| TeacherReports.ClassName | app/teacher/reports/page.tsx:115-134 | the class name is "Unknown" or the name of a picker entry with that id; it is "Unknown" when there is none, and the first matching entry's name whenever that is non-empty |
| TeacherReports.ReadAttendance | app/teacher/reports/page.tsx:107-137 | the window's records, or none when that unchecked read fails |
| TeacherReports.BuildReportSpec | app/teacher/reports/page.tsx:85-143 | one entry per grade row of the window, in student-id order, with its subject, total and components; a failed grade read gives an empty report, a failed student read names every entry "Unknown" |
| TeacherReports.CsvMatchesTable | app/teacher/reports/page.tsx:150-162 | the export and the grade table have the header's eleven columns; a component is blank in the export exactly when the table shows "-", which is when it is missing or zero; every other cell is the same text in both (see also lines 332-342) |
| TeacherReports.BlankCells | app/teacher/reports/page.tsx:153 | one component: blank in the export exactly when "-" in the table, which is when it is missing or zero (see also lines 334) |
| TeacherReports.CsvRows | app/teacher/reports/page.tsx:150-162 | one export row per entry, in order |
| TeacherReports.ExportCsv | app/teacher/reports/page.tsx:145-171 | no download exactly when there is no report; the file name starts with "report-", the class name and "-" |
| TeacherReports.CsvRowFree | app/teacher/reports/page.tsx:150-162 | a field of an export row holds a comma or line break only when the name or subject does |
| TeacherReports.CsvFreeOf | app/teacher/reports/page.tsx:148-164 | no header label or cell holds a comma or line break when no name or subject does |
| TeacherReports.ExportLines | app/teacher/reports/page.tsx:164 | when no name or subject holds a line break, the export is the header line and then one line per entry, in order |
| TeacherReports.ExportFields | app/teacher/reports/page.tsx:148-164 | when no name or subject holds a comma or line break either, every line reads back as its eleven fields |
| TeacherReports.PresentAbsentSplit | app/teacher/reports/page.tsx:275-277 | every record counts once, as present or as absent |
| TeacherReports.RoundedTenthsNearest | app/teacher/reports/page.tsx:278 | the percentage is rounded to the nearest tenth, a tie going up |
| TeacherReports.RoundedTenthsBounds | app/teacher/reports/page.tsx:278 | the percentage lies between 0.0 and 100.0; it is 100.0 when every record is a presence and 0.0 when none is |
| TeacherReports.PercentTextValues | app/teacher/reports/page.tsx:278 | no records show "0.0"; one of three shows "33.3", two of three "66.7", three of three "100.0" |
| TeacherReports.AttendanceTable | app/teacher/reports/page.tsx:271-278 | as written: one line per entry |
| TeacherReports.AttendanceTableRepeats | app/teacher/reports/page.tsx:271-278 | as written, the filter compares an entry with itself, so every line counts every record of the month and all lines show the same counts |
| TeacherReports.AttendanceTableCounterexample | app/teacher/reports/page.tsx:271-278 | with one absent and one present student, as written both lines read one present, one absent, "50.0" |
| TeacherReports.StudentRecords | app/teacher/reports/page.tsx:272-274 | exactly the records of one student |
| TeacherReports.StudentAttendanceOwn | app/teacher/reports/page.tsx:271-278 | as intended, a line counts exactly its student's records, and another student's record never changes it |
| TeacherReports.StudentAttendanceExample | app/teacher/reports/page.tsx:271-278 | as intended, the same sample reads "0.0" for the absent student and "100.0" for the present one |
| TeacherReports.TeacherReportsPage.constructor | app/teacher/reports/page.tsx:30-36 | no class, no report, no records, the current year and month |
| TeacherReports.TeacherReportsPage.FetchTeacherClasses | app/teacher/reports/page.tsx:60-83 | no call without a session; otherwise one read and the picker as the class list gives it |
| TeacherReports.TeacherReportsPage.SelectMonth | app/teacher/reports/page.tsx:191 | the chosen month, one of 1 to 12 |
| TeacherReports.TeacherReportsPage.GenerateReport | app/teacher/reports/page.tsx:85-143 | nothing without a class or session; otherwise three reads in order, and the report and records are those the tables give |
| TeacherGrades.KeyIndex | app/teacher/grades/page.tsx:53 | the position of the entry with that class id, or none exactly when no entry has it |
| TeacherGrades.MapValuesFacts | app/teacher/grades/page.tsx:53 | the `Map` built from the assignments holds one assignment per class id they name, each one of them |
| TeacherGrades.MapSetFacts | app/teacher/grades/page.tsx:53 | setting one more key keeps one entry per class id and covers every assignment seen so far |
| TeacherGrades.TeacherAssignments | app/teacher/grades/page.tsx:46-49 | exactly the assignments of the teacher |
| TeacherGrades.GradeClasses | app/teacher/grades/page.tsx:41-66 | the picker fails without a session or on a failed read; otherwise its entries have distinct ids, each a class the teacher has an assignment in |
| TeacherGrades.EntriesOfMine | app/teacher/grades/page.tsx:53-60 | the entries joined from one teacher's assignments have distinct ids, each the class of one of them |
| TeacherGrades.GradeClassesCover | app/teacher/grades/page.tsx:41-66 | with every class row present, every class the teacher has an assignment in is listed |
| TeacherGrades.ClassSubjectRows | app/teacher/grades/page.tsx:75-80 | exactly the teacher's assignments in the class, sorted by subject |
| TeacherGrades.Subjects | app/teacher/grades/page.tsx:82 | the subject of each row, in order |
| TeacherGrades.TeacherSubjectsSpec | app/teacher/grades/page.tsx:75-82 | the subjects listed are exactly those the teacher teaches in the class, in ascending order |
| TeacherGrades.ChosenSubject | app/teacher/grades/page.tsx:83-85 | the first subject when there is one and it is not empty, and no subject otherwise |
| TeacherGrades.ChosenSubjectIsFirst | app/teacher/grades/page.tsx:75-91 | the grading view uses only the least of the teacher's subjects in the class under code-point order (the database's collation may choose another; see "Row order") |
| TeacherGrades.ChosenSubjectBlank | app/teacher/grades/page.tsx:83-89 | no subject is chosen exactly when the teacher has no assignment in the class or one with an empty subject |
| TeacherGrades.SubjectGrades | app/teacher/grades/page.tsx:94-99 | exactly the teacher's grade rows of that subject in the class |
| TeacherGrades.ShownRowsSpec | app/teacher/grades/page.tsx:94-100 | the rows shown are exactly the teacher's rows of that subject in the class, a permutation of the filtered rows (same multiset), sorted by student id |
| TeacherGrades.ClassStudents | app/teacher/grades/page.tsx:105 | exactly the students of the class |
| TeacherGrades.StudentNameSpec | app/teacher/grades/page.tsx:110 | the name is the first matching student's when it is non-empty, and "Unknown" when no student matches or the name is empty |
| TeacherGrades.Enrich | app/teacher/grades/page.tsx:107-111 | every row unchanged, in order, with the student name `StudentName` gives for its student id (the first match's non-empty name, or "Unknown") |
| TeacherGrades.EnrichNames | app/teacher/grades/page.tsx:110 | each name shown is "Unknown" or the name of a student with the row's id, and the first such student's name whenever that is non-empty |
| TeacherGrades.TotalCellShape | app/teacher/grades/page.tsx:260 | a missing total and a zero total both show "0.0", and every total shows exactly one decimal, 0 or 5 |
| TeacherGrades.NumValue | app/teacher/grades/page.tsx:121 | an empty input is no value and a number is that number (see also lines 245) |
| TeacherGrades.LocalEdit | app/teacher/grades/page.tsx:241-249 | only the rows with that id change, and in them only that one component, which takes the new value |
| TeacherGrades.Rows | app/teacher/grades/page.tsx:107-111 | the stored rows behind the shown ones, in order |
| TeacherGrades.LocalEditMatchesWrite | app/teacher/grades/page.tsx:120-127 | the local edit shows exactly what the database write of the same cell stores (see also lines 241-249) |
| TeacherGrades.WriteIgnoresLockAndMaximum | app/teacher/grades/page.tsx:120-127 | a locked row is written all the same, and no maximum is applied to the value |
| TeacherGrades.SubjectView | app/teacher/grades/page.tsx:94-113 | after the subject is chosen, the grade read fails exactly when its call fails; otherwise the rows are shown, always for that subject |
| TeacherGrades.FetchViewSpec | app/teacher/grades/page.tsx:68-118 | nothing without a class; an error without a session; an empty table exactly when the subject read fails or the teacher has no subject there (or an empty one); otherwise the least subject, then an error when the grade read fails or else exactly that subject's rows of the teacher, sorted by student id |
| TeacherGrades.SubjectAfter | app/teacher/grades/page.tsx:85-91 | the subject is cleared when there is none and set before the grade read |
| TeacherGrades.GradesAfter | app/teacher/grades/page.tsx:85-113 | the table is emptied when there is no subject, replaced when shown, and kept otherwise |
| TeacherGrades.FetchCalls | app/teacher/grades/page.tsx:68-105 | no call without a class or session; otherwise the subject read comes first |
| TeacherGrades.SubjectCalls | app/teacher/grades/page.tsx:94-105 | the student read follows exactly when the grade read succeeds |
| TeacherGrades.GradesPage.constructor | app/teacher/grades/page.tsx:29-34 | no classes, no class selected, no subject, no rows, no error |
| TeacherGrades.GradesPage.FetchTeacherClasses | app/teacher/grades/page.tsx:41-66 | one read with a session; the picker takes the class list when it is built, and the error shows when it is not |
| TeacherGrades.GradesPage.FetchGrades | app/teacher/grades/page.tsx:68-118 | the calls and the subject, rows and error that the description of the run gives |
| TeacherGrades.GradesPage.ShowSubject | app/teacher/grades/page.tsx:94-117 | the grade read and, unless it fails, the student read, with the rows and error that gives |
| TeacherGrades.GradesPage.SelectClass | app/teacher/grades/page.tsx:166-171 | the class is selected and its grades are loaded |
| TeacherGrades.GradesPage.EditCell | app/teacher/grades/page.tsx:241-249 | the shown rows change at once by the local edit; nothing is written |
| TeacherGrades.GradesPage.HandleGradeChange | app/teacher/grades/page.tsx:120-137 | one update of that column of that grade id, whatever its lock; a failed write shows the error and reloads nothing; a successful one reloads the selected class (see also lines 250-253) |
| TeacherStudents.UniqueAfter | app/teacher/students/page.tsx:66-73 | the kept entries come from the list, skip the ids already seen, and carry pairwise distinct ids |
| TeacherStudents.UniqueClassesIds | app/teacher/students/page.tsx:66-73 | the de-duplicated list's ids are exactly the distinct ids of the assignment rows, first occurrences first, in order |
| TeacherStudents.UniqueClassesCover | app/teacher/students/page.tsx:66-73 | every class id of the input keeps an entry |
| TeacherStudents.TeacherClasses | app/teacher/students/page.tsx:54-84 | the class list has distinct ids, each from one of the session teacher's assignments; empty without a session |
| TeacherStudents.TeacherClassesCover | app/teacher/students/page.tsx:59-73 | every class the session teacher is assigned to appears in the list |
| TeacherStudents.AutoSelect | app/teacher/students/page.tsx:76-78 | a non-empty list selects its first class; an empty one keeps the previous selection |
| TeacherStudents.GradeInserts | app/teacher/students/page.tsx:143-152 | n grade inserts, one per assignment |
| TeacherStudents.Succeeded | app/teacher/students/page.tsx:143-152 | the enrolled assignments are at most as many as were tried |
| TeacherStudents.EnrollInSubjects | app/teacher/students/page.tsx:142-153 | one grade insert per assignment, in order; the grade table grows by one row per insert that took effect, carrying the student, the class, that assignment's teacher and subject and no component values |
| TeacherStudents.SucceededAll | app/teacher/students/page.tsx:143-152 | with no failed insert every assignment is enrolled, in order |
| TeacherStudents.SucceededFewer | app/teacher/students/page.tsx:143-152 | one failed insert leaves fewer enrolled assignments than were tried |
| TeacherStudents.AddStudent | app/teacher/students/page.tsx:108-164 | an empty name or class, or no session, stops before any call; a class without assignments stops after the read and inserts nothing; a failed student insert stops there; otherwise exactly one student row with the form's name, seat number and class and a fresh id, then the fan-out; assignments untouched |
| TeacherStudents.EnrollmentComplete | app/teacher/students/page.tsx:129-153 | with every insert succeeding the new student has exactly one grade row per assignment of the class, in order, appended after the existing rows |
| TeacherStudents.PartialEnrollment | app/teacher/students/page.tsx:143-152 | the inserts are unchecked: one failure leaves fewer grade rows than the class has assignments |
| TeacherStats.TotalSumBounds | app/teacher/dashboard/page.tsx:60 | the reduce of totals, a missing one counting 0, stays between the row count times the least and the greatest total |
| TeacherStats.StudentCount | app/teacher/dashboard/page.tsx:46-65 | the number of the class's students, or 0 when the count is missing |
| TeacherStats.AverageNearest | app/teacher/dashboard/page.tsx:59-68 | the shown average is the hundredth of a point nearest the exact mean, a tie rounding up as Math.round does |
| TeacherStats.AverageRange | app/teacher/dashboard/page.tsx:59-68 | a sum within 0 and n times a bound averages within 0 and that bound |
| TeacherStats.AverageBounds | app/teacher/dashboard/page.tsx:59-68 | totals within 0 and a bound give an average within 0 and that bound |
| TeacherStats.TeacherClassRows | app/teacher/dashboard/page.tsx:52-56 | exactly the grade rows of that class and teacher |
| TeacherStats.StatsFor | app/teacher/dashboard/page.tsx:44-69 | the card carries the class name and the student count; graded counts the class's rows of the teacher with a total above 0; pending is students minus graded, unclamped; after a successful grade read the average is `AverageHundredths` of the rows' total sum over their count (0 with no rows; rounded to hundredths by `AverageNearest`); a failed grade read gives 0 graded and a 0 average |
| TeacherStats.StatsList | app/teacher/dashboard/page.tsx:43-71 | one card per class entry, in order, each from its own two reads |
| TeacherStats.DashboardSpec | app/teacher/dashboard/page.tsx:25-73 | one card per distinct class of the teacher's assignments, no class twice, every assigned class present, each card named after its class row |
| TeacherStats.ClassEntryName | app/teacher/dashboard/page.tsx:38-64 | the i-th card's name is the joined class row's name of the i-th class |
| TeacherStats.PendingCanBeNegative | app/teacher/dashboard/page.tsx:58-67 | a teacher with two graded subjects in a one-student class sees 1 student, 2 graded and -1 pending |
| TeacherStats.UngradedRowsAverageZero | app/teacher/dashboard/page.tsx:58-61 | rows whose totals are all missing or 0 give 0 graded and a 0 average |
| TeacherStats.SubjectRows | app/teacher/classes/page.tsx:58-63 | exactly the grade rows of that class, teacher and subject |
| TeacherStats.DetailFor | app/teacher/classes/page.tsx:52-73 | the card carries the assignment's class id, class name and subject, the class's student count (0 when missing) and the count of its subject rows with a total above 0; none when the class row is missing |
| TeacherStats.DetailList | app/teacher/classes/page.tsx:51-75 | one card per assignment, in order, each from its own two reads; the whole list fails when one class row is missing |
| TeacherStats.ClassDetailsSpec | app/teacher/classes/page.tsx:25-84 | no assignment gives an empty list; otherwise one card per assignment, in order, so a class shows once per subject; the list fails exactly when a class row is missing |
| TeacherStats.Progress | app/teacher/classes/page.tsx:146-150 | the bar width is a non-negative fraction with a positive denominator, 0 for a class without students |
| TeacherStats.ProgressSpec | app/teacher/classes/page.tsx:146-150 | the bar is empty exactly when nothing is graded or there is no student, full exactly when graded equals students, past 100% exactly when graded exceeds students |
| GradeSchemaPage.TotalSumsFields | app/admin/grade-schema/page.tsx:27-94 | the total is the sum of the eight maxima, and the default maxima add up to 75 |
| GradeSchemaPage.SetMax | app/admin/grade-schema/page.tsx:27-36 | one maximum replaced, the other seven kept |
| GradeSchemaPage.SetMaxTotal | app/admin/grade-schema/page.tsx:94 | changing one maximum changes the total by the difference |
| GradeSchemaPage.EditField | app/admin/grade-schema/page.tsx:27-36 | a field's input stores its value unchecked in that field only; the rest of the page is unchanged |
| GradeSchemaPage.Cancel | app/admin/grade-schema/page.tsx:283-286 | editing ends; with a stored schema the form is restored from it, otherwise the form is kept |
| GradeSchemaPage.CancelUndoesEdits | app/admin/grade-schema/page.tsx:283-286 | with a stored schema, an edit followed by cancel leaves the same form as cancel alone |
| GradeSchemaPage.SingleRow | app/admin/grade-schema/page.tsx:47-52 | the single-row read fails exactly when the request fails, and finds the row exactly when the table holds one; zero or several rows give the not-found code |
| GradeSchemaPage.FetchSchemaSpec | app/admin/grade-schema/page.tsx:45-63 | an error shows exactly when the read fails; one stored row becomes the schema and the whole form; the not-found code changes nothing |
| GradeSchemaPage.HandleSave | app/admin/grade-schema/page.tsx:65-92 | with a loaded schema, one update of that row by id with the form's maxima; without one, one insert of a fresh row holding them; values unchecked; a failed write shows the error and reads nothing; a successful one reads the schema again |
| GradeSchemaPage.UpdateReadsBack | app/admin/grade-schema/page.tsx:71-88 | saving a loaded schema and reading it back loads the saved maxima, with the success message and the form closed |
| GradeSchemaPage.FirstInsertLoads | app/admin/grade-schema/page.tsx:79-88 | the first save into an empty table inserts the row and loads it with its id |
| GradeSchemaPage.InsertIntoNonEmptyNeverLoads | app/admin/grade-schema/page.tsx:50-88 | with two or more rows the single read keeps failing, so no schema loads and the next save inserts again |
| GradeSchemaPage.ReduceString | app/admin/grade-schema/page.tsx:94 | once a string enters the reduce, its result is a string |
| GradeSchemaPage.ShownTotalBeforeLoad | app/admin/grade-schema/page.tsx:27-94 | before a load the reduce is the numeric sum of the eight maxima |
| GradeSchemaPage.ShownTotalAfterLoad | app/admin/grade-schema/page.tsx:54-94 | after a load the form holds the row's id and the reduce yields a string |
| GradeSchemaPage.ShownTotalConcatenates | app/admin/grade-schema/page.tsx:54-94 | with the default maxima and the id "s1" the total shows "0s11010101020555" |
| GradeSchemaPage.ShownTotal | app/admin/grade-schema/page.tsx:94 | the intended total is the sum of the eight maxima over the component list (see also lines 272) |
| GradeSchemaPage.ShownTotalAgrees | app/admin/grade-schema/page.tsx:27-94 | the intended total is 75 before a load and the stored row's total after one, and matches the as-written reduce whenever no id is in the form |
| Common.Filter | app/admin/settings/page.tsx:145-147 | `Array.filter`: no longer than the input, and holding exactly the input's elements that pass |
| Common.FilterKeepsAll | app/admin/audit-logs/page.tsx:64-68 | a filter every element passes keeps the whole sequence, in order |
| Common.Find | app/admin/students/page.tsx:58-61 | `Array.find`: nothing exactly when no element passes, otherwise the first element that passes |
| Common.FindFirst | app/admin/students/page.tsx:58-61 | `Array.find` returns the element at the first passing position, whatever passes after it |
| Common.FindFilter | app/admin/reports/page.tsx:95-103 | a lookup in the rows read by id list finds what a lookup in the whole table finds, for an id in the list |
| Common.Distinct | app/admin/reports/page.tsx:92-93 | `[...new Set(xs)]`: exactly the elements of the input, none twice, starting with the first |
| Text.NatText | app/teacher/reports/page.tsx:93 | `String(n)`: at least one digit, a single one exactly below 10, ending in the last decimal digit, with no leading zero |
| Text.NatTextValue | app/teacher/reports/page.tsx:93 | the printed digits, read as a decimal numeral, denote the number printed |
| Text.NatTextDigits | app/teacher/reports/page.tsx:93 | every character of a printed natural number is a decimal digit |
| Text.PadStart | app/teacher/reports/page.tsx:93 | `padStart`: the text grows to the width, ends with the original, and is filled in front |
| Text.ScoreText | app/teacher/reports/page.tsx:150-164 | a printed score is never empty |
| Text.ScoreFixed1 | app/admin/reports/page.tsx:325 | a score printed with one decimal is never empty |
| Text.SplitPlain | app/teacher/reports/page.tsx:164 | a piece without the separator splits to itself |
| Text.SplitAt | app/teacher/reports/page.tsx:164 | a text split at its first separator gives the piece before it and the split of the rest |
| Text.SplitJoin | app/teacher/reports/page.tsx:164 | splitting a join gives the pieces back when no piece holds the separator |
| Text.JoinContains | app/teacher/reports/page.tsx:164 | a joined text holds the separator exactly when it has several pieces or a piece holds it |
| Cells.ScoreTextShape | app/teacher/reports/page.tsx:334-342 | a printed score is neither empty nor a lone "-" |
| Cells.ScoreTextPlain | app/teacher/reports/page.tsx:150-164 | a printed score holds no comma and no line break |
| Cells.CellsPlain | app/teacher/reports/page.tsx:150-164 | no cell of a score holds a comma or line break unless its blank text does |
| Cells.OrHidesZero | app/admin/reports/page.tsx:156-163 | `v \|\| blank` and `v ?? blank` differ exactly on a score of 0, which `\|\|` blanks and `??` prints as "0" (see also lines 316-323) |
| Cells.OrCellBlank | app/teacher/reports/page.tsx:153-160 | an empty CSV field or a "-" cell appears exactly for a null or zero component (see also lines 334-341) |
| Cells.OrCells | app/teacher/reports/page.tsx:153-160 | eight cells, the k-th the `\|\|` cell of the k-th component in column order (see also lines 334-341) |
| Cells.NullishCells | app/admin/reports/page.tsx:316-323 | eight cells, the k-th the `??` cell of the k-th component in column order |
| Cells.FixedAddsDecimal | app/admin/reports/page.tsx:325 | `toFixed(1)` prints a whole score with ".0" and a half score as `String` does |
| Cells.JoinEach | app/teacher/reports/page.tsx:164 | one line per row, each the row's fields joined by commas |
| Cells.CsvLines | app/teacher/reports/page.tsx:164 | with no line break in a field, the CSV text splits into the header line and one line per row, rows + 1 lines |
| Cells.CsvFields | app/teacher/reports/page.tsx:164 | with no comma in a field, each line splits back into its fields |
| Cells.CommaSplitsField | app/teacher/reports/page.tsx:164 | nothing is quoted: a field "a,b" reads back as two fields |
| Ordering.KeyLeTotal | app/admin/audit-logs/page.tsx:35 | any two sort keys are comparable |
| Ordering.KeyLeTransitive | app/admin/audit-logs/page.tsx:35 | the key order is transitive |
| Ordering.KeyLeAntisymmetric | app/admin/audit-logs/page.tsx:35 | keys ordered both ways are equal |
| Ordering.TextKey | app/admin/students/page.tsx:47-53 | a text column's key has one code per character |
| Ordering.InsertBy | app/admin/students/page.tsx:47-53 | inserting adds exactly the one element |
| Ordering.InsertBySorted | app/admin/students/page.tsx:47-53 | inserting into a sorted sequence keeps it sorted |
| Ordering.SortBy | app/admin/students/page.tsx:47-53 | `order(...)`: the rows in ascending key order, a permutation of the table |
| Records.Set | app/teacher/grades/page.tsx:243-248 | `{ ...row, [field]: v }` on the components: the named one becomes v and the other seven are unchanged |
| Records.ComponentsExt | app/teacher/grades/page.tsx:243-248 | components agreeing on every field are equal |

## Left out

- **Rendering.** React rendering, hooks, loading flags, layouts, print styles and `window.print` are not modelled. A message box is a boolean or an outcome value, and the exact error texts of failed database calls are dropped. Timers are not modelled: the grades page clears its error message three seconds after a failed save, and `GradesPage.HandleGradeChange` leaves the error set.
- **`console.error`, `alert`, `confirm` and `router.back`.** They are either dropped or become parameters. A confirmation, for example, is a `confirmed` flag.
- **The database and the auth service.**
  - Network calls, row-level policies and the upstream password call are not modelled.
  - Each call's outcome is a parameter, either an ok flag or membership in `faults`.
  - New row ids are `FreshId`: a text longer than every id in use. It stands in for the database's generated UUIDs.
  - Deleting a student also deletes that student's grade rows. The model treats this as a database cascade and includes it in `Database.Db.DeleteStudent`.
- **Concurrency.** `Promise.all` lookups are modelled as running one after another, with consecutive call numbers.
- **Floating point.**
  - The attendance percentage is exact round-half-up tenths, not a binary `toFixed(1)`.
  - The dashboard average is hundredths of a point rounded half up, as `Math.round` does, on exact rationals.
  - The progress bar width is an exact fraction.
- **Number parsing.** `parseInt` and `parseFloat` of a form field are not modelled as text parsing. A field holds a number of half points or nothing, so a `NaN` from unparsable text is not represented.
- **Time.**
  - Time zones are left out: `toISOString` turns the window end into UTC, and the model keeps the local calendar date.
  - `toLocaleString`, the export file name's date and the report pages' year picker are left out. The year is a parameter.
  - The clock stamp on new grade rows is a parameter.
- **CSV download plumbing.** The Blob, the object URL and the link click are not modelled. An export is the file name and the text it would download.
- **The middleware's cookie copying** (lib/supabase/middleware.ts:17-27) is not modelled.
- **Row order.**
  - The admin report's grade query has no `order`, so it is modelled in table order.
  - The settings page orders users by `created_at`, which the profile record does not carry, so the list is modelled in table order.
  - Text order is code-point order, as under a C collation, and ties keep table order. The database sorts `.order("name")` and `.order("subject")` by its own collation and leaves ties unspecified. Under a locale collation such as en_US, "math" sorts before "Science", the reverse of code-point order. So the order of the class and student lists, and the subject `TeacherGrades.ChosenSubject` picks, can differ from the program's under such a collation.
- **Text.**
  - Strings are sequences of characters: lengths count characters rather than UTF-16 code units.
  - `Common.Lower` folds ASCII letters only.
  - A label lookup by a key such as `constructor`, which a JavaScript object inherits, is not modelled.
- **Form attributes.** HTML `required`, `min` and `step` are not enforced by the handlers and are not modelled.
- **Request body types.** The password endpoint's body fields are strings or missing; a non-string `newPassword` is not modelled.
- **Audit log values.** The audit log's `old_values` and `new_values` columns are not part of the audit-log record.
- **Success messages.** These appear only as the success flag or outcome.
- **Unused data.** The administrator's report reads the month's attendance and never shows it. The model performs the read and keeps the rows, and nothing further is said about them.
- **Operations not modelled:**
  - `handleDeleteClass` of app/admin/classes/page.tsx:162-173;
  - the per-class loop of that page's `fetchData` (58-106), apart from its teacher-name enrichment (`AdminClasses.EnrichAssignments`);
  - `fetchStudents` (app/teacher/students/page.tsx:86-106) and `handleDeleteStudent` (166-182) of the teacher's student page. The delete is the same single call as `AdminStudents.AdminStudentsPage.HandleDeleteStudent`.
- **Stored schema row shape.** The grade-schema total assumes the stored row has the id column followed by the eight maxima, the fields the page's record type declares. Other columns the table may have are not modelled.

## Findings

| source | as written | input that shows it | evidently intended | confidence | as-written member | corrected member |
|---|---|---|---|---|---|---|
| app/teacher/reports/page.tsx:271-278 | the attendance filter compares an entry's name with itself, so it keeps every record | one absent record for Ali and one present record for Sara: both lines read 1 present, 1 absent, "50.0" | each line counts only the records of that line's student: Ali "0.0", Sara "100.0" | high, not executed | TeacherReports.AttendanceTableCounterexample | TeacherReports.StudentAttendanceOwn |
| app/admin/reports/page.tsx:156-163 | the CSV blanks a component with `\|\|`, while the table (lines 316-323) prints it with `??` | a component of 0: the table shows "0" and the CSV field is empty | the export shows what the table shows, blanking only a missing value | medium, not executed | AdminReports.AdminCsvLosesZero | AdminReports.NullishCsvMatchesTable |
| app/admin/grade-schema/page.tsx:54-94 | the total reduces over every form value, and after a load the form holds the row's string id | the default maxima loaded with id "s1": the page shows "0s11010101020555" instead of 75 | the sum of the eight maxima | high, not executed | GradeSchemaPage.ShownTotalConcatenates | GradeSchemaPage.ShownTotal |
