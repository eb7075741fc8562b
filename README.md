# Contacts app core, modelled in Dafny

The application is a small contacts manager. It has two browser front ends that share one Express/MySQL back end:

- a modular one under `view/script` (controllers for the API, the views, groups, authentication, messages and validation);
- an older one in `js/scripthome.js` and `js/cadastroelogin.js`.

This project models the logic under the DOM wiring and the `fetch` plumbing:

- the phone and e-mail input masks and the form validators;
- the contact view pipeline: mapping server rows to client records, filtering, sorting and the derived group list;
- group creation, editing and deletion as state transitions, with the request batches they send;
- the user store kept in `localStorage`: registration, login, profile, password and e-mail changes;
- the list of scheduled messages and the WhatsApp link;
- the server's insert, select, update, delete and groups handlers over an abstract table;
- the server log's tail and line format;
- the date and time formatters.

Where the two front ends hold near-copies of the same code, the behaviour is written once. It takes a `Variant` (`Modular` or `Legacy`) wherever the copies differ: the sentinel group (`"todos"` against `"outros"`), the default avatar, the fields of the client record and the request bodies.

Modules, one per file:

| file | module | what it holds |
|---|---|---|
| wrappers.dfy | Wrappers | `Option`, which stands for JSON `null` or an absent field, and `findIndex` |
| text.dfy | Text | `\s`, `\D`, ASCII case mapping, `trim`, `includes`, `String(n)` and reading it back, `slice(start)` |
| phone.dfy | PhoneFormat | the phone mask as a template fill, the two phone-formatting methods and the e-mail mask |
| validation.dfy | Validation | `validarNome`, `validarEmail`, `validarTelefone` and `validarSenha` as character-class predicates; the order of the registration checks |
| contacts.dfy | Contacts | rows and client records, the row mapping, the filter, the stable sort, request paths and bodies |
| groups.dfy | Groups | `getUniqueGroups`, the category select, the group slug, the `saveGroup`/`deleteGroup` plans, and the batches of group-controller.js with their all-succeeded rule |
| page.dfy | Page | a class holding the page state of either front end, with fetch, create, update, delete, the dialogs, `saveGroup` and `deleteGroup` as methods |
| auth.dfy | Auth | a class over the user list and the logged-in record, specified by pure functions on `seq<User>` |
| messages.dfy | Messages | a class over the scheduled-message list; the send-form checks; the timer guard; the WhatsApp link |
| server.dfy | Server | a class over `map<int, Row>` with the route handlers; what the client's requests meet on the server |
| logger.dfy | Logger | `split`/`join` on newlines, `getLogs`, the log line and a class over the log file's text |
| dates.dfy | Dates | `pad2`, `formatTime` and `formatDate` with the `Date` getters passed in |

Code that changes state step by step is modelled as methods. This covers the page state, the user store, the message list, the server table, the log file, the input value rewritten by the masks, and the loops that collect updates. Each method is specified by a pure function, and the properties are proved about that function. The pure parts are functions, and lemmas relate them.

## Model

| member | source | states |
|---|---|---|
| Text.Lower | controller/input-masks.js:40 | lower-casing keeps the length and maps each character by itself (ASCII letters only) |
| Text.Digits | controller/input-masks.js:8 | removing non-digits leaves only ASCII digits and never lengthens the text |
| Text.DigitsAppend | view/script/controllers/message-controller.js:179 | removing non-digits distributes over concatenation |
| Text.TrimEmptyIffBlank | view/script/controllers/view-controller.js:444-449 | `trim()` gives `""` exactly when every character is whitespace (`\s`) |
| Text.Utf16LengthIff | view/script/controllers/validation-controller.js:29-31 | `length` counts UTF-16 code units; it equals the number of characters exactly when none is above U+FFFF |
| Text.NatToString | view/script/controllers/utils.js:30-32 | `String(n)` is a non-empty run of digits, one digit long exactly when n < 10 |
| Text.NatToStringRoundTrip | view/script/controllers/utils.js:28-33 | reading the decimal digits back gives the number |
| Text.IntToStringRoundTrip | view/script/controllers/api-controller.js:13-14 | `String(id)` of any integer reads back as that integer, so it is injective |
| PhoneFormat.PhoneFillCases | controller/input-masks.js:11-20 | filling the template `(##) #####-####` equals the three-branch formatting: `(` plus up to 2 digits, then `) ` plus digits 3-7, then `-` plus digits 8-11 |
| PhoneFormat.ApplyPhoneMask | controller/input-masks.js:5-24 | the input's new value is the phone mask of its old value |
| PhoneFormat.FormatarTelefone | view/script/controllers/validation-controller.js:47-63 | the `+=` steps leave the same value as the input-mask listener, the phone mask of the old value; the copies in login.js:69-86 and cadastroelogin.js:34-51 are the same code |
| PhoneFormat.FillDigits | view/script/controllers/validation-controller.js:48-61 | the digits of a filled template are the input digits cut to the number of slots |
| PhoneFormat.PhoneMaskDigits | view/script/controllers/validation-controller.js:48-61 | the mask keeps only digits and emits exactly the first min(11, n) of them, in order |
| PhoneFormat.PhoneMaskShape | view/script/controllers/validation-controller.js:50-61 | no digits give `""`; otherwise the result starts with `(` and the first one or two digits; `) ` appears iff there are more than 2 digits and `-` iff more than 7; 11 digits give exactly `(DD) DDDDD-DDDD`, 15 characters |
| PhoneFormat.PhoneMaskAscii | view/script/controllers/validation-controller.js:50-61 | the mask writes only ASCII characters, so its `length` is its character count |
| PhoneFormat.PhoneMaskIdempotent | view/script/controllers/validation-controller.js:47-63 | formatting an already formatted value changes nothing |
| PhoneFormat.EmailStepsAgree | controller/input-masks.js:36-43 | removing spaces, lower-casing and dropping other characters, in that order, equals the one-pass e-mail mask |
| PhoneFormat.ApplyEmailMask | controller/input-masks.js:31-47 | the input's new value is the e-mail mask of its old value |
| PhoneFormat.EmailMaskOutput | controller/input-masks.js:37-43 | the e-mail mask's output has only `[a-z0-9@._-]`, no whitespace and no upper case |
| PhoneFormat.EmailMaskIdempotent | controller/input-masks.js:34-46 | applying the e-mail mask to its own output changes nothing |
| PhoneFormat.EmailMaskFixes | controller/input-masks.js:43 | a text made only of allowed characters is left as it is |
| Validation.ValidarNome | view/script/controllers/validation-controller.js:9-12 | accepted iff non-empty and every character is an ASCII letter, a Latin-1 letter in À-Ö, Ø-ö, ø-ÿ, or whitespace; login.js:50-53 is the same predicate |
| Validation.ValidarEmailIff | view/script/controllers/validation-controller.js:19-22 | the scanning check accepts iff the text is a `[A-Za-z0-9_.]+` run, `@`, a `[A-Za-z0-9-]+` label, `.`, and a `[A-Za-z0-9-.]+` tail |
| Validation.ShapeIsValidEmail | view/script/controllers/validation-controller.js:19-22 | every split into local part, `@`, label, `.` and tail is accepted |
| Validation.ValidEmailOneAt | view/script/controllers/validation-controller.js:20 | an accepted address holds exactly one `@` |
| Validation.MaskedPhoneValid | view/script/controllers/validation-controller.js:29-31 | a masked phone passes the `length >= 14` check, counted in UTF-16 code units, iff the raw input had at least 10 digits |
| Validation.ScanPassword | view/script/controllers/validation-controller.js:38-41 | the scan reports each of lower case, upper case, special character and line terminator iff one occurs |
| Validation.ValidarSenha | view/script/controllers/validation-controller.js:38-41 | accepted iff it has at least 8 UTF-16 code units (the pattern has no `u` flag), no line terminator, and at least one lower-case ASCII letter, one upper-case ASCII letter and one listed special character; login.js:64-67 is the same |
| Validation.AstralPasswordLength | view/script/controllers/validation-controller.js:38-41 | a seven-character password with one character above U+FFFF has eight UTF-16 code units |
| Validation.AstralPasswordAccepted | view/script/controllers/validation-controller.js:38-41 | that password passes the `.{8,}` length check and is accepted |
| Validation.CheckRegistration | view/script/login.js:171-204 | checks run in the order name, e-mail, phone (`length < 14`), password, confirmation; the first failure decides, and only a form passing all five is ready; cadastroelogin.js:120-162 runs the same order |
| Contacts.PathsInjective | view/script/controllers/api-controller.js:13-14 | `/api/update/` + id and `/api/delete/` + id name different paths for different ids |
| Contacts.MapRows | view/script/controllers/api-controller.js:50-59 | the mapping keeps length and order, mapping each row by itself |
| Contacts.MapRowFields | view/script/controllers/api-controller.js:50-59 | ids are kept; a falsy `grupo` becomes the sentinel (`"todos"`, `'outros'` in scripthome.js:75-83) and a falsy `imagem` the default avatar; truthy name and phone are copied; a missing date becomes the clock reading |
| Contacts.ModularRowHasNoNulls | view/script/controllers/api-controller.js:52-57 | in the modular mapping a falsy name, surname, phone or e-mail becomes `""`, so no field is null |
| Contacts.LegacyRowCopiesFields | js/scripthome.js:75-83 | the older mapping copies name, phone and e-mail unchanged, nulls included, and has no surname |
| Contacts.FilterContacts | view/script/controllers/view-controller.js:91-98 | a contact is kept iff the category filter is `"todos"` or equal to its category, and the term is empty or in its lower-cased name (lower-cased term) or in its phone (raw term) |
| Contacts.FilterIsSubsequence | view/script/controllers/view-controller.js:91-98 | the filtered list is an order-preserving subsequence of the contacts |
| Contacts.FilterAllKeepsEverything | view/script/controllers/view-controller.js:91-98 | category `"todos"` with an empty term keeps every contact |
| Contacts.FilterIdempotent | view/script/controllers/view-controller.js:91-98 | filtering twice with the same settings equals filtering once |
| Contacts.LegacyFilterAgrees | js/scripthome.js:238-244 | on records without null name or phone the older filter keeps exactly what the modular filter keeps |
| Contacts.LegacyFilterThrows | js/scripthome.js:238-244 | the older filter throws iff some contact reaches `.toLowerCase()`/`.includes` on a null name or phone |
| Contacts.EmptySearchNeverThrows | js/scripthome.js:240 | with an empty search term the older filter never throws |
| Contacts.StrLeTotal | view/script/controllers/view-controller.js:58-63 | the name order is total |
| Contacts.StrLeTrans | view/script/controllers/view-controller.js:58-63 | the name order is transitive |
| Contacts.StrLeAntisymmetric | view/script/controllers/view-controller.js:58-63 | names that are each at most the other are equal |
| Contacts.PrecedesTotal | view/script/controllers/view-controller.js:57-69 | every sort key orders any two contacts one way or the other |
| Contacts.PrecedesTrans | view/script/controllers/view-controller.js:57-69 | every sort key's order is transitive |
| Contacts.TiedMeansSameKey | view/script/controllers/view-controller.js:57-69 | two contacts tie under `"recent"` iff their dates are equal, and otherwise iff their names are equal |
| Contacts.InsertPermutes | view/script/controllers/view-controller.js:55-71 | inserting adds exactly one element |
| Contacts.InsertSorted | view/script/controllers/view-controller.js:55-71 | inserting into a sorted list keeps it sorted |
| Contacts.InsertStable | view/script/controllers/view-controller.js:55-71 | inserting keeps the relative order of tied contacts |
| Contacts.SortContactsCorrect | view/script/controllers/view-controller.js:54-72 | the sort returns a permutation of the input that is sorted by the key (`"name-desc"` descending by name, `"recent"` newest first, any other key ascending by name) and keeps tied contacts in their input order; scripthome.js:215-233 uses the same keys |
| Contacts.VisibleContents | view/script/controllers/view-controller.js:91-112 | the rendered list holds exactly the contacts the filter accepts |
| Contacts.BodiesFields | view/script/controllers/api-controller.js:93-143 | both bodies carry the record's name and phone; the modular create body omits `imagem`, sends a truthy e-mail and surname as they are and `""` otherwise, and `"todos"` for an empty group; the modular update body sends the surname and group as they are, `email || ""` and the avatar; the older front end sends one body for both, e-mail, group and image as they are and no surname |
| Groups.CategoriesMembers | view/script/controllers/group-controller.js:155-160 | the collected names are exactly the categories of contacts other than `""` and `"todos"` |
| Groups.Firsts | view/script/controllers/group-controller.js:155-160 | keeping first occurrences, as a `Set` does, keeps every name that occurs and nothing else |
| Groups.FirstsDistinct | view/script/controllers/group-controller.js:155-160 | keeping first occurrences leaves no name twice |
| Groups.GetUniqueGroups | view/script/controllers/group-controller.js:149-172 | the loop that fills the set and pushes groups computes the derived group list |
| Groups.UniqueGroupsOfNothing | view/script/controllers/group-controller.js:150-152 | a null or empty list gives exactly `[{id:"todos", name:"Todos"}]` |
| Groups.UniqueGroupsContents | view/script/controllers/group-controller.js:155-169 | the first entry is `"todos"`; later entries have `id == name`, are not `""` or `"todos"`, are distinct, and are each some contact's category; every such category is listed |
| Groups.UniqueGroupsOrder | view/script/controllers/group-controller.js:155-169 | the groups after the first appear in the order of their first occurrence among the contacts |
| Groups.CategoryOptions | view/script/controllers/view-controller.js:11-23 | the category select lists exactly the groups other than `"todos"`; scripthome.js:184-194 is the same |
| Groups.CategoryOptionsInOrder | js/scripthome.js:186-193 | the options keep the order of `groups` |
| Groups.CollapseSpaces | view/script/controllers/view-controller.js:459 | replacing each whitespace run by `-` leaves no whitespace and adds only `-` |
| Groups.SlugProperties | view/script/controllers/view-controller.js:459 | a slug has no whitespace and no upper case, is empty only for an empty name, and slugging it again changes nothing |
| Groups.SaveGroupRejectsBlank | view/script/controllers/view-controller.js:444-449 | a name that is blank after trimming is rejected |
| Groups.SaveGroupCreates | view/script/controllers/view-controller.js:459-474 | a new group gets the non-empty slug of the trimmed name as id, is not already present, and is appended with the selected colour (always blue in the modular front end) |
| Groups.SaveGroupEdits | view/script/controllers/view-controller.js:451-456 | an edit keeps the id and the length and changes only the name of the matching group (name and colour in scripthome.js:500-506) |
| Groups.SaveGroupKeepsIdsDistinct | js/scripthome.js:502-524 | saving a group keeps the group ids distinct |
| Groups.FindContactFirst | view/script/controllers/view-controller.js:483 | `find` by id returns the first contact with that id, and nothing exactly when no contact has it |
| Groups.DialogCheckboxes | view/script/controllers/view-controller.js:358-370 | the dialog has one checkbox per contact, checked iff its category is the group |
| Groups.PlanMembershipUpdates | view/script/controllers/view-controller.js:481-498 | the `forEach` over the checkboxes collects the membership updates |
| Groups.MembershipUpdatesMove | view/script/controllers/view-controller.js:481-497 | each update changes only one contact's category, to the group if it was not a member and to the sentinel (`"todos"`, `'outros'` in scripthome.js:536-546) if it was |
| Groups.ChangedBoxIsSent | view/script/controllers/view-controller.js:486-497 | a checkbox that differs from the contact's membership produces the update to the group (checked) or the sentinel (unchecked) |
| Groups.UntouchedDialogSendsNothing | view/script/controllers/view-controller.js:481-497 | an unchanged dialog sends no update |
| Groups.PlanDeleteUpdates | view/script/controllers/view-controller.js:525-538 | the loop over the contacts collects the delete-group updates |
| Groups.DeleteUpdatesExact | view/script/controllers/view-controller.js:527-536 | exactly the contacts in the group are moved to the sentinel, nothing else; no update iff the group is empty |
| Groups.RemoveGroup | view/script/controllers/view-controller.js:547 | removing a group keeps exactly the other groups |
| Groups.CreateGroupBehaviour | view/script/controllers/group-controller.js:15-66 | a blank name or empty id list sends nothing and fails; otherwise one update per id with `grupo` set to the name, and success iff every request fulfilled with a 2xx |
| Groups.UpdateMembersRequestsShape | view/script/controllers/group-controller.js:82-114 | added ids are sent to the group and removed ids to `"todos"`, in that order |
| Groups.UpdateGroupMembersIntendedSpec | view/script/controllers/group-controller.js:116-134 | success iff both the add and the remove requests all succeeded; when both lists are given the code as written agrees |
| Groups.UpdateGroupMembersNullListFails | view/script/controllers/group-controller.js:128-129 | with one list null, a batch whose every request succeeded is reported as a failure |
| Groups.DeleteEmptyGroup | view/script/controllers/group-controller.js:185-192 | a group without members sends nothing and succeeds |
| Groups.DeleteGroupTargets | view/script/controllers/group-controller.js:185-205 | every request moves a member of the group to `"todos"` |
| Groups.DeleteNonEmptyGroup | view/script/controllers/group-controller.js:207-224 | with members, success iff every request succeeded |
| Page.NewContactCategoryIs | js/scripthome.js:374 | a new contact takes the current filter as its category; the older front end uses `'outros'` when the filter is `'todos'` |
| Page.ContactsPage.constructor | view/script/main.js:25-36 | the initial state: no contacts, the `"todos"` group (the six fixed groups in scripthome.js:11-18), filter `"todos"`, empty search, sort `"name"`, grid view, nothing selected |
| Page.ContactsPage.FetchContacts | view/script/controllers/api-controller.js:40-77 | the contacts are replaced by the mapped rows only after a 2xx answer; otherwise nothing changes |
| Page.ContactsPage.CreateContact | view/script/controllers/api-controller.js:84-126 | modular: a falsy name or phone sends nothing; otherwise (always, in the older front end) the create body goes to `/api/insert`; the result is true iff the response is 2xx, and a failed refresh leaves the contacts unchanged |
| Page.ContactsPage.UpdateContact | view/script/controllers/api-controller.js:133-166 | sends the update body to the contact's update path; true iff the response is 2xx; the refresh as for create |
| Page.ContactsPage.DeleteContact | view/script/controllers/api-controller.js:173-193 | uses the contact's delete path; true iff the response is 2xx; the refresh as for create |
| Page.ContactsPage.OpenProfileDialog | view/script/controllers/view-controller.js:259-306 | an existing contact fills the form with its fields (nulls as `""`) and becomes current; no id gives an empty form with the default avatar and the new-contact category |
| Page.ContactsPage.OpenGroupDialog | view/script/controllers/view-controller.js:312-375 | the current group becomes the given id; the modular front end opens nothing for an unknown id; otherwise one checkbox per contact |
| Page.ContactsPage.SaveGroup | view/script/controllers/view-controller.js:438-499 | the steps before the `await`: a rejected plan changes nothing; a saved plan installs the new group list and current id and returns exactly the membership updates; the ids stay distinct (same in scripthome.js:491-562) |
| Page.ContactsPage.DeleteGroup | view/script/controllers/view-controller.js:516-558 | with no current group or no confirmation nothing happens; otherwise the members' updates to the sentinel are returned, the group is removed whatever their outcomes, and the filter resets only if it named that group (same in scripthome.js:565-604) |
| Page.ContactsPage.SendUpdates | view/script/controllers/view-controller.js:500-506 | the awaited `Promise.all`: each update is sent by `updateContact` to its contact's path, succeeds iff answered 2xx, and the list becomes `Refreshed` of the outcomes; nothing else changes |
| Page.RefreshedNone | view/script/controllers/api-controller.js:155-157 | when no update and its refresh both succeeded, the list is the one before the updates |
| Page.RefreshedLast | view/script/controllers/api-controller.js:155-157 | otherwise the list is the one fetched by the last refresh that succeeded |
| Page.RemoveGroupKeepsIdsDistinct | view/script/controllers/view-controller.js:547 | removing a group keeps the ids distinct and the order of the remaining groups |
| Page.RenderedAgree | js/scripthome.js:236-247 | on records without nulls both front ends render exactly the contacts the filter accepts |
| Page.ModularListHasNoNulls | view/script/controllers/api-controller.js:50-59 | the modular mapping never produces a null field |
| Auth.RegisterBehaviour | view/script/controllers/auth-controller.js:12-38 | a taken e-mail is rejected with no change; otherwise one user is appended, earlier users unchanged, e-mails stay unique, with the default avatar and role `"Usuário"` (none in cadastroelogin.js:54-78) |
| Wrappers.FindIndex | view/script/controllers/view-controller.js:453 | `findIndex` returns the first index whose element satisfies the predicate, or the length when none does |
| Auth.EmailIndex | view/script/controllers/auth-controller.js:83 | `findIndex` by e-mail returns the first match, or the length when there is none |
| Auth.CredentialIndex | view/script/controllers/auth-controller.js:117 | `findIndex` by e-mail and password returns the first match, or the length when there is none |
| Auth.FindLoginSpec | view/script/controllers/auth-controller.js:46-54 | login finds nothing iff no user matches both e-mail and password, and otherwise the first user that does; login.js:120-128 and cadastroelogin.js:81-91 are the same |
| Auth.UpdateUserSpec | view/script/controllers/auth-controller.js:78-103 | an unknown e-mail fails with no change; otherwise only that user is merged with the new fields winning, and e-mails stay unique |
| Auth.ChangePasswordSpec | view/script/controllers/auth-controller.js:112-138 | succeeds iff some user matches e-mail and current password, and then changes only that user's password |
| Auth.ChangeEmailSpec | view/script/controllers/auth-controller.js:147-180 | rejected as in use iff the new e-mail is taken (the current one included), before the password is checked; a wrong password iff it is free and no user has those credentials; changed iff it is free and some user has them; success changes only that user's e-mail, keeps e-mails unique and frees the old address |
| Auth.UserStore.constructor | view/script/login.js:93 | an empty store with nobody logged in |
| Auth.UserStore.SalvarUsuario | view/script/login.js:89-118 | appends exactly the new user iff the e-mail is free; the logged-in record is untouched |
| Auth.UserStore.Login | view/script/login.js:231-241 | a successful login stores exactly the matched user; a failed one changes nothing |
| Auth.UserStore.RealizarLogout | view/script/controllers/auth-controller.js:59-62 | the logged-in record is removed and the users are unchanged |
| Auth.UserStore.AtualizarUsuario | view/script/user-profile.js:18-43 | the store follows `UpdateUser`, and the logged-in copy is refreshed when its e-mail is the one updated |
| Auth.UserStore.AlterarSenha | view/script/user-profile.js:45-71 | the store follows `ChangePassword`, and the logged-in copy gets the new password when it is that user |
| Auth.UserStore.AlterarEmail | view/script/user-profile.js:73-106 | the store follows `ChangeEmail`, and the logged-in copy gets the new e-mail when it is that user |
| Auth.UserStore.Registrar | view/script/login.js:171-204 | the registration checks decide first; a user is saved iff every check passes and the e-mail is free |
| Auth.UserStore.ChangePasswordForm | view/script/user-profile.js:251-267 | a mismatched confirmation is rejected before the password change is tried |
| Auth.UserStore.EditProfile | view/script/user-profile.js:208-227 | the edit is looked up by the logged-in user's current e-mail and changes only name, phone and avatar |
| Auth.SnapshotEditRevertsPassword | view/script/user-profile.js:188-220 | after a password change in the same page session, a profile edit built from the page-load snapshot writes the old password back |
| Auth.ProfileEditKeepsPasswords | view/script/user-profile.js:215-220 | an edit carrying only name, phone and avatar finds the user iff the e-mail is registered, and keeps every password and e-mail |
| Messages.WithoutIdSpec | view/script/controllers/message-controller.js:149-155 | removal keeps exactly the records with another id, in their order |
| Messages.WithoutIdIdempotent | view/script/controllers/message-controller.js:147-158 | removing the same id twice equals removing it once |
| Messages.MessageStore.constructor | view/script/controllers/message-controller.js:95 | no stored messages |
| Messages.MessageStore.Save | view/script/controllers/message-controller.js:93-104 | one record is appended at the end and the others are unchanged |
| Messages.MessageStore.Remove | view/script/controllers/message-controller.js:147-158 | the list becomes the records with another id |
| Messages.SendCheckOrder | view/script/controllers/message-controller.js:37-66 | rejections come in the order no contact, empty text, no date or time, unknown contact, invalid date, past date; a scheduled time is never in the past |
| Messages.ScheduledRecord | view/script/controllers/message-controller.js:69-79 | a stored record copies the selected id, the name and phone of the contact found for it in the list, the trimmed non-empty text and the scheduled instant, which is not in the past |
| Messages.MessageStore.SendMessage | view/script/controllers/message-controller.js:24-87 | a form that passes every check stores exactly its record; any rejection stores nothing |
| Messages.AlertDelaySpec | view/script/controllers/message-controller.js:110-115 | no timer iff the scheduled time is not after now; otherwise the delay is positive and ends at the scheduled time |
| Messages.MessageStore.FireAlert | view/script/controllers/message-controller.js:120-139 | when the contact still exists the timer offers the link and removes the record; otherwise nothing changes |
| Messages.AlertLinkAgrees | view/script/controllers/message-controller.js:124-126 | the timer's link equals the checked one when the phone has a digit, and has no number otherwise |
| Messages.LeadingDigits | view/script/controllers/message-controller.js:187 | the leading digit run is a prefix of digits |
| Messages.WhatsAppLinkSpec | view/script/controllers/message-controller.js:179-187 | no link iff the phone has no digit; otherwise the link is the prefix, the phone's digits (read back from the link) and `/?text=` with the encoded text |
| Messages.SendWhatsAppSpec | view/script/controllers/message-controller.js:163-194 | blank text is rejected first; then "no phone" iff no contact has the current id or its phone is falsy; "invalid number" iff the phone has no digit; otherwise the link of the contact's digits and the encoded text is opened, and an opened link always belongs to the current contact |
| Server.StoredRowDefaults | api/routes/routes.js:19-26 | a stored row copies name, e-mail and phone; a truthy surname, group or image is stored as sent, and a falsy one becomes `""`, `"outros"` or null |
| Server.ContactTable.constructor | api/routes/routes.js:11-28 | an empty table whose first id is 1 |
| Server.ContactTable.Insert | api/routes/routes.js:11-28 | a body missing name, e-mail or phone gets 400 and stores nothing; otherwise 201 and one new row under a fresh id |
| Server.ContactTable.Update | api/routes/routes.js:44-62 | the same check and 400; otherwise 200 and all six columns overwritten with the defaults, and 200 with no change for an unknown id |
| Server.ContactTable.Delete | api/routes/routes.js:65-77 | 200 whether or not the id exists, and the row is gone |
| Server.ContactTable.Select | api/routes/routes.js:31-41 | every row is returned once, in increasing id order |
| Server.GroupListedAfterWrite | api/routes/routes.js:80-91 | after a write the row's group is listed, and a group disappears only when the overwritten row was its only holder |
| Server.ServerOutcomes | api/routes/routes.js:44-62 | each update request meets the handler's status |
| Server.GroupRequestRejected | api/routes/routes.js:48-50 | a body with only `grupo` is answered 400 |
| Server.GroupBatchesFail | view/script/controllers/group-controller.js:28-47 | against this server, every non-empty batch of createGroup, updateGroupMembers and deleteGroup reports failure |
| Server.ModularCreateNeedsEmail | api/routes/routes.js:14-16 | the modular create without an e-mail is answered 400; with name, phone and e-mail it is answered 201 |
| Server.LegacyCreateRoundTrip | js/scripthome.js:95-125 | a contact created by the older front end reads back with its name, phone, e-mail, category (or `'outros'`), avatar and the insert time |
| Server.ModularCreateRoundTrip | view/script/controllers/api-controller.js:93-99 | a contact created by the modular front end reads back with its fields but always with the default avatar |
| Logger.Split | api/logger.js:76 | splitting gives at least one piece and no piece holds a newline |
| Logger.JoinSplit | api/logger.js:76 | joining the pieces with newlines gives the text back |
| Logger.SplitJoin | api/logger.js:76 | splitting joined newline-free pieces gives them back |
| Logger.NonBlank | api/logger.js:76 | keeps exactly the lines that are not blank after trimming |
| Logger.GetLogsTail | api/logger.js:73-84 | the result is the last `limit` non-blank lines in order (all of them when fewer), `limit` defaults to 100, `limit = 0` returns every line, and an unreadable file gives `[]` |
| Logger.LogLineShape | api/logger.js:57 | a line is `[ts] [ACTION] [User: id] data` plus one newline, with no other newline, and starts with `[` |
| Logger.LatestEntry | api/logger.js:57-65 | appending a line keeps the file well formed, and the last log entry is then that line |
| Logger.LogFile.LogAction | api/logger.js:47-66 | for any action, user and data, the result is true iff the append happened, the file then ends with the new line and stays newline-terminated, and when the line holds no inner line break the newest entry is that line |
| Logger.BrokenEntryNotReadBack | api/logger.js:57-76 | a line break inside the action, user, timestamp or data splits the line, so `getLogs(1)` does not return the whole entry |
| Dates.Pad2Spec | view/script/controllers/utils.js:30-31 | `pad2` gives digits that read back as the value, with `"0"` in front of 0-9 and nothing in front otherwise; length 2 iff the value is below 100 |
| Dates.FormatTimeSpec | view/script/controllers/utils.js:40-44 | a time is 5 characters, `:` in the middle, and both parts read back as hours and minutes |
| Dates.FormatDateSpec | view/script/controllers/utils.js:28-33 | a date is the year, `-`, the padded month (month0 + 1) and `-` with the padded day; each part reads back |
| Dates.FormatDateLength | view/script/controllers/utils.js:29-32 | four-digit years give 10 characters, years 0-999 give fewer, since the year is not padded |

## Findings

| source | as written | input that shows it | evidently intended | confidence | as-written member | corrected member |
|---|---|---|---|---|---|---|
| view/script/controllers/group-controller.js:128-129 | `updateGroupMembers` guards each list against null when it builds the requests, but after every request has succeeded its log call reads `contactsToAdd.length` and `contactsToRemove.length`; a null list throws there, the `catch` takes over and the function returns false | add `[7]`, remove `null`, the one request answered 200 | true iff every request succeeded, whichever list is null | not executed | Groups.UpdateGroupMembersNullListFails | Groups.UpdateGroupMembersIntendedSpec |
| view/script/user-profile.js:188-220 | the profile edit spreads the page-load snapshot `usuarioLogado` into the record it saves, so every field from page load, the password included, overwrites the stored user | change the password, then edit the name in the same page session | the edit changes name, phone and avatar and leaves the password just set | not executed | Auth.SnapshotEditRevertsPassword | Auth.ProfileEditKeepsPasswords |

The rest of the model uses the corrected members: `Auth.UserStore.EditProfile` builds its patch from the current logged-in e-mail with only name, phone and avatar, and `Groups.UpdateGroupMembersIntended` is the success rule that `Server.GroupBatchesFail` speaks about.

## Cross-file facts

These hold between the client and the server as they are written, and the model keeps them as they are:

- The modular client reads `/api/contatos` (api-controller.js:11), but the server serves `/api/select` (routes.js:31). `Contacts.SelectPath` keeps both.
- The modular create sends `email: ""` when none is given, but the server rejects a blank e-mail with 400 (`Server.ModularCreateNeedsEmail`).
- The sentinel group is `"todos"` in the modular front end and `'outros'` in the older one and in the server's default (`Contacts.Sentinel`).
- The group batches of group-controller.js send bodies holding only `grupo`. The server's update rejects such a body with 400, so those batches report failure against this server (`Server.GroupBatchesFail`).
- The modular create body has no `imagem`, so a contact created there always reads back with the default avatar (`Server.ModularCreateRoundTrip`).
- The alert timer builds its WhatsApp link without the empty-number check that `sendWhatsAppMessage` makes (`Messages.AlertLinkAgrees`).

## Left out

- DOM rendering and event wiring: card and row HTML, dialogs, tabs, the spinner, notifications, dark mode and the client-side loggers. They are presentation; what they show is the state and the filtered, sorted list modelled here.
- HTTP transport and concurrency: `fetch`, `Promise.all`/`allSettled` and the Express middleware. Each response is an input (`Outcome`, `FetchResult`), and a batch is judged on its sequence of outcomes.
- `localStorage` and JSON encoding: stores are fields of type `seq`, and JSON `null` or a missing field is `Option.None`.
- Clocks and timers: `Date.now()`, `new Date()` and `setTimeout` become integer parameters (`now`, `stamp`, `parsed`), and parsing `date + "T" + time` is an input `parsed: Option<int>`.
- `encodeURIComponent` is an opaque input `encoded`; `toLocaleString` and the timestamp format of the server log are opaque strings.
- `localeCompare` is modelled as plain code-point order on names (`Contacts.StrLe`), not locale collation.
- `Contacts.NameKey` sorts a null name as `""`. In the older front end, `a.name.localeCompare(b.name)` (scripthome.js:220-229) throws when the receiver's name is null and compares a null argument as `"null"`, and which contact is the receiver depends on the sort's algorithm, so `Page.ContactsPage.Rendered` does not model that throw. This server never stores a contact without a name (routes.js:14-16 and 48-50), so such a contact does not reach the page from it.
- `toLowerCase`/`toUpperCase` map ASCII letters only.
- Regular expressions are restated as character-class predicates. `Validation.ValidarNome` accepts the Latin-1 letter ranges of the source and `\s` as defined in `Text.IsSpace`.
- `FileReader` and base64 avatars: an avatar is an opaque string.
- SQL: driver errors (the 500 branches) and `NOW()` are left out. The auto-increment id is the table's `nextId` counter, and `Server.ContactTable.Select` returns rows in id order, which SQL does not promise without `ORDER BY`.
- `Server.ContactTable.Groups` returns the distinct groups as a set, without the order of the SQL result.
- `Logger.LogFile.LogAction`: a failed append is modelled as leaving the file unchanged. A partial write is not modelled, and the append's success is an input.
- The `logAction` calls on the client and the `console` output are left out. They do not change the modelled state.
- The older front end's `sendMessage` (scripthome.js:618-640) only shows an alert and stores nothing; it is not modelled.
- `Page.ContactsPage.SaveGroup` and `Page.ContactsPage.DeleteGroup` stop at the `await` and return the updates to send; `Page.ContactsPage.SendUpdates` then models the awaited updates, whose refreshes replace the contacts. The settling order of the concurrent requests is an input, and in `deleteGroup` the group removal after the `await` is applied before it, which gives the same state because the refreshes change only the contacts and the removal only the groups and filter.
- Contact ids parsed from checkbox attributes are integers here; a `NaN` id, which `find` never matches, is not modelled.
- `Messages.MessageStore.FireAlert` reads a null phone as `""`. In the source the timer would throw on `null.replace`, which cannot happen with the modular mapping (`Page.ModularListHasNoNulls`).
- `Dates.FormatDateSpec` and `Dates.FormatTimeSpec` take month, day, hours and minutes in the ranges `Date` getters return.
- `getUsuarioLogado` and the page redirects on login and logout are left out. They only read or navigate.
