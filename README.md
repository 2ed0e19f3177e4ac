# Contact submissions: a verified model

This project models the contact-submission service of a small marketing site in Dafny. It covers:

- the `POST /api/contact` handler: required fields, the email pattern, length limits, the insert, and best-effort notification;
- the `GET` and `DELETE` handlers of `/api/contact/submissions`: pagination over the `contact_submissions` table, and delete by id;
- the state logic of the admin dashboard: message truncation, the expanded and deleting sets, the local list after a delete, and the Previous/Next rule.

Modules, one per source component:

- `Wrappers`: `Option`, which models an absent query parameter or the absence of a validation error.
- `Submissions`: the `Submission` row, the `Table` class standing for `contact_submissions`, and the table's query semantics:
  - `NewestFirst` for `ORDER BY created_at DESC`;
  - `Window` for `LIMIT`/`OFFSET`;
  - `Without` for removing rows by id.
- `ContactRoute`: the email pattern, the validation chain and the `Post` handler.
- `SubmissionsRoute`: default parameters, offset and page-count arithmetic, the `List` and `Delete` handlers.
- `AdminPage`: `Truncate`/`TruncateMessage`, `Toggled`, the button rules, and the `AdminView` class holding the dashboard's state.

Store assumptions. Id generation and `created_at` come from the database, so `Table.Valid()` takes them as an invariant:

- rows are kept in insertion order;
- ids strictly increase along that order and stay below `nextId`;
- creation times never decrease.

Each insert takes the next id, and `nextId` advances by one. It also takes an arbitrary non-negative `elapsed` for the database clock. Under these assumptions, the reverse of insertion order is an order that satisfies `ORDER BY created_at DESC`. The model fixes that one order for every request: rows with equal timestamps go to the later insert (larger id) first. The query itself orders only by `created_at`, so the database may order tied rows differently from one request to the next (see `NewestFirst` under "## Left out").

Inputs from outside the model are parameters:

- `notifierFails` stands for what `sendEmail` did;
- `confirmed` stands for the answer to `confirm(...)`;
- `responseOk` stands for the delete response's `ok` flag.

The error texts are the handler's own strings. They say "must be less than 255 characters" (or 5000), but the checks reject only lengths greater than the limit, so a value of exactly the limit is accepted. The model follows the checks, and `NameLimitInclusive`, `EmailLimitInclusive` and `MessageLimitInclusive` state the boundary.

## Model

| member | source | states |
|---|---|---|
| `ContactRoute.Validate` | web/src/app/api/contact/route.js:10-46 | The result is None exactly when all five checks pass. Otherwise it is the first failing check in the order required, email pattern, name length, email length, message length, and every earlier check passes. |
| `ContactRoute.MissingFieldWins` | web/src/app/api/contact/route.js:10-15 | If any of name, email or message is empty, the result is "All fields are required", whatever the other fields hold. |
| `ContactRoute.IsValidEmailMatchesPattern` | web/src/app/api/contact/route.js:18-19 | The executable check, which splits at the first '@', accepts exactly the strings matched by `^[^\s@]+@[^\s@]+\.[^\s@]+$` read literally as three non-empty `[^\s@]` runs separated by '@' and '.'. Both directions are proved. |
| `ContactRoute.ValidEmailMatchesPattern` | web/src/app/api/contact/route.js:18-19 | An accepted email matches the pattern (one direction of the equivalence). |
| `ContactRoute.PatternMatchIsValidEmail` | web/src/app/api/contact/route.js:18-19 | A string matching the pattern is accepted (the other direction). |
| `ContactRoute.PatternAtIsValidEmail` | web/src/app/api/contact/route.js:18-19 | A match of the pattern with its '@' at i and its '.' at j is accepted by the executable check. |
| `ContactRoute.ValidEmailShape` | web/src/app/api/contact/route.js:18-24 | An accepted email contains exactly one '@' and no character of ECMAScript `\s`. |
| `ContactRoute.NoAtSignIsInvalid` | web/src/app/api/contact/route.js:18-24 | A string without '@' is rejected as an invalid address. |
| `ContactRoute.LongAddressIsValid` | web/src/app/api/contact/route.js:18-19 | For every n ≥ 5 there is an accepted address of length n. The email-length boundary cases use it. |
| `ContactRoute.NameLimitInclusive` | web/src/app/api/contact/route.js:27-32 | A name of 255 characters passes, and one of 256 fails with "Name must be less than 255 characters". |
| `ContactRoute.EmailLimitInclusive` | web/src/app/api/contact/route.js:34-39 | A valid email of 255 characters passes, and one of 256 fails with the email-length error. |
| `ContactRoute.MessageLimitInclusive` | web/src/app/api/contact/route.js:41-46 | A message of 5000 characters passes, and one of 5001 fails with the message-length error. |
| `ContactRoute.AddressWithoutAtRejected` | web/src/app/api/contact/route.js:17-24 | With every field present, an email without '@' is rejected as invalid. |
| `ContactRoute.NotAnEmailRejected` | web/src/app/api/contact/route.js:17-24 | "not-an-email" is rejected with the invalid-email error. |
| `ContactRoute.IsValidEmail` | web/src/app/api/contact/route.js:18-19 | The executable email check: split at the first '@' and require non-empty `[^\s@]` runs before and after it, with an inner '.' after it. An accepted address contains '@' and has at least 5 characters. `IsValidEmailMatchesPattern` relates it to the regular expression. |
| `ContactRoute.ErrorText` | web/src/app/api/contact/route.js:10-46 | The handler's five error strings, one per failed check ("All fields are required", "Please provide a valid email address", and the three length errors), each non-empty. |
| `ContactRoute.ErrorTextsDistinct` | web/src/app/api/contact/route.js:10-46 | Different failed checks report different texts. |
| `ContactRoute.Status` | web/src/app/api/contact/route.js:10-115 | The status is 200 exactly for an accepted submission and 400 exactly for a validation failure. |
| `ContactRoute.ReplyText` | web/src/app/api/contact/route.js:10-115 | An accepted submission is answered with "Thank you for your message! We will get back to you soon."; a rejected one with its error text, which is never the thank-you text. |
| `ContactRoute.Post` | web/src/app/api/contact/route.js:49-115 | On a validation error, the reply is that error and nothing is inserted or notified. Otherwise exactly one row with the given name, email and message is appended, its id is returned, `nextId` advances by one and the clock by `elapsed`. The notifier gets that row's id, timestamp and fields. The reply and the table do not depend on `notifierFails`, which only decides whether a failure is logged. |
| `Submissions.Table.Insert` | web/src/app/api/contact/route.js:49-55 | Appends one row whose id is larger than every earlier id. The row's creation time is the clock plus `elapsed`. The new row becomes the first row of the newest-first order, and the store invariant is kept. |
| `Submissions.Without` | web/src/app/admin/page.jsx:65 | The result is never longer than the input, and no row of it has the given id. |
| `Submissions.WithoutMembers` | web/src/app/admin/page.jsx:65 | A row is in the result exactly when it is in the input and its id differs from the given one. |
| `Submissions.WithoutAppend` | web/src/app/admin/page.jsx:65 | Filtering distributes over concatenation, so the kept entries stay in their original order. |
| `Submissions.WithoutAbsent` | web/src/app/api/contact/submissions/route.js:57-65 | Filtering out an id that no row has leaves the rows unchanged. |
| `Submissions.WithoutRemovesExactlyOne` | web/src/app/api/contact/submissions/route.js:57-61 | With increasing ids, filtering out row k's id gives `rows[..k] + rows[k+1..]`: exactly one row goes, and the others keep their content and order. |
| `Submissions.WithoutKeepsInsertionOrder` | web/src/app/api/contact/submissions/route.js:57-61 | Deleting keeps the store's ordering invariant. |
| `Submissions.Table.DeleteById` | web/src/app/api/contact/submissions/route.js:57-63 | Reports whether a row had the id. Afterwards the rows are the old rows minus that id, one fewer when one was removed and unchanged otherwise. |
| `Submissions.NewestFirst` | web/src/app/api/contact/submissions/route.js:22 | Position i of the result is row `n-1-i` of the table, and the length is unchanged. |
| `Submissions.NewestFirstIsSorted` | web/src/app/api/contact/submissions/route.js:22 | Over a valid table, `NewestFirst` is sorted by `created_at` descending, with ties going to the larger id first. |
| `Submissions.NewestFirstIsPermutation` | web/src/app/api/contact/submissions/route.js:22 | `NewestFirst` holds every row exactly as often as the table does (a permutation). |
| `Submissions.NewestFirstAfterInsert` | web/src/app/api/contact/submissions/route.js:22 | After an insert, the new row is the first row of the list. |
| `Submissions.Window` | web/src/app/api/contact/submissions/route.js:23 | `LIMIT l OFFSET o`: the result has `min(l, n-o)` rows when `o < n` and none otherwise. Its element i is element `o+i` of the ordered rows. |
| `Submissions.Table.Count` | web/src/app/api/contact/submissions/route.js:12-16 | The count is the number of rows. |
| `Submissions.Table.Page` | web/src/app/api/contact/submissions/route.js:19-24 | The page is the window of the newest-first rows. It has at most `limit` rows and is sorted by creation time, descending. |
| `SubmissionsRoute.TotalPages` | web/src/app/api/contact/submissions/route.js:33 | The integer ceiling of total/limit: the least n with `n*limit ≥ total`. |
| `SubmissionsRoute.TotalPagesBounds` | web/src/app/api/contact/submissions/route.js:33 | `totalPages` is 0 exactly for an empty table, and is never more than the total. |
| `SubmissionsRoute.FifteenRowsTwoPages` | web/src/app/api/contact/submissions/route.js:9-33 | 15 rows with limit 10 make 2 pages, and page 2 holds 5 rows. |
| `SubmissionsRoute.PagesArePrefix` | web/src/app/api/contact/submissions/route.js:9-24 | Pages 1 to k concatenated are the first `min(k*limit, n)` ordered rows. |
| `SubmissionsRoute.PagesCoverAllRows` | web/src/app/api/contact/submissions/route.js:9-33 | Pages 1 to totalPages concatenated are exactly the ordered rows, each once and in order. |
| `SubmissionsRoute.PageEmptyIffPastLast` | web/src/app/api/contact/submissions/route.js:9-33 | For page ≥ 1, the page is empty exactly when its number exceeds `totalPages`. |
| `SubmissionsRoute.Offset` | web/src/app/api/contact/submissions/route.js:9 | `(page-1)*limit`: the offset plus one page's limit is `page*limit`, and the offset is 0 exactly on page 1. |
| `SubmissionsRoute.DeleteStatus` | web/src/app/api/contact/submissions/route.js:50-70 | 400 exactly for a missing id, 404 exactly for an unknown id, 200 exactly after a delete. |
| `SubmissionsRoute.DeleteText` | web/src/app/api/contact/submissions/route.js:50-70 | "Submission deleted successfully" exactly after a delete; the two error texts ("Submission ID is required", "Submission not found") both start with "Submission " and differ from it. |
| `SubmissionsRoute.List` | web/src/app/api/contact/submissions/route.js:7-35 | Absent page and limit default to 1 and 10, and the reply echoes them. `total` is the row count, independent of page and limit. `totalPages` is the ceiling. `data` is the slice at `(page-1)*limit` of the newest-first rows, with at most `limit` rows, sorted, and empty exactly past the last page. The table is not modified. |
| `SubmissionsRoute.Delete` | web/src/app/api/contact/submissions/route.js:48-70 | A missing id gives "Submission ID is required"; an id no row has gives "Submission not found". Both leave the table unchanged. Otherwise the reply is success and exactly that one row is removed. Afterwards no row has the id, so a second delete reports not found. |
| `AdminPage.Truncate` | web/src/app/admin/page.jsx:100-103 | A message of at most maxLength characters is returned unchanged. A longer one gives maxLength + 3 characters ending in "..." whose first maxLength characters are the message's. The result always agrees with the message on the first `min(len, maxLength)` characters. |
| `AdminPage.TruncateMessage` | web/src/app/admin/page.jsx:100-103 | truncateMessage with its default maxLength of 100, as the message column calls it (line 223): a message of at most 100 characters is unchanged; a longer one becomes its first 100 characters followed by "...", 103 characters in all. |
| `AdminPage.ShowsExpandToggle` | web/src/app/admin/page.jsx:225 | The toggle is shown for messages longer than 100 characters. Without it, the truncated message is the message itself; with it, the truncated message has 103 characters. |
| `AdminPage.DisplayedMessage` | web/src/app/admin/page.jsx:221-223 | An expanded message, or one without the toggle, is displayed in full. A collapsed message (id not in the expanded set) is displayed as `TruncateMessage` of its text; when it has the toggle, that is 103 characters ending in "...". Whatever the state, the display agrees with the message on its first `min(len, 100)` characters and is at most 3 characters longer. |
| `AdminPage.PreviousDisabled` | web/src/app/admin/page.jsx:284 | Previous is disabled while a load runs; otherwise it is disabled exactly on page 1. |
| `AdminPage.NextDisabled` | web/src/app/admin/page.jsx:291 | Next is disabled while a load runs; otherwise it is disabled exactly on the last page (`page == totalPages`). |
| `AdminPage.CollapsedViewHidesOnlyWithToggle` | web/src/app/admin/page.jsx:221-225 | A message without the toggle, shown only for length > 100, is always displayed in full. A message displayed differently from its text has a toggle. For a message with the toggle, its two toggle states show exactly the full text and `TruncateMessage` of it. |
| `AdminPage.Toggled` | web/src/app/admin/page.jsx:78-88 | Flips the membership of id and leaves every other element as it was. |
| `AdminPage.ToggleTwiceRestores` | web/src/app/admin/page.jsx:78-88 | Toggling the same id twice restores the set. |
| `AdminPage.AdminView.constructor` | web/src/app/admin/page.jsx:15-21 | The view starts with an empty submission list, an empty expanded set and an empty deleting set. |
| `AdminPage.AdminView.ToggleMessageExpansion` | web/src/app/admin/page.jsx:78-88 | The expanded set becomes its toggled copy, and the other state is unchanged. |
| `AdminPage.EnabledButtonsStayInRange` | web/src/app/admin/page.jsx:276-295 | On a page within range, an enabled Previous or Next requests a page within range. With more than one page and no load running, at least one of them is enabled. |
| `AdminPage.AdminView.BeginDelete` | web/src/app/admin/page.jsx:49-54 | If the user declines, nothing changes. Otherwise id joins the deleting set while the request runs. |
| `AdminPage.AdminView.FinishDelete` | web/src/app/admin/page.jsx:60-74 | On an ok response, the local list loses every entry with id and keeps the others in order. Whether or not it succeeded, id leaves the deleting set, and every other member stays. |

## Left out

- Database failures and the `catch` blocks that turn them into 500 replies: the store model's operations always succeed.
- The database's conversion of the `id` query text to an integer: a non-numeric id (a database error) is not modelled. The id parameter is `Option<nat>`, and None covers both an absent and an empty value.
- `parseInt` on malformed or non-positive `page`/`limit` strings: those parameters are absent or positive integers (`Option<Positive>`).
- `Math.ceil` on a floating-point quotient: `TotalPages` is integer ceiling division. The two agree for row counts below 2^53.
- Request fields that are not strings, and JavaScript truthiness on them: the three fields are strings, and an absent field is the empty string (both are falsy). Lengths count characters, not UTF-16 code units.
- The body of the notification e-mail: the HTML and text templates, the recipient and sender defaults read from the environment, and `toLocaleString` date formatting. `Notice` keeps the subject line and the fields the e-mail reports. Delivery itself is the `notifierFails` parameter.
- `sendEmail`, the `sql` driver, HTTP and JSON encoding: these are foreign calls. The JSON replies are the `PostReply`, `ListReply` and `DeleteReply` datatypes. Status codes come from `Status` and `DeleteStatus`, and texts from `ReplyText` (with `ErrorText`) and `DeleteText`.
- The constant `success: true` field of the 200 replies (web/src/app/api/contact/route.js:112, web/src/app/api/contact/submissions/route.js:27 and 68) is not a field of the model: it is implied by the `Accepted` constructor, by a `ListReply`, and by the `Deleted` constructor.
- NewestFirst, PagesCoverAllRows: the model fixes one tie order, larger id first, and uses it for every request. The source sorts only by `created_at DESC`, so separate `LIMIT`/`OFFSET` requests may order rows with equal `created_at` differently. For example, with two such rows and limit 1, the same row could appear on both pages and the other on neither. Page coverage therefore holds for the source only when `created_at` values are distinct.
- The admin page's `loadSubmissions`: it reads `data.submissions`, `data.page` and `data.totalPages`, while the list route replies with `data` and `pagination.*`. The fetch, the loading and error flags, and `formatDate` are not modelled. The button rules take `page`, `totalPages` and `loading` as inputs.
- React rendering, `confirm`/`alert`, and the scheduling of asynchronous state updates. `handleDelete` is split at its request into `BeginDelete` and `FinishDelete`.
- A database sequence may skip id values; the model's ids advance by exactly one. Only strict increase is used by the proofs.
- Concurrency between requests: each handler is one atomic step on the table.
- The marketing page web/src/app/page.jsx is not part of this model.
