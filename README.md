# Document registry of the tracker-cycle dashboard

This project models the client-side document registry of the tracker-cycle
dashboard (`script.js`). The registry is the global `State` record:

- the signed-in user (name and role);
- `allData`, the mirror of the backend's documents, where each document is
  a row `[timestamp, code, appName, user, status]`;
- `filteredData`, the rows the table shows;
- the current page, with 10 rows per page.

The model covers the operations that read or change this state:

- loading the document list;
- the optimistic insert after a document is added;
- the optimistic status change, which only an administrator may make;
- the search box;
- the page change;
- rendering the current page and its pagination bar;
- the status badge and the status dialog.

Rows are objects (`Documents.Row`). `allData` and `filteredData` share them,
as the arrays do in the source. So the in-place status write in
`Data.updateStatus` shows through both. The registry is the class
`Dashboard.Registry`. Its invariant `Valid()` says three things:

- the page is at least 1;
- no row object appears twice in `allData`;
- `filteredData` is an order-preserving subsequence of `allData`.

Every method keeps this invariant. The backend's reply to each call is a
parameter of the method. `AddDocument` and `UpdateStatus`, which send a POST,
return the request they send, or `None` when the code sends nothing. `Load`
sends its GET unconditionally and returns nothing.

Notes on what the code does:

- Loading replaces `allData` and `filteredData`. It does not reset the page
  and does not re-apply the search keyword.
- There is no sorting.
- The status vocabulary is `On Progress` / `Pending` / `Done`. Only an
  administrator can set a status. There is no mandatory comment and no
  history entry.
- With nobody signed in, `Data.updateStatus` throws on `State.user.role`
  before it sends anything. The model returns no request, the same outcome.
- An optimistic status change does not re-filter the view. A row can stay
  visible after its new status no longer matches the keyword.

## Model

| member | source | states |
|---|---|---|
| `Dashboard.Registry.constructor` | script.js:14-22 | Start-up state: the stored session, no rows, page 1, empty search box. |
| `Dashboard.Registry.ViewRowsAreMirrorRows` | script.js:318 | Every row in `filteredData` is a row object of `allData`, in every valid state. |
| `Dashboard.Registry.Load` | script.js:61-72 | On a fetched reply, `allData` holds fresh rows whose contents are the fetched rows, or none for a falsy body. `filteredData` equals `allData`. The page, the session and the search box are kept. A failed fetch changes nothing. The invariant is kept. |
| `Dashboard.Registry.AddDocument` | script.js:74-112 | The request carries the signed-in user's name. With nobody signed in no request is sent. On success a fresh row with the reply's contents is at index 0 and the previous rows follow in order (length + 1). `filteredData` equals `allData`, page is 1 and the search box is cleared. Otherwise nothing changes. |
| `Dashboard.Registry.UpdateStatus` | script.js:114-146 | A request is sent exactly when the user is an administrator. After an accepted reply only the status of the first row whose code equals `prdCode` becomes `newStatus`. Every other row and cell is unchanged, and nothing changes when no row matches. Every row of `filteredData` shows the same status as the shared row in `allData`. |
| `Dashboard.Registry.Search` | script.js:315-328 | `filteredData` becomes `Select(allData, lower(input))`. An empty input keeps every row. Page is 1 and `allData` is unchanged. |
| `Dashboard.Registry.ChangePage` | script.js:268-273 | A page outside 1..TotalPages leaves the page as it was. Any other page becomes the current page. Only the page can change, so repeating a request leaves the state as the first one did. |
| `Dashboard.Registry.RenderTable` | script.js:172-205 | An empty view gives only the empty-state notice, with no rows and no controls. Otherwise there is one line per row of the current page slice, in order: code, app, badge, user, timestamp. The pagination bar is `Controls(TotalPages, page)`. |
| `Dashboard.Received` | script.js:65 | A falsy body (`null`, `false`, `0`, `""`) stores no rows, a fetched array is stored as it is. |
| `Dashboard.LineOf` | script.js:189-201 | A table line holds the row's code, app name, user and timestamp cells in column order, and the badge `StatusBadge(session, status, code)` of the row's status and code: its colour class and, for an administrator only, the dialog it opens. |
| `Documents.Select` | script.js:318-324 | `allData.filter(...)`: the result is an order-preserving subsequence of the rows. |
| `Documents.Matches` | script.js:320-323 | The filter callback: every row matches the empty keyword, and a row matches only a keyword no longer than one of its four searched cells. |
| `Documents.SelectKeepsMatches` | script.js:318-324 | The filter keeps a row exactly when its code, app name, user or status contains the keyword after lower-casing. A missing cell reads as "". |
| `Documents.SelectEmptyKeyword` | script.js:318-324 | Filtering with the empty keyword keeps all rows, in order. |
| `Documents.MatchesIgnoringCase` | script.js:316-323 | A row that contains the typed text verbatim in one of the four searched cells matches the lower-cased keyword. |
| `Documents.SubsequenceMembers` | script.js:318 | A subsequence holds only elements of the whole. |
| `Documents.SubsequenceReflexive` | script.js:66 | The copy `[...allData]` is a subsequence of `allData`. |
| `Documents.FirstWithCode` | script.js:133 | The index of the first row whose code equals the given code, or the length when none does. No earlier row has that code. |
| `Documents.Values` | script.js:190 | The contents of a row sequence, position by position. |
| `Text.Lower` | script.js:316 | Lower-casing keeps the length, leaves no upper-case letter, and each character equals the original up to case. |
| `Text.Contains` | script.js:320-323 | `includes`: a string contains only keywords no longer than itself. |
| `Text.LowerIdempotent` | script.js:316 | Lower-casing twice is the same as lower-casing once. |
| `Text.ContainsIffOccurs` | script.js:320-323 | `includes` holds exactly when the keyword occurs at some index of the cell text. |
| `Text.ContainsLowered` | script.js:320-323 | A verbatim occurrence is still an occurrence after both sides are lower-cased. |
| `Paging.TotalPages` | script.js:243 | `Math.ceil(count / limit)`: the least page count whose pages hold all rows. |
| `Paging.PageSlice` | script.js:185-187 | The page has at most `limit` rows. Its k-th row is row `(page-1)*limit + k`. Its length is `min(limit, count - (page-1)*limit)`, or 0 past the end. |
| `Paging.PageSliceNonEmpty` | script.js:185-187 | A page has rows exactly when it is within 1..TotalPages, which is the range `changePage` accepts (script.js:269-270). |
| `Paging.PagesArePrefix` | script.js:185-187 | Pages 1..n laid end to end are the first `n*limit` rows. |
| `Paging.PagesCoverRows` | script.js:185-187 | All pages together are exactly the rows, with nothing lost or repeated. |
| `Paging.TwentyThreeRows` | script.js:185-187 | 23 rows at 10 per page give 3 pages. Page 1 has 10 rows, page 3 has 3 and page 4 has none. |
| `Paging.Shown` | script.js:257 | The first page, the last page and the current page always get a numbered button. |
| `Paging.Slot` | script.js:257-261 | One turn of the loop over pages adds at most one entry. A page link it adds targets page `i`, is labelled `i` and is not disabled. |
| `Paging.Window` | script.js:256-262 | The loop over pages 1..n adds at most one entry per page. |
| `Paging.Controls` | script.js:243-265 | The bar is empty exactly when there is at most one page. Otherwise it has between 2 and total + 2 entries, starts with Previous to page - 1, disabled iff page is 1, and ends with Next to page + 1, disabled iff page is the last. |
| `Paging.PaginationControls` | script.js:241-266 | The loop with its accumulator builds exactly `Controls(TotalPages, page)`. That is no controls when there is at most one page. Otherwise it is Previous, the page entries, then Next. Previous is disabled iff page is 1 and Next is disabled iff page is the last page. |
| `Paging.WindowLinks` | script.js:256-258 | The numbered buttons are exactly the pages `i` with `i == 1`, `i == total` or `abs(i - page) <= 1`. Each is labelled with its number, active iff it is the current page, and never disabled. |
| `Paging.WindowAscending` | script.js:256-262 | Numbered buttons appear in strictly ascending page order. |
| `Paging.WindowEllipses` | script.js:259-260 | The number of ellipses is the number of pages among `page - 2` and `page + 2` that exist and have no button. |
| `Paging.HiddenPageHasEllipsis` | script.js:259-260 | Each of `page - 2` and `page + 2` that exists and has no button gets its own ellipsis, with every page link before it targeting a lower page and every one after it a higher page. |
| `Paging.WindowEllipsisPlaces` | script.js:256-262 | Every ellipsis stands in the place of `page - 2` or `page + 2`, a page that exists and has no button: every page link before it targets a lower page and every one after it a higher page. |
| `Paging.ControlsDisabledIffRefused` | script.js:254-273 | For a current page in range, a control is disabled exactly when `changePage` would refuse its target. |
| `StatusBadges.KnownStatus` | script.js:207-211 | Reads a status cell as one of On Progress / Pending / Done exactly when it is that string. |
| `StatusBadges.BadgeClass` | script.js:208-211 | The colour class is one of bg-primary, bg-success, bg-warning text-dark and bg-secondary. It is bg-secondary exactly when the status is none of the three known ones. |
| `StatusBadges.BadgeClassIdentifiesStatus` | script.js:207-211 | The colour class decodes back to the known status: bg-primary, bg-success and bg-warning text-dark are distinct. bg-secondary is given exactly to every other status. |
| `Accounts.IsAdmin` | script.js:214 | `State.user && State.user.role === 'admin'`: only a signed-in user can be an administrator; nobody signed in is never one. |
| `StatusBadges.StatusBadge` | script.js:207-219 | The badge shows the status in its colour. It is clickable, opening the dialog with the printed code and status, exactly for an administrator. |
| `StatusBadges.Decide` | script.js:221-238 | A change is requested exactly when the dialog is confirmed with a status different from the current one. The change carries the prompt's code and the chosen status, which is one of the three offered choices. |
| `StatusBadges.ConfirmingCurrentStatusIsNoChange` | script.js:225-236 | Confirming the status a known badge already shows requests no change. |

## Left out

- `api/auth.js` and `api/proxy.js` are not part of this model. They are server-side token issuing and request forwarding.
- `Auth.login` and `Auth.logout` (script.js:27-55) are not part of this model. The session is a constructor parameter. Logout reloads the page.
- `UI.init`, the DOM updates, the SweetAlert dialogs and messages, the loading spinner, the Bootstrap modal and `localStorage` are left out. The model keeps only the state they leave behind and the value `addDocument` returns.
- `fetch` and `await` are not modelled. Each backend reply is a parameter and each operation runs to completion. Interleaved outstanding requests are not modelled.
- `UI.formatDate` (script.js:275-279) depends on `Date` parsing and the id-ID locale. Timestamps are opaque cells shown as received.
- Text.Lower: lower-cases ASCII letters only. JavaScript's `toLowerCase` applies Unicode case mapping.
- Cells are strings or missing. A numeric cell, on which `toLowerCase` would throw, is not modelled. A `null` cell is treated like a missing one, so it prints as "undefined" where the source prints "null".
- A fetched body that is a JSON object (such as an error object), `true` or a non-zero number is not modelled. The source stores it in `allData` and then throws while copying it. A falsy body (`null`, `false`, `0`, `""`) is the falsy-body reply: `data || []` stores no rows.
- A fetched body that is a non-empty JSON string is not modelled. The source copies it character by character, so the view holds one "row" per character.
- StatusBadges.StatusBadge: the prompt arguments are assumed to pass through the inline `onclick` attribute (script.js:215) unchanged. A code or status containing `'`, `"`, `\`, a line break or an HTML character reference is not modelled; in the source it breaks the handler or alters the value the dialog receives.
- Dashboard.Registry.UpdateStatus: the role and user name are taken from the client state and sent in the request body. The model does not claim any server-side check of them.
- Sorting, comments, status history and the five-state workflow are left out. They do not occur in this code.
