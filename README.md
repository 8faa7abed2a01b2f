# ResQConnect rescue-request core, modelled in Dafny

ResQConnect is a browser application for logging animal-rescue requests.
A reporter submits a form. An operator watches a dashboard that counts
requests by status, filters and sorts them, and moves them through a small
lifecycle: pending, then in progress, then rescued. Everything is kept in one
local-storage slot, `resqRequests`.

This project models that data core of `app.js`:

- `Storage`: the slot as a class holding `Option<seq<Request>>`, already
  decoded from JSON. It has `getRequests`, `saveRequest`,
  `updateRequestStatus` and its `findIndex` search, and `clearAllRequests`.
- `RequestModel`: the record, and its in-place status update as a value.
- `Views`: the status and urgency filters and the dashboard counters.
- `Sorting`: the comparator of `loadRequests` and the stable sort that
  ECMA-262 2019, section 22.1.3.27 requires of `Array.prototype.sort`. The sort
  is written as insertion sort twice: a function, and an in-place method on an
  array that is proved equal to it.
- `Lifecycle`: the transition table that the two templates encode through
  the buttons they render.
- `TimeFormat`: the bucket arithmetic of `formatTimestamp`.
- `Navigation`: `getCurrentPage`.
- `RescueForm`: `generateRequestId` and the record `handleFormSubmit` builds.
- `Dashboard`: `loadDashboardStats`, `loadRequests` and `changeRequestStatus`.
- `Decimal` and `Selection`: the number-to-text rendering of template
  literals, and `Array.prototype.filter`.

Inputs from the browser are parameters:

- `Date.now()` is an `int` of milliseconds, one parameter per call.
- `Math.random()` is a `real` in [0, 1).
- The user's answer to `confirm()` is a `bool`.
- The values of the filter controls are `Option<string>`, with None when
  the control is missing.
- The checked urgency radio is `Option<Urgency>`.

Behaviour of `app.js` that is easy to misread:

- `handleFormSubmit` calls `Date.now()` three times: once for the id, once
  for `timestamp` and once for `updatedAt`. `updatedAt == timestamp` is
  guaranteed only when the second and third readings agree
  (`RescueForm.CreatedWhenUpdated`). The id is guaranteed to start with "RQ"
  and the timestamp only when the first two agree
  (`RescueForm.IdEmbedsTimestamp`).
- The status is a free string, not an enum. `updateRequestStatus` stores
  any value. Only the dashboard's buttons keep it to the three known values.
  So the counters add up to at most the total, and exactly to the total
  when every status is known (`Views.StatsBounded`).
- The card in the list offers fewer transitions than the detail view. An
  in-progress card offers only "Mark as Rescued". "Move to Pending" exists
  only in the detail view.
- Ids are not checked for uniqueness. A status change always updates the
  first record with the id, even when the button belongs to a later record
  that shares it.

## Model

| member | source | states |
|---|---|---|
| Storage.FindIndex | app.js:148 | -1 exactly when no record has the id; otherwise the first index holding it |
| Storage.RequestStore.GetRequests | app.js:141-144 | an absent slot reads as the empty list, a present one as its list |
| Storage.RequestStore.SaveRequest | app.js:135-139 | the slot afterwards holds the old list with the record appended at the end |
| Storage.RequestStore.SaveRequests | app.js:715 | saving records one by one leaves the old list followed by exactly those records, in order |
| Storage.RequestStore.UpdateRequestStatus | app.js:146-156 | true exactly when some record has the id; then the first such record gets the new status and update time and nothing else changes; otherwise the slot is untouched |
| Storage.RequestStore.ClearAllRequests | app.js:158-163 | a confirmed clear removes the slot, so the next read is empty; a declined one changes nothing |
| RequestModel.SetStatus | app.js:150-151 | same length; the record at the index has the new status and update time and keeps its id, timestamp, location, animal and reporter; every other record is unchanged |
| RequestModel.UrgencyName | app.js:364 | an urgency is spelled critical, high or medium, each name belonging to exactly one urgency |
| Decimal.NatToDecimal | app.js:108 | a natural number prints as a non-empty digit string with no leading zero |
| Decimal.IntToDecimal | app.js:108 | the text starts with a minus sign exactly for negative numbers |
| Decimal.DecimalRoundTrip | app.js:108 | reading the printed digits back gives the number |
| Decimal.IntToDecimalInjective | app.js:108 | different integers print differently |
| Selection.Select | app.js:359 | the filter keeps no more elements than it is given, and keeps only elements that satisfy the predicate |
| Selection.SelectAppend | app.js:359 | filtering a concatenation is concatenating the filtered parts |
| Selection.SelectIsSubsequence | app.js:359 | the filtered list is a subsequence of the input, in its original order |
| Selection.SelectCount | app.js:359 | each element occurs in the result as often as in the input if it satisfies the predicate, otherwise never |
| Views.FilterByStatus | app.js:358-360 | 'all' passes the list through, and no value lengthens it; which records it keeps is stated by Views.FilterByStatusSpec |
| Views.FilterByUrgency | app.js:363-365 | 'all' passes the list through, and no value lengthens it; which records it keeps is stated by Views.FilterByUrgencySpec |
| Views.FilterByStatusSpec | app.js:358-360 | 'all' is the identity; any other value gives, in original order, exactly the records with that status, with multiplicity |
| Views.FilterByUrgencySpec | app.js:363-365 | 'all' is the identity; any other value gives, in original order, exactly the records whose urgency has that name |
| Views.UnknownUrgencyFilterIsEmpty | app.js:363-365 | an urgency filter value that is not 'all' and not an urgency name shows nothing |
| Views.CountStatus | app.js:338-340 | a status counter is at most the number of records, and non-zero exactly when some record has the status |
| Views.ComputeStats | app.js:336-341 | the total is the number of records; each status counter is bounded by it and non-zero exactly when some record has that status |
| Views.StatsBounded | app.js:336-341 | pending + in progress + rescued is at most the total, and equals it exactly when every status is one of the three |
| Views.StatsAfterAppend | app.js:336-341 | appending a record adds one to the total and one to the counter of its status only |
| Views.CountAfterSetStatus | app.js:338-340 | a status change moves one record from the count of its old status to the count of its new one |
| Views.StatsAfterSetStatus | app.js:336-341 | after a status change the total is unchanged and the three counters shift by that one record |
| Sorting.Rank | app.js:374 | the rank table gives critical 0, high 1 and medium 2, and nothing else gets 0 or 1 |
| Sorting.Compare | app.js:368-378 | every mode's comparator, including the unknown mode's constant 0, is the difference of a per-record key, so it is a consistent comparator |
| Sorting.Insert | app.js:368 | inserting adds exactly one element |
| Sorting.InsertPermutes | app.js:368 | insertion adds the record to the multiset and loses nothing |
| Sorting.StableSort | app.js:368 | sorting keeps the length |
| Sorting.StableSortPermutes | app.js:368 | the sorted list is a permutation of the filtered list |
| Sorting.InsertSorted | app.js:368-378 | inserting into a list that is sorted under the comparator keeps it sorted |
| Sorting.StableSortSorted | app.js:368-378 | the result is sorted under the comparator |
| Sorting.InsertKeepsClasses | app.js:368-378 | insertion puts the record after every record with an equal key |
| Sorting.StableSortKeepsClasses | app.js:368-378 | stability: records with equal keys keep their relative order |
| Sorting.UnknownModeKeepsOrder | app.js:377 | an unknown sort mode leaves the list in its original order |
| Sorting.StableSortCorrect | app.js:368-378 | a permutation; newest gives non-increasing and oldest non-decreasing timestamps; urgency gives critical before high before medium; stable; an unknown mode is the identity |
| Sorting.UrgencySortExample | app.js:373-376 | urgencies medium, critical, high, critical sort to critical, critical, high, medium, keeping the two critical records in order |
| Sorting.InsertPosition | app.js:368 | insertion places the record just after the last record that does not compare after it |
| Sorting.InsertAt | app.js:368 | shifting records right inside the array computes the functional insertion, and the rest of the array is untouched |
| Sorting.SortInPlace | app.js:368-378 | the in-place sort leaves the array equal to the stable sort of its old contents |
| Lifecycle.CardActions | app.js:452-469 | a card has at most one button, present exactly for pending and in-progress records; an in-progress card offers only rescued; each target is allowed by the transition table `Lifecycle.Transitions` |
| Lifecycle.DetailActions | app.js:565-595 | the detail view offers exactly the table's entry: pending to in progress; in progress to rescued or pending; nothing otherwise |
| Lifecycle.TransitionFacts | app.js:565-595 | the table `Lifecycle.Transitions` read as a relation: rescued offers nothing; no status is offered as its own target; pending is reached only from in progress; the full allowed relation |
| Lifecycle.Reachable | app.js:565-595 | every status reachable by the buttons is a known status or the starting one |
| Lifecycle.RescuedIsTerminal | app.js:565 | after any number of actions a rescued record is still rescued |
| TimeFormat.FormatTimestamp | app.js:111-122 | under a minute (negative included) is just now; then minutes 1..59, hours 1..23, days 1..6, each the floor of the elapsed time; from seven days on, the absolute date |
| TimeFormat.AgeText | app.js:119-122 | a label is printed for every bucket but the absolute date, and it reads "Just now" exactly in the just-now bucket |
| TimeFormat.AgeMonotonic | app.js:114-122 | a later clock never gives a younger bucket, nor a smaller count within the same bucket |
| TimeFormat.PluralSuffix | app.js:121-122 | hours and days carry the plural "s" exactly when the count is greater than one |
| TimeFormat.FutureIsJustNow | app.js:119 | a timestamp ahead of the clock reads "Just now" |
| Navigation.IncludesIffOccurs | app.js:85-86 | the includes test holds exactly when the text occurs at some position |
| Navigation.GetCurrentPage | app.js:83-88 | form exactly when the path includes rescue-form; dashboard exactly when it does not but includes admin-dashboard; otherwise home |
| Navigation.FormTakesPriority | app.js:85 | a path containing rescue-form is the form page, whatever else it contains |
| Navigation.OtherPathsAreHome | app.js:87 | a path containing neither name is the home page |
| RescueForm.RandomSuffix | app.js:107 | the random part is the floor of random times 10000, in 0..9999 |
| RescueForm.RequestId | app.js:108 | the id text starts with "RQ", continues with the clock reading, and has at least one more character |
| RescueForm.GenerateRequestId | app.js:105-109 | the id is "RQ", then the clock reading, then some number in 0..9999 |
| RescueForm.IdDeterminesParts | app.js:108 | when two clock readings print with the same number of digits, equal ids mean an equal reading and an equal suffix |
| RescueForm.IdAmbiguousAcrossLengths | app.js:108 | readings of different lengths can collide: reading 1 with suffix 23 gives the same id as 12 with 3 |
| RescueForm.BuildRequest | app.js:268-291 | the new record is pending; its urgency is the checked one, or medium when none is checked; every form field is copied verbatim; the clock readings go into the id, timestamp and updatedAt |
| RescueForm.CreatedWhenUpdated | app.js:270-290 | when the second and third clock readings agree, updatedAt equals timestamp |
| RescueForm.IdEmbedsTimestamp | app.js:269-270 | when the first two clock readings agree, the id starts with "RQ" followed by the record's timestamp |
| RescueForm.HandleFormSubmit | app.js:259-298 | a submission appends exactly one record, the built one, and returns the id of the stored record |
| Dashboard.ControlValue | app.js:353-355 | a missing control or an empty value falls back to the default; any other value is used as is |
| Dashboard.DashboardView | app.js:357-378 | the rendered list is never longer than the store and holds only stored records that pass both filters |
| Dashboard.DashboardViewSpec | app.js:349-378 | the rendered list holds exactly the stored records that pass both filters, with multiplicity, sorted by the mode, and stable |
| Dashboard.LoadDashboardStats | app.js:333-347 | the counters are those of the stored list; the total is its length and bounds the other three together |
| Dashboard.LoadRequests | app.js:349-381 | the list rendered is the filtered, in-place sorted view of the controls' values, with defaults 'all', 'all' and 'newest' |
| Dashboard.ChangeRequestStatus | app.js:606-611 | a successful update re-renders the counters and the list from the new store contents; a failed one writes nothing and renders nothing |
| Dashboard.ButtonChangeKeepsCountersExact | app.js:606-611 | a change to a status offered by a button keeps every status known, so the counters still add up to the total |
| Dashboard.SampleStats | app.js:640-713 | one pending, one in-progress and one rescued record give the counters total 3, pending 1, in progress 1, rescued 1 |

## Left out

- Rendering is not modelled. This covers `renderRequests`, the card and
  detail markup, `showSuccessMessage`, opening and closing the modal, and
  the refresh button's timed animation. Only the transition table
  encoded by the buttons is kept.
- `getCurrentLocation` is left out. It is an asynchronous platform
  callback that formats floating-point coordinates. The coordinates
  it writes reach the model only as the form's latitude and longitude text.
- The hamburger menu, smooth scrolling and `initApp`'s event wiring are left
  out. They only toggle DOM classes and attach listeners.
- JSON encoding is not modelled. The slot holds the decoded list
  directly. The source does not define what happens when the slot holds
  malformed JSON, so that case is not modelled either.
- `location.reload()` after a confirmed clear is left out. It reloads the
  page, which re-runs the dashboard's initial render.
- The absolute date that `formatTimestamp` prints from seven days on, and the
  detail view's `toLocaleString`, are locale output. The model returns the
  bucket `OnDate(timestamp)` instead of text.
- The urgency is restricted to the three values. An unknown urgency string
  makes the rank lookup undefined, so the comparator returns NaN.
- RescueForm.RandomSuffix: uses exact real arithmetic, not
  double-precision multiplication.
- RescueForm.BuildRequest: form fields are strings. FormData's `null` for
  a field that is absent from the form is not modelled.
- `addSampleData`, a development fixture, is left out. Its `forEach` loop is
  modelled as `SaveRequests`, and its three statuses are used in
  `SampleStats`.
- Record ids are not proved unique. The code never checks uniqueness.
