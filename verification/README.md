# Job board: storage layer and pages, modelled in Dafny

JobStream is a job board that runs entirely in the browser. Its data layer,
`src/utils/localStorage.ts`, keeps three collections and the signed-in user
under fixed storage keys. The collections are users, jobs and applications. The
job detail page stores one more value of its own, under `redirect_after_login`:
the path to return to after signing up. Every
`save*` call reads a whole collection, overwrites the first record with the same
id (or appends), and writes the collection back. Five pages sit on top of it:

- the job list (`src/pages/Jobs.tsx`): three filters, two sort orders and the
  market figures in the sidebar;
- the home page (`src/pages/Index.tsx`): the three newest jobs and the
  "Active Jobs" figure;
- the companies page (`src/pages/Companies.tsx`): the jobs grouped by company
  name, with a count per company;
- the posting page (`src/pages/PostJob.tsx`): who may post, which fields are
  required, and the record that gets saved;
- the job detail page (`src/pages/JobDetail.tsx`): the lookup by route id, the
  "already applied" badge, the apply button's guards and the application form.

The project models these parts:

- `wrappers.dfy`: `Option`.
- `text.dfy`: the string operations the pages call. These are ASCII
  `toLowerCase`, `includes`, `replace(/\D/g, '')` followed by `parseInt`, and
  the decimal rendering of a count.
- `tables.dfy`: the array operations every repository uses. These are
  `findIndex`, `find`, `filter`, `some`, the upsert and the delete by id.
- `entities.dfy`: the records.
- `store.dfy`: the data layer as a class `Store`, plus the ten seed jobs. It has
  one field per storage key, the return path included. The whole-collection
  reads `getUsers`, `getJobs` and `getApplications` are the fields `users`,
  `jobs` and `applications` themselves; every other exported function is a
  method or a function of the class.
- `sorting.dfy`: the in-place descending sort both list pages perform.
- `posted_age.dfy`: `formatPostedAt`. Jobs.tsx and Index.tsx define it with the
  same body, so one definition serves both.
- `jobs.dfy`, `index.dfy`, `companies.dfy`, `post_job.dfy`, `job_detail.dfy`:
  one module per page. Page state the source mutates is a class, and each event
  handler is a method on it.

Modelling conventions:

- Timestamps are integer milliseconds.
- The current time, generated ids and the signed-in user are parameters. In the
  source they come from `Date.now()` and from the authentication hook, which is
  not part of this model.
- The job list sorts by salary on the digits of the salary text, read as one
  number. For "$120k - $180k" that number is 120180, so salary ranges are not
  compared as ranges. The model keeps this behaviour. `Jobs.SalaryKeyJoinsRange`
  states it for every range.

## Model

| member | source | states |
|---|---|---|
| `Text.Lower` | src/pages/Jobs.tsx:31-37 | Lower-casing keeps the length and maps each character through ASCII lower-casing. |
| `Text.LowerIdempotent` | src/pages/Jobs.tsx:31-37 | Lower-casing an already lower-cased string changes nothing. |
| `Text.IncludesIffOccurs` | src/pages/Jobs.tsx:32-37 | The left-to-right `includes` scan succeeds exactly when the needle occurs at some offset of the haystack. |
| `Text.MissingCharExcludes` | src/pages/Jobs.tsx:36-37 | A needle with a character the haystack lacks is never included in it. |
| `Text.DigitsOnly` | src/pages/Jobs.tsx:49-50 | Stripping non-digits leaves only digits, no more characters than before, and nothing exactly when the text had no digit. |
| `Text.DigitsOnlyOfDigits` | src/pages/Jobs.tsx:49-50 | A string of digits is left as it is by the stripping. |
| `Text.DigitsOnlyConcat` | src/pages/Jobs.tsx:49-50 | Stripping non-digits works piecewise over a concatenation. |
| `Text.DecimalValueConcat` | src/pages/Jobs.tsx:49-50 | Digits written after others shift the earlier ones by as many decimal places. |
| `Text.ShiftLeft` | src/pages/Jobs.tsx:49-50 | Appending one more digit to a shifted number distributes over the shift. |
| `Text.ParseDigits` | src/pages/Jobs.tsx:49-50 | The salary number is absent (JavaScript `NaN`) exactly when the text has no digit. |
| `Text.NatToString` | src/pages/Jobs.tsx:72 | The rendering of a count is a non-empty string of digits, starting with "0" only for zero itself and one digit long exactly below ten. |
| `Text.DecimalValueOfNatToString` | src/pages/Jobs.tsx:72 | Reading back the digits of a rendered count gives the count. |
| `Text.NatToStringInjective` | src/utils/localStorage.ts:161-292 | Two different counts render differently, so the seed ids "1" to "10" are distinct. |
| `Text.ParseDigitsOfNatToString` | src/pages/Index.tsx:137 | Parsing the digits of a rendered count gives the count back. |
| `Tables.FindIndex` | src/utils/localStorage.ts:49 | `findIndex` returns the first index whose key matches, and -1 exactly when no key matches. |
| `Tables.Find` | src/utils/localStorage.ts:107-110 | `find` returns a record exactly when some key matches, and then the one at the first matching index. |
| `Tables.Filter` | src/utils/localStorage.ts:112-115 | `filter` returns only passing records, keeps every passing record, and keeps the stored order (a subsequence); `Tables.FilterCounts` adds that each record keeps its multiplicity. |
| `Tables.FilterCounts` | src/utils/localStorage.ts:112-115 | Every copy of a passing record is kept and no copy of a failing one: each record occurs in the result as often as in the input if it passes, and never otherwise. |
| `Tables.Any` | src/utils/localStorage.ts:152-155 | `some` holds exactly when some record passes. |
| `Tables.Upsert` | src/utils/localStorage.ts:89-100 | A save overwrites the first record with the same id in place and keeps the others; without one it appends. |
| `Tables.FilterConcat` | src/utils/localStorage.ts:112-115 | Filtering distributes over concatenation. |
| `Tables.FilterAll` | src/pages/Jobs.tsx:30-42 | A test every record passes filters nothing out. |
| `Tables.FilterNone` | src/utils/localStorage.ts:117-121 | A test no record passes filters everything out. |
| `Tables.FilterSnoc` | src/utils/localStorage.ts:112-115 | An appended record joins the filtered result exactly when it passes. |
| `Tables.FindSnoc` | src/pages/Companies.tsx:22-29 | An appended record changes what `find` returns only when no earlier record had the key. |
| `Tables.FindAfterUpsert` | src/utils/localStorage.ts:89-110 | After a save, the lookup by the saved id returns the saved record. |
| `Tables.UpsertOverwrites` | src/utils/localStorage.ts:89-100 | Saving twice under one id leaves what saving the second payload alone leaves: a full overwrite, not a merge. |
| `Tables.UpsertKeepsKeysUnique` | src/utils/localStorage.ts:89-100 | A save keeps the ids of a collection distinct. |
| `Tables.UpsertFreshThenRemove` | src/utils/localStorage.ts:89-121 | Saving under a fresh id leaves exactly one record with it, and deleting that id restores the collection. |
| `Tables.FilterUpsertFresh` | src/utils/localStorage.ts:124-155 | Saving under a fresh id adds the record at the end of every filtered view it passes, and changes no other view. |
| `Tables.RemoveKeySpec` | src/utils/localStorage.ts:117-121 | Deleting an id no record carries changes nothing. |
| `Tables.RemoveKey` | src/utils/localStorage.ts:117-121 | After a delete no record has the id; every other record is kept as often as it was stored and in stored order, and no record with the id is kept. |
| `Storage.Store.constructor` | src/utils/localStorage.ts:60-63 | Unwritten keys read as empty collections, no session and no stored return path. |
| `Storage.Store.SaveUser` | src/utils/localStorage.ts:47-58 | The users become the upsert of the user, and a lookup by its id finds it. |
| `Storage.Store.GetUserByEmail` | src/utils/localStorage.ts:65-68 | A user is returned exactly when one has the e-mail, and then it is the first such user. |
| `Storage.Store.AuthenticateUser` | src/utils/localStorage.ts:70-77 | Succeeds exactly when the first user with the e-mail has this password, and then makes that user the session; a failure leaves the session as it was. |
| `Storage.Store.LogoutUser` | src/utils/localStorage.ts:84-86 | Afterwards there is no current user. |
| `Storage.Store.SaveJob` | src/utils/localStorage.ts:89-100 | The jobs become the upsert of the job, and a lookup by its id finds it. |
| `Storage.Store.GetJobById` | src/utils/localStorage.ts:107-110 | A job is returned exactly when one has the id, and then it is the first such job. |
| `Storage.Store.GetJobsByEmployer` | src/utils/localStorage.ts:112-115 | Returns every stored job of the employer, each as often as it is stored, and nothing else, in stored order. |
| `Storage.Store.DeleteJob` | src/utils/localStorage.ts:117-121 | No job with the id remains, every other job is kept as often as it was stored and in order, and deleting an absent id changes nothing. |
| `Storage.Store.SaveApplication` | src/utils/localStorage.ts:124-135 | The applications become the upsert of the application, and `hasUserApplied` then holds for its job and candidate. |
| `Storage.Store.GetApplicationsByJob` | src/utils/localStorage.ts:142-145 | Returns every stored application for the job, each as often as it is stored, and nothing else, in stored order. |
| `Storage.Store.GetApplicationsByCandidate` | src/utils/localStorage.ts:147-150 | Returns every stored application of the candidate, each as often as it is stored, and nothing else, in stored order. |
| `Storage.Store.HasUserApplied` | src/utils/localStorage.ts:152-155 | True exactly when a stored application pairs this job with this candidate. |
| `Storage.Store.InitializeSampleData` | src/utils/localStorage.ts:158-296 | Stored jobs are left alone; an empty job list becomes the ten sample jobs, in order. |
| `Storage.Store.SaveEach` | src/utils/localStorage.ts:294 | Saving jobs with distinct ids one by one into an empty store leaves exactly those jobs, in order. |
| `Storage.SampleJob` | src/utils/localStorage.ts:161-292 | Sample job k + 1 has the id "k + 1". |
| `Storage.SampleJobs` | src/utils/localStorage.ts:161-292 | There are ten sample jobs, with ids "1" to "10" in order. |
| `Storage.SampleIdsDistinct` | src/utils/localStorage.ts:161-294 | The sample ids are pairwise distinct, so seeding appends every job. |
| `Storage.SampleIdsEnds` | src/utils/localStorage.ts:161-292 | The first seeded id is "1" and the last is "10". |
| `Storage.PrefixLacksNextId` | src/utils/localStorage.ts:158-296 | With distinct ids, no sample job saved so far carries the id of the next one, so each `saveJob` of the seeding appends. |
| `Sorting.SwapAdjacent` | src/pages/Jobs.tsx:45-53 | Exchanges two neighbouring elements and keeps the multiset of elements. |
| `Sorting.SortDescending` | src/pages/Jobs.tsx:45-53 | The array ends in non-increasing key order and is a permutation of what it held. |
| `Sorting.SinkLast` | src/pages/Jobs.tsx:45-53 | One insertion step: a sorted prefix, widened by one element, is sorted again and the array keeps its multiset. |
| `PostedAge.DiffDays` | src/pages/Jobs.tsx:68-69 | The day count is the distance rounded up to whole days: the smallest d with distance <= d days. |
| `PostedAge.FormatPostedAt` | src/pages/Jobs.tsx:65-75 | Every label is a count in digits followed by " ago"; which count and unit is stated by `PostedAge.AgeBuckets`. The same body is at src/pages/Index.tsx:30-40. |
| `PostedAge.AgeBuckets` | src/pages/Jobs.tsx:65-75 | The label by elapsed time: "0 days ago", "1 day ago", "n days ago" for 2 to 6, "1 week ago" up to 13 days, then "w weeks ago". The same body is at src/pages/Index.tsx:30-40. |
| `PostedAge.DayCountIs` | src/pages/Jobs.tsx:69 | The rounded-up day count is the n with n - 1 days < distance <= n days. |
| `PostedAge.ShortBuckets` | src/pages/Jobs.tsx:68-72 | No elapsed time reads "0 days ago" and up to one day reads "1 day ago". |
| `PostedAge.DaysBucket` | src/pages/Jobs.tsx:69-72 | From two to six rounded-up days the label is "n days ago". |
| `PostedAge.LongBuckets` | src/pages/Jobs.tsx:69-74 | Seven to thirteen days read "1 week ago"; beyond that some w >= 2 whole weeks are named. |
| `PostedAge.WeeksBucket` | src/pages/Jobs.tsx:69-74 | Beyond thirteen days the day count is at least 14 and its floored week count w has 7w - 1 days < distance <= 7w + 6 days. |
| `PostedAge.FormatPostedAtSymmetric` | src/pages/Jobs.tsx:68 | A date as far in the future reads like one as far in the past. |
| `Jobs.FilterJobs` | src/pages/Jobs.tsx:30-42 | Keeps exactly the stored jobs passing the search, location and type filters, each as often as it is stored, in stored order. |
| `Jobs.SearchSemantics` | src/pages/Jobs.tsx:31-34 | A non-empty search term matches exactly when the lower-cased term occurs in the lower-cased title, company or description. |
| `Jobs.LocationSemantics` | src/pages/Jobs.tsx:36-37 | A non-empty location term matches exactly when the lower-cased term occurs in the lower-cased location. |
| `Jobs.FiltersIgnoreCase` | src/pages/Jobs.tsx:31-37 | The text filters give the same answer for a term and its lower-cased form. |
| `Jobs.ClearedFiltersKeepAll` | src/pages/Jobs.tsx:58-63 | With every filter at its default, the filtered list is the whole stored list. |
| `Jobs.DigitsOnlyAppend` | src/pages/Jobs.tsx:49 | Stripping non-digits along a concatenation, one piece at a time. |
| `Jobs.JoinDigits` | src/pages/Jobs.tsx:49 | Digits separated by digit-free text strip down to the digits written together. |
| `Jobs.SeparatorsDigitFree` | src/pages/Jobs.tsx:49 | The "$", "k - $" and "k" around the figures contribute no digit. |
| `Jobs.SalaryRangeDigits` | src/pages/Jobs.tsx:49 | Stripping "$low k - $high k" leaves the digits of low followed by those of high. |
| `Jobs.SalaryKey` | src/pages/Jobs.tsx:47-52 | The salary sort key is `NaN` exactly when the salary has no digit; `Jobs.SalaryKeyJoinsRange` gives the number for a range. |
| `Jobs.SalaryKeyJoinsRange` | src/pages/Jobs.tsx:48-52 | The sort key of "$low k - $high k" is low shifted by the digits of high, plus high; the order does not compare ranges. |
| `Jobs.SampleSalaryIsRange` | src/utils/localStorage.ts:168 | The first sample salary is the range from 120 to 180. |
| `Jobs.SampleSalaryKey` | src/pages/Jobs.tsx:49-50 | The first sample job sorts by salary as 120180. |
| `Jobs.SampleRangeKey` | src/pages/Jobs.tsx:49-50 | "$120k - $180k" parses to 120180. |
| `Jobs.FilterAndSort` | src/pages/Jobs.tsx:28-56 | The result is a permutation of the filtered jobs: newest first under "newest"; under "salary", highest salary number first whenever every salary has a digit; unsorted otherwise. |
| `Jobs.NewestOfThree` | src/pages/Jobs.tsx:45-46 | Three jobs posted at T1 < T2 < T3 can only come out of the "newest" order as [T3, T2, T1]. |
| `Jobs.JobsPage.constructor` | src/pages/Jobs.tsx:14-19 | The page starts from the stored jobs, every filter at its default and the unfiltered list shown. |
| `Jobs.JobsPage.Refresh` | src/pages/Jobs.tsx:28-56 | The shown list becomes the filtered jobs in the chosen order. |
| `Jobs.JobsPage.ClearFilters` | src/pages/Jobs.tsx:58-63 | Every filter returns to its default, which keeps every stored job. |
| `Jobs.Figures` | src/pages/Jobs.tsx:292-318 | "Total Jobs" is the number of jobs and bounds the others; "New This Week", "Remote Jobs" and "Featured Jobs" are zero exactly when no job was posted in the last seven days, has "Remote" in its location (case included), or is featured. |
| `Jobs.FiguresOne` | src/pages/Jobs.tsx:292-318 | One job counts once in the total and once in each other figure exactly when it was posted at or after seven days before now, its location contains "Remote", or it is featured. |
| `Jobs.FiguresAdd` | src/pages/Jobs.tsx:292-318 | The figures of two job lists put together are the sums of their figures. |
| `Jobs.SampleJobFoundBySearch` | src/pages/Jobs.tsx:30-42 | The search "senior", in either case, finds the first sample job. |
| `Jobs.SampleJobExcludedByLocationAndType` | src/pages/Jobs.tsx:36-39 | The location "new york" and the type "Contract" each exclude the first sample job; the type filter is exact, so "Full-time" keeps it and "full-time" does not. |
| `Index.LatestJobs` | src/pages/Index.tsx:17-23 | Keeps three jobs, or all when fewer are stored, newest first, drawn from the stored jobs; no job left out is newer than the last one kept. |
| `Index.TakeNewest` | src/pages/Index.tsx:20-22 | The first min(3, n) of a newest-first permutation of the jobs are sorted, drawn from the jobs, and no job left out is newer than the third. |
| `Index.SplitMultiset` | src/pages/Index.tsx:22 | The jobs kept and the jobs left out by `slice(0, 3)` together are all the jobs. |
| `Index.RestNotNewer` | src/pages/Index.tsx:20-22 | In a newest-first list, anything past the first three is no newer than the third. |
| `Index.ActiveJobsLabel` | src/pages/Index.tsx:137 | The figure is the stored count followed by "+", and its digits read back as that count. |
| `Index.HomePage.constructor` | src/pages/Index.tsx:14 | Before the effect runs, the page holds the first three stored jobs, unsorted. |
| `Index.HomePage.Refresh` | src/pages/Index.tsx:17-23 | After the effect, the page holds the newest three stored jobs, as `LatestJobs` states. |
| `Companies.CompanyEntryFacts` | src/pages/Companies.tsx:21-33 | A company's entry has its name, the location of its first job, and all its jobs, each as often as it is stored and in stored order, counted. |
| `Companies.CompanyNamesSnoc` | src/pages/Companies.tsx:21-33 | One more job adds its company name to the names seen. |
| `Companies.NamePresent` | src/pages/Companies.tsx:22 | A name is among the companies exactly when some job carries it. |
| `Companies.CompanyEntrySnoc` | src/pages/Companies.tsx:22-31 | One more job leaves other companies' entries alone, adds itself to its own company's entry, or creates that entry with its own location. |
| `Companies.EntrySnocOther` | src/pages/Companies.tsx:22-31 | A job of another company leaves a known company's entry unchanged. |
| `Companies.EntrySnocSame` | src/pages/Companies.tsx:30-31 | A job of a known company raises its count by one and appends the job to its list. |
| `Companies.EntrySnocNew` | src/pages/Companies.tsx:22-31 | The first job of a company creates its entry with that job's location, a count of one and the job alone. |
| `Companies.DescribesSnoc` | src/pages/Companies.tsx:21-33 | One step of the `reduce` keeps the dictionary describing the jobs seen so far. |
| `Companies.DescribesSnocAt` | src/pages/Companies.tsx:21-33 | The same, for one company name. |
| `Companies.AddJobKnown` | src/pages/Companies.tsx:22-31 | Folding one more job into a map that is right for a known company keeps it right for that company. |
| `Companies.AddJobFresh` | src/pages/Companies.tsx:22-31 | Folding in the first job of a company gives exactly that company's entry. |
| `Companies.ReduceDescribes` | src/pages/Companies.tsx:21-33 | The dictionary holds one entry per distinct company name, and each entry is that company's correct entry. |
| `Companies.AddJob` | src/pages/Companies.tsx:22-31 | One step of the `reduce` adds the job's company to the keys and changes no other entry. A new company's entry gets the job's location, a count of one and the job; a known one gets its count raised by one and the job appended. |
| `Companies.GroupByCompany` | src/pages/Companies.tsx:21-33 | The loop builds the dictionary of the `reduce`, which describes the jobs. |
| `Companies.SumOverSnoc` | src/pages/Companies.tsx:30 | One more job adds one to its company's count, once per listing of that name. |
| `Companies.OccursOnce` | src/pages/Companies.tsx:35 | Among distinct names, a name occurs once if listed and never otherwise. |
| `Companies.SumOverCovers` | src/pages/Companies.tsx:30-35 | Over distinct names that cover every job's company, the per-company counts add up to the number of jobs. |
| `Companies.SumOverEmpty` | src/pages/Companies.tsx:21-33 | With no jobs, every count is zero. |
| `Companies.SumCountsOfEntries` | src/pages/Companies.tsx:30-35 | Entries carrying their companies' job counts add up to what the names count. |
| `Companies.CompanyListEntries` | src/pages/Companies.tsx:35 | The cards listed from `Object.values` carry exactly the company names of the jobs, each card is that company's entry, and there are as many cards as distinct company names. |
| `Companies.CardNamesAreKeys` | src/pages/Companies.tsx:35 | The names on an enumeration of the dictionary's values are its keys. |
| `Companies.DistinctCardsCount` | src/pages/Companies.tsx:35 | Cards with pairwise distinct names are as many as their names. |
| `Companies.CardNamesCons` | src/pages/Companies.tsx:35 | The first card's name joins the names of the rest, among which it does not occur. |
| `Companies.CompanyCountsSum` | src/pages/Companies.tsx:21-35 | The job counts of the listed companies add up to the number of stored jobs. |
| `Companies.JobWord` | src/pages/Companies.tsx:100 | The badge says "job" exactly for a count of one and "jobs" otherwise. |
| `Companies.ReduceAsWritten` | src/pages/Companies.tsx:21-33 | The `reduce` as written can only throw for a company named like an inherited property. |
| `Companies.AsWrittenThrows` | src/pages/Companies.tsx:21-33 | The `reduce` as written throws exactly when some company name is inherited from `Object.prototype`, at the first such job; otherwise it gives the corrected dictionary. |
| `Companies.ReduceKeysFree` | src/pages/Companies.tsx:21-35 | Without inherited names among the companies, none is a key of the corrected dictionary. |
| `Companies.ConstructorCompanyThrows` | src/pages/Companies.tsx:22-31 | A single job of a company named "constructor" makes the page throw. |
| `PostJob.Submit` | src/pages/PostJob.tsx:61-87 | A post happens exactly for a signed-in employer with the six required fields filled; anyone else is refused, and a missing field gives a validation error. The job then copies every field, the entered company included, and names the poster as employer. |
| `PostJob.NewJob` | src/pages/PostJob.tsx:75-87 | The record built from the form: the entered company, or the account's company name, or ""; the given id, the poster as employer, now as posting time, and the requirements and featured flag as entered. |
| `PostJob.EmptyRequirementsAccepted` | src/pages/PostJob.tsx:66-86 | Empty requirements do not stop a post and are stored as an empty text. |
| `PostJob.PostJobPage.constructor` | src/pages/PostJob.tsx:17-25 | The form starts empty and not busy. |
| `PostJob.PostJobPage.HandleSubmit` | src/pages/PostJob.tsx:61-105 | Only an accepted submit saves, as one upsert that a lookup by the new id finds. Refused submits leave the jobs unchanged, and `loading` is false afterwards for anyone allowed to submit. |
| `JobDetail.Render` | src/pages/JobDetail.tsx:23-38 | "Not found" exactly when no stored job has the route id; otherwise the first stored job with that id, as `find` returns it, with the badge exactly when the user has an application stored for it. |
| `JobDetail.RedirectPath` | src/pages/JobDetail.tsx:43 | The return path is "/jobs/" followed by the route id, or by "undefined" without one. |
| `JobDetail.NewApplication` | src/pages/JobDetail.tsx:67-76 | The application carries the given id, the job's id, the applicant's id, name and e-mail, the cover letter as typed, the time of applying and the status "pending", with no resume link. |
| `JobDetail.ResubmitAddsRecord` | src/pages/JobDetail.tsx:60-78 | A submission under a fresh id adds one more record for the job and candidate, however many exist, and the badge then shows. |
| `JobDetail.RenderAfterSubmit` | src/pages/JobDetail.tsx:38 | Once an application of the signed-in user for the shown job is saved, the same page shows the badge. |
| `JobDetail.SubmitEffect` | src/pages/JobDetail.tsx:67-78 | A submit makes the badge show for the same job, and under a fresh id adds one record pairing the job with the user. |
| `JobDetail.JobDetailPage.constructor` | src/pages/JobDetail.tsx:18-20 | The form starts closed, with no cover letter and not busy. |
| `JobDetail.JobDetailPage.HandleApply` | src/pages/JobDetail.tsx:40-58 | A visitor is sent to register with "/jobs/<id>" stored as the return path. A signed-in non-candidate is refused. Only a candidate gets the form. |
| `JobDetail.JobDetailPage.SubmitApplication` | src/pages/JobDetail.tsx:60-96 | Without a user nothing happens. Otherwise a pending application for this job and user, with the typed cover letter, is saved. The badge then shows, and the form is closed and cleared. |

## Left out

- Storage I/O: `localStorage` reads and writes and the JSON text in between. Each key is a field of `Storage.Store`. Stored text that fails to parse throws in the source; the model has no such state.
- Timestamps: the source stores `postedAt` and `appliedAt` as ISO date strings and compares them as `Date` values. The model uses the millisecond numbers they denote. Local calendar arithmetic is not modelled: the week cut-off of the sidebar (`setDate(getDate() - 7)`) is taken as exactly seven days, so daylight-saving shifts are ignored.
- Case folding: `toLowerCase` is modelled on ASCII letters only.
- Sorting: the stability of `Array.prototype.sort` is not modelled. Digit strings beyond 2^53 lose precision in JavaScript; the model reads them exactly.
- `Jobs.FilterAndSort`: for the salary order with a salary that has no digit, the third ensures describes the model's own choice, not the source's behaviour. In the source such a salary parses to `NaN`, so the comparator returns `NaN` for every pair involving that job, and the sort reads that as "equal". The comparator is then inconsistent, and the language leaves the resulting order to the engine. For a job A without a digit followed by a job B with "$100k", the comparator calls the pair equal and a stable sort keeps [A, B]. The model ranks A by `Jobs.SalaryRank` as 0 and so returns [B, A]. Only the permutation, and the salary order when every salary has a digit (the fourth ensures), are what the source promises.
- `Index.HomePage.Refresh`: the source sorts the freshly parsed copy; the model leaves the store untouched, as that copy is never written back.
- Companies: the enumeration order of `Object.values` is not modelled. `Companies.CompanyCountsSum` holds for any list of the dictionary's distinct values.
- Rendering: markup, toasts, navigation targets other than the stored return path, the loading spinner's text, and the login hook. The signed-in user and the authentication flag are parameters.
- `PostJob.PostJobPage.HandleSubmit`: the `try`/`catch` error toast is not modelled, because no modelled step throws.
- `JobDetail.JobDetailPage.SubmitApplication`: the `try`/`catch` error toast is not modelled, because no modelled step throws.
- The sample jobs' description and requirements texts are not reproduced. Their titles, companies, locations, types, salaries, ages and featured flags are.
- Sign-up and the other pages (`Login`, `Register`, dashboards) are not part of this model. Neither are concurrent writes from several browser tabs.

## Findings

| source | as written | input that shows it | evidently intended | confidence | as-written member | corrected member |
|---|---|---|---|---|---|---|
| src/pages/Companies.tsx:21-33 | The `reduce` starts from `{}` and creates an entry only when `acc[job.company]` is falsy. A company named like a property every object inherits (`constructor`, `toString`, `__proto__`, ...) reads as truthy, so no entry is made, and `acc[job.company].jobs.push` throws a TypeError that takes the page down. | one stored job whose company is "constructor" | one entry per company name, whatever the name | not executed | `Companies.ReduceAsWritten`, with the counterexample `Companies.ConstructorCompanyThrows` and the characterisation `Companies.AsWrittenThrows` | `Companies.GroupByCompany`, with `Companies.ReduceDescribes` and `Companies.CompanyCountsSum` |
