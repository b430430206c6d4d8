# Personal site core: newsletter, content index and data tables

This project models, in Dafny, the logic at the centre of a personal website.

- **Newsletter service** (`app/lib/newsletter.ts`). The email shape check and the in-memory subscriber list. Duplicates are detected case-insensitively among active records. A fixed-window rate limiter allows 10 attempts per client key per hour.
- **Newsletter form action** (`app/lib/newsletter-action.ts`). The request handler, in order:
  - a method gate;
  - the client key taken from proxy headers;
  - the rate limit;
  - the development "reset rate limits" switch;
  - the required email;
  - the mapping of thrown errors to HTTP statuses.
- **Content index** (`app/utils/content.ts`).
  - Slugs come from file paths.
  - Idea and project records are built from MDX frontmatter with their fallbacks.
  - When no idea modules exist, the two hard-coded ideas are returned.
  - Ideas are sorted newest first. Projects are sorted by date only when both have one.
- **Data table** (`app/components/mdx/DataTable.tsx`).
  - Whether a cell counts as numeric.
  - The 60 % rule over the first five rows that makes a column numeric.
  - The column-type record.
  - The label derived from a record key by splitting camel case and `_`/whitespace runs.

The two module-level globals of the newsletter service are the fields of one `SubscriptionService` object. Its operations are methods with `modifies` frames. Each method is tied to a pure step function (`RateLimitStep`, `ActiveOnly`, `ActiveMatchIn`) about which the lemmas are proved.

The clock (`Date.now()`, `new Date().toISOString()`), the id generator and date parsing (`new Date(s).getTime()`) are parameters:
- `now`, `id` and `subscribedAt` for the newsletter;
- `nowIso` and `timeOf: string -> int` for the content index.

`Array.prototype.sort` is modelled as a stable insertion sort (`Sorting.SortBy`). Regular expressions are modelled by scanning functions, each proved equal to a predicate that spells out the pattern's own reading (`IsValidEmailIsRegex`, `MatchesNumberIsPattern`). The `split` with a regular expression is modelled as the loop of ECMAScript's `String.prototype.split`. `\s` is the exact ECMAScript WhiteSpace and LineTerminator set. Case mapping covers ASCII letters.

Files: `wrappers.dfy` (Option, Result), `text.dfy` (characters, split/join), `newsletter.dfy`, `newsletter_action.dfy`, `sorting.dfy`, `content.dfy`, `data_table.dfy`.

## Model

| member | source | states |
|---|---|---|
| Text.LowerStr | app/lib/newsletter.ts:56 | `toLowerCase` keeps the length and maps each capital to the lower-case letter at the same position in the alphabet, leaving other characters; no upper-case letter remains |
| Text.LowerStrIdempotent | app/lib/newsletter.ts:56 | lower-casing an already lower-cased string changes nothing |
| Text.ToUpper | app/components/mdx/DataTable.tsx:51 | the result is never a lower-case letter, a lower-case letter becomes the upper-case letter at the same position in the alphabet, everything else is unchanged, and whitespace is preserved |
| Text.Or | app/utils/content.ts:54-56 | JavaScript's logical-or fallback: a present, non-empty value is kept; an absent or empty one gives the fallback; a non-empty fallback makes the result non-empty |
| Text.Join | app/components/mdx/DataTable.tsx:52 | the joined string starts with the first part |
| Text.JoinCons | app/components/mdx/DataTable.tsx:52 | a part joined in front of one or more parts is followed by the separator and then the join of the rest |
| Text.JoinAvoids | app/components/mdx/DataTable.tsx:52 | a character absent from the separator and from every part is absent from the join |
| Text.IndexOfChar | app/lib/newsletter.ts:28 | the index found holds the character and no earlier index does; `None` exactly when the character is absent |
| Text.IndexOfCharAt | app/lib/newsletter.ts:28 | a character at `i` that does not occur before `i` is found at `i` |
| Text.SplitOn | app/utils/content.ts:26 | `split('/')` gives at least one part and no part holds the separator |
| Text.JoinSplitOn | app/utils/content.ts:26 | joining the parts of a split with the separator gives back the input |
| Text.SplitOnJoin | app/utils/content.ts:26 | splitting a join recovers the parts whenever no part holds the separator |
| Text.SplitOnLast | app/utils/content.ts:26 | the part `pop()` returns ends the input and is either all of it or preceded by the separator |
| Text.SplitOnAround | app/utils/content.ts:26 | splitting `a + sep + b` gives the parts of `a` followed by the parts of `b` |
| Text.SplitOnWithoutSeparator | app/utils/content.ts:26 | a string without the separator splits into itself alone |
| Newsletter.IsValidEmail | app/lib/newsletter.ts:27-30 | an accepted address has at least five characters: local part, `@`, host, `.`, top-level domain |
| Newsletter.ValidEmailOneAt | app/lib/newsletter.ts:28 | an accepted address holds exactly one `@` |
| Newsletter.IsValidEmailIsRegex | app/lib/newsletter.ts:27-30 | the validity check holds exactly when the email splits as `local@host.tld` with each part non-empty and free of whitespace and `@` |
| Newsletter.ValidEmailParts | app/lib/newsletter.ts:28 | an accepted address splits as `local@host.tld` in the pattern's sense |
| Newsletter.RegexPartsValid | app/lib/newsletter.ts:28 | every `local@host.tld` the pattern reads is accepted |
| Newsletter.LowerKeepsValidity | app/lib/newsletter.ts:95-100 | lower-casing an email does not change whether it is valid, so the stored form is valid too |
| Newsletter.ActiveMatchIn | app/lib/newsletter.ts:55-58 | true exactly when some active record's email equals the given one ignoring case |
| Newsletter.ActiveOnly | app/lib/newsletter.ts:129 | the filter keeps exactly the active records: every kept record is active and in the list, and every active record is kept |
| Newsletter.ActiveOnlyAppend | app/lib/newsletter.ts:102 | appending a record appends it to the active view exactly when it is active |
| Newsletter.AppendNewSubscriber | app/lib/newsletter.ts:95-102 | appending an active, lower-cased record for a valid email that is not yet active keeps the list free of case-insensitive duplicates and keeps every stored email lower-case and valid |
| Newsletter.RateLimitKey | app/lib/newsletter.ts:163 | the logical-or fallback to `'unknown'`: the ip itself when non-empty, `"unknown"` for the empty string; never empty |
| Newsletter.RateLimitStep | app/lib/newsletter.ts:161-181 | one call touches only its key. A refusal changes nothing. An admitted call stores count 1 (a new window) or the old count plus one. Counts stay within 1..10 |
| Newsletter.OpenWindowQuota | app/lib/newsletter.ts:167-180 | within an open window a run of calls for a key is admitted exactly `min(calls, 10 - count)` times |
| Newsletter.FreshWindowQuota | app/lib/newsletter.ts:158-181 | within one hour of opening a window a client is admitted `min(calls, 10)` times |
| Newsletter.SubscriptionService.constructor | app/lib/newsletter.ts:21 | the service starts with no subscribers and no rate-limit records |
| Newsletter.SubscriptionService.EmailExists | app/lib/newsletter.ts:54-58 | true exactly when some active record's email equals the given one ignoring case |
| Newsletter.SubscriptionService.GetSubscribers | app/lib/newsletter.ts:128-129 | every returned record is active and stored, and every active stored record is returned |
| Newsletter.SubscriptionService.GetSubscriberCount | app/lib/newsletter.ts:153-154 | the count is the length of `GetSubscribers()`, so at most the number of records, and zero exactly when no record is active |
| Newsletter.SubscriptionService.AddSubscriber | app/lib/newsletter.ts:62-104 | rejects an invalid email, then an already active one ignoring case. Otherwise it appends one active record with the lower-cased email, which then exists under every casing. The active list gains exactly that record and the count grows by one. Uniqueness and normalisation are kept |
| Newsletter.SubscriptionService.CheckRateLimit | app/lib/newsletter.ts:161-181 | the answer and the new map are those of `RateLimitStep`: a new window stores count 1, a full window refuses without change, otherwise the count rises by one |
| Newsletter.SubscriptionService.ResetRateLimits | app/lib/newsletter.ts:184-186 | the map is empty afterwards, so the next call from any client is admitted |
| NewsletterAction.ClientIp | app/lib/newsletter-action.ts:10-12 | `x-forwarded-for` when present and non-empty, else `x-real-ip` when present and non-empty, else `"unknown"`; never empty and its own rate-limit key |
| NewsletterAction.ErrorResponse | app/lib/newsletter-action.ts:55-76 | every error maps to a JSON error with a non-empty message. Status 400 is returned exactly for an invalid email and 409 exactly for a duplicate; anything else is 500 |
| NewsletterAction.HandleNewsletterAction | app/lib/newsletter-action.ts:3-78 | non-POST gives 405 and a denied request gives 429, both with nothing changed. The reset clears every record. A missing email gives 400 after the attempt is counted. Otherwise addSubscriber's outcome gives 400, 409 or 200 echoing the new record. Every failure has a message |
| Sorting.Insert | app/utils/content.ts:62 | inserting adds exactly the one element |
| Sorting.SortBy | app/utils/content.ts:62 | the sort returns a permutation of its input |
| Sorting.InsertDescending | app/utils/content.ts:62 | insertion into a list sorted by descending key under a key-difference comparator keeps it sorted |
| Sorting.SortByDescending | app/utils/content.ts:62 | under a comparator `key(b) - key(a)` the result is ordered by non-increasing key |
| Sorting.WithKey | app/utils/content.ts:62 | the elements with one key, in order: never more than the input, and all of them have that key |
| Sorting.WithKeyAppend | app/utils/content.ts:62 | picking the elements with one key distributes over concatenation |
| Sorting.WithKeyAll | app/utils/content.ts:62 | when every element has the key, all of them are picked |
| Sorting.WithKeyNone | app/utils/content.ts:62 | when no element has the key, none is picked |
| Sorting.InsertStable | app/utils/content.ts:62 | inserting into a list sorted by descending key puts the new element after every element with the same key |
| Sorting.SortByStable | app/utils/content.ts:62 | under a comparator `key(b) - key(a)` the elements with any one key come out in their input order (the sort is stable) |
| Sorting.SortByInDom | app/utils/content.ts:62 | the sort only returns elements of the input |
| Sorting.SortByAllEqual | app/utils/content.ts:89 | a comparator that answers 0 for every pair of inputs returns the input unchanged |
| Content.IndexOf | app/utils/content.ts:26 | the first occurrence of the pattern at or after the start, or none |
| Content.IndexOfFinds | app/utils/content.ts:26 | an occurrence at or after the start with none before it is found at that index |
| Content.ReplaceFirst | app/utils/content.ts:26 | `replace` with a string pattern: without an occurrence the input is returned; otherwise exactly the first occurrence is replaced and the rest is kept |
| Content.ExtractSlugFromPath | app/utils/content.ts:25-27 | the slug never holds a `/` |
| Content.SlugIgnoresDirectory | app/utils/content.ts:25-27 | the slug depends only on the file name, not on the directory |
| Content.SlugOfContentFile | app/utils/content.ts:25-27 | a content file `dir/name.mdx` has slug `name` when `name` has no `/` and no earlier `.mdx` |
| Content.SlugIsLastSegment | app/utils/content.ts:25-27 | the slug is built from the text after the last `/` |
| Content.FrontmatterOf | app/utils/content.ts:51 | the frontmatter with an empty-object fallback: the module's frontmatter when it has one, otherwise a record with every field absent |
| Content.IdeaOf | app/utils/content.ts:49-58 | title is `title` when truthy, else "Untitled"; date is `date` when truthy, else now; excerpt is `excerpt` when truthy, else empty; the slug comes from the path and the title is never empty |
| Content.Ideas | app/utils/content.ts:49-59 | one idea per module entry, in entry order, each built by `IdeaOf`; every title is non-empty |
| Content.IdeaOrder | app/utils/content.ts:62 | the comparator is antisymmetric and puts `a` before `b` exactly when `a`'s date is later |
| Content.GetIdeas | app/utils/content.ts:29-67 | with no modules it returns exactly the two built-in ideas; otherwise it returns a permutation of the mapped ideas |
| Content.FallbackIdeasWellFormed | app/utils/content.ts:33-46 | the built-in list holds two ideas, each titled and dated, with distinct slugs that contain no `/` |
| Content.GetIdeasNewestFirst | app/utils/content.ts:62 | ideas come newest first and every title is non-empty |
| Content.GetIdeasStable | app/utils/content.ts:62 | ideas whose dates give the same timestamp keep the order of the module entries |
| Content.ProjectOf | app/utils/content.ts:71-82 | name is `name`, else `title`, else "Untitled Project". Description is `description`, else `excerpt`, else empty. Link is `link`, else `#slug`. A field counts only when truthy. The date is passed through. Name and link are never empty |
| Content.Projects | app/utils/content.ts:71-82 | one project per module entry, in entry order, each built by `ProjectOf`; names and links are never empty |
| Content.ProjectOrder | app/utils/content.ts:85-90 | 0 when either date is missing; when both are present, `a` goes before `b` exactly when `a`'s date is later |
| Content.ProjectOrderAntisymmetric | app/utils/content.ts:85-90 | the comparator is antisymmetric and ties whenever either date is missing |
| Content.ProjectOrderNotTransitive | app/utils/content.ts:85-90 | with an undated project between two dated ones the comparator ties both pairs but orders the dated pair, so it is not a consistent order |
| Content.GetProjects | app/utils/content.ts:69-95 | the result is a permutation of the mapped projects |
| Content.GetProjectsAllDated | app/utils/content.ts:84-90 | when every project has a date, projects come newest first |
| Content.ProjectsByTime | app/utils/content.ts:86-87 | among dated projects the comparator is the difference of the timestamps, newest first |
| Content.GetProjectsStable | app/utils/content.ts:84-90 | when every project has a date, projects with the same timestamp keep the file order |
| Content.GetProjectsNoneDated | app/utils/content.ts:84-90 | when no project has a date, the file order is kept |
| DataTable.Cleaned | app/components/mdx/DataTable.tsx:28 | deleting characters never makes the string longer |
| DataTable.CleanedHasNoFormatting | app/components/mdx/DataTable.tsx:28 | no `$`, `,`, `%` or whitespace remains |
| DataTable.CleanedConcat | app/components/mdx/DataTable.tsx:28 | deleting formatting distributes over concatenation |
| DataTable.CleanedUnformatted | app/components/mdx/DataTable.tsx:28 | a string without formatting characters is unchanged |
| DataTable.CleanedChar | app/components/mdx/DataTable.tsx:28 | a single character is kept exactly when it is not formatting |
| DataTable.CleanedDigits | app/components/mdx/DataTable.tsx:28 | a run of digits is unchanged |
| DataTable.LeadingDigits | app/components/mdx/DataTable.tsx:29 | the length of the maximal run of leading digits |
| DataTable.MatchesNumberIsPattern | app/components/mdx/DataTable.tsx:29 | the scanner accepts exactly the strings `[+-]? digits+ .? digits* %?` |
| DataTable.MatchesNumber | app/components/mdx/DataTable.tsx:29 | the regex test `/^[+-]?\d+\.?\d*[%]?$/`: a matching string starts with a digit, after at most one sign; `MatchesNumberIsPattern` gives the full reading |
| DataTable.IsNumeric | app/components/mdx/DataTable.tsx:23-30 | a number is numeric; a missing value is not; a text cell is numeric exactly when its cleaned form is sign, digits, optional dot and digits |
| DataTable.CleanedIsPattern | app/components/mdx/DataTable.tsx:28-29 | the test on the cleaned text holds exactly when it is sign, digits, optional dot and digits; the pattern's `%` never matches, and the empty string is refused |
| DataTable.IsNumericIgnoresFormatting | app/components/mdx/DataTable.tsx:28-29 | inserting `$`, `,`, `%` or whitespace anywhere never changes whether a text cell is numeric |
| DataTable.DecimalMatches | app/components/mdx/DataTable.tsx:29 | digits, a dot and digits pass the pattern |
| DataTable.CurrencyIsNumeric | app/components/mdx/DataTable.tsx:23-30 | every amount shaped like `$1,234.56` (a `$`, digits, a comma, digits, a dot, digits) is numeric |
| DataTable.CurrencyCleaned | app/components/mdx/DataTable.tsx:28 | such an amount cleans to its digits and its dot |
| DataTable.PercentIsNumeric | app/components/mdx/DataTable.tsx:23-30 | every percentage shaped like `12.5%` is numeric |
| DataTable.PercentCleaned | app/components/mdx/DataTable.tsx:28 | the `%` of such a percentage is deleted and nothing else |
| DataTable.TwoDotsNotNumeric | app/components/mdx/DataTable.tsx:23-30 | no version-like string such as `1.2.3` (digits, dot, digits, dot, digits) is numeric |
| DataTable.TwoDotsNoMatch | app/components/mdx/DataTable.tsx:29 | such a string fails the pattern |
| DataTable.SampleThreshold | app/components/mdx/DataTable.tsx:39 | the double-precision product `n * 0.6` lies at or below `3n / 5` and within 10^-15 of it |
| DataTable.NumericCount | app/components/mdx/DataTable.tsx:35-37 | the number of rows whose value under the key is numeric (`filter(...).length`): at most the number of rows, equal to it exactly when every row is numeric there, zero exactly when none is; `NumericCountAppend` and `NumericCountOne` fix the value |
| DataTable.NumericCountAppend | app/components/mdx/DataTable.tsx:35-37 | the count of a concatenation of samples is the sum of their counts |
| DataTable.NumericCountOne | app/components/mdx/DataTable.tsx:35-37 | one row counts 1 exactly when its value under the key is numeric, else 0 |
| DataTable.SampleSize | app/components/mdx/DataTable.tsx:34 | `Math.min(data.length, 5)` |
| DataTable.GetColumnType | app/components/mdx/DataTable.tsx:33-40 | the double-precision test `count >= size * 0.6` agrees with `5 * count >= 3 * size` for every sample size that occurs |
| DataTable.GetColumnTypeExtremes | app/components/mdx/DataTable.tsx:33-40 | an all-numeric sample makes the column numeric; a non-empty sample without numbers makes it text |
| DataTable.GetColumnTypeIgnoresLaterRows | app/components/mdx/DataTable.tsx:34-36 | rows after the fifth never change a column's type |
| DataTable.ColumnTypes | app/components/mdx/DataTable.tsx:42-45 | the record has exactly the headers as keys, each holding that column's type |
| DataTable.ColumnTypesFrom | app/components/mdx/DataTable.tsx:42-45 | the fold adds every header with its type and keeps other accumulated entries |
| DataTable.RunEnd | app/components/mdx/DataTable.tsx:50 | the end of the maximal run of `_`/whitespace |
| DataTable.MatchAt | app/components/mdx/DataTable.tsx:50 | at a capital, the empty lookahead match; at a separator that is not a capital, a match over the whole maximal run of separators; anywhere else, no match |
| DataTable.SplitFrom | app/components/mdx/DataTable.tsx:50 | the split loop always yields at least one piece |
| DataTable.SplitHeader | app/components/mdx/DataTable.tsx:50 | the split of a key always yields at least one piece |
| DataTable.SplitHeaderWords | app/components/mdx/DataTable.tsx:50 | every piece is a word (no separator, a capital only in front) |
| DataTable.SplitHeaderConcat | app/components/mdx/DataTable.tsx:50 | the pieces concatenate to the key minus its separators |
| DataTable.SplitFromWords | app/components/mdx/DataTable.tsx:50 | the same for the split loop from any position |
| DataTable.SplitFromShift | app/components/mdx/DataTable.tsx:50 | text before the current piece does not change the rest of the split |
| DataTable.SplitFromWordPrefix | app/components/mdx/DataTable.tsx:50 | the split walks over a leading word without cutting it |
| DataTable.SplitHeaderOfWord | app/components/mdx/DataTable.tsx:50 | a single word is not split at all |
| DataTable.SplitHeaderAtCapital | app/components/mdx/DataTable.tsx:50 | a capital after a word starts the next piece |
| DataTable.SplitHeaderAtRun | app/components/mdx/DataTable.tsx:50 | a run of separators after a word ends it and is dropped; the split goes on after the run |
| DataTable.SplitHeaderAtLeadingRun | app/components/mdx/DataTable.tsx:50 | a run of separators at the start of a key yields an empty first word, then the split of the rest (`_id` gives `""` and `id`) |
| DataTable.Capitalize | app/components/mdx/DataTable.tsx:51 | same length and same letters ignoring case; first character not lower-case, no capital after it; separators stay where they were |
| DataTable.FormatHeader | app/components/mdx/DataTable.tsx:48-53 | the only separator left in a label is the space |
| DataTable.LabelSeparators | app/components/mdx/DataTable.tsx:51-52 | capitalized words joined with spaces hold no separator other than the space |
| DataTable.FormatHeaderWords | app/components/mdx/DataTable.tsx:48-53 | the label splits on spaces into exactly the capitalized words. Each word is free of separators, has no lower-case first letter and no capital after it. No `_` survives |
| DataTable.FormatHeaderLetters | app/components/mdx/DataTable.tsx:48-53 | ignoring case, the label's words spell the key without its separators |
| DataTable.FormatHeaderOfTwo | app/components/mdx/DataTable.tsx:48-53 | a key that splits into two words is labelled with the two capitalized words and one space between them |
| DataTable.CamelCaseLabel | app/components/mdx/DataTable.tsx:48-53 | a word followed by a capitalized word, as in `camelCase`, is labelled `Camel Case` style |
| DataTable.SnakeCaseLabel | app/components/mdx/DataTable.tsx:48-53 | two words joined by `_`, as in `snake_case`, are labelled `Snake Case` style |
| DataTable.Layout | app/components/mdx/DataTable.tsx:16-20 | empty data renders no table. Otherwise the headers are the first row's keys, every header's column type is recorded, and every label is that header's formatted form |
| DataTable.LayoutOfWellFormedRow | app/components/mdx/DataTable.tsx:20 | when the first row is a real record (distinct keys, one value per key), every header has a value in it and the column-type record has one entry per header |

## Left out

- The Supabase backend of `emailExists`, `addSubscriber`, `getSubscribers` and `getSubscriberCount` is not modelled. This includes `checkSupabaseConnection`, the database errors, `dbRowToSubscriber` and the `created_at` ordering. It is a remote database; `app/lib/supabase.ts` is not part of this model. Only the in-memory fallback is modelled.
- `generateId`, `Date.now()` and `new Date().toISOString()` are parameters (`id`, `now`, `subscribedAt`, `nowIso`). Their randomness and clock values are outside the model.
- Newsletter.SubscriptionService.AddSubscriber: `await` and concurrent requests interleaving between `emailExists` and `push` are not modelled; each call runs to completion.
- NewsletterAction.HandleNewsletterAction: the request parsing of the Fetch API is abstracted. The method string, the two headers and the form result are fields of `Request`, and a failed `formData()` is a `Failure` carrying its message. A thrown value that is not an `Error` is modelled like an `Error` with an unrecognised message; both give 500. Logging is left out.
- Text.ToLower: case mapping covers ASCII letters only; Unicode case mapping of `toLowerCase`/`toUpperCase` is not modelled.
- Content.GetIdeas: `new Date(s).getTime()` is the parameter `timeOf`. An unparsable date's `NaN` and the engine's handling of a `NaN` comparator result are not modelled. The `catch` branches of `getIdeas` and `getProjects` cannot be reached in the model, because nothing in it throws.
- Content.IdeaOf: the clock is read once per `getIdeas` call, as the single parameter `nowIso` shared by every module. The source calls `new Date().toISOString()` once per module inside the map (app/utils/content.ts:55). So undated ideas read across a millisecond boundary can get different dates there, and sort by processing time. In the model they tie and keep file order.
- Content.GetProjects: when some projects have dates and some do not, the comparator is not consistent (`ProjectOrderNotTransitive`). The order a JavaScript engine then produces is implementation-defined, so only a permutation is claimed.
- Content.FrontmatterOf: frontmatter values that are not strings are not modelled.
- The glob import (`import.meta.glob`) is the `modules` parameter, a sequence of path/module pairs in `Object.entries` order.
- DataTable: rendering (JSX, CSS classes, captions, striping, compact mode, cell output) is presentation and is not modelled. Cell values are `Number` (a real standing for a JavaScript number) or `Str`. A missing key reads as `None`, which is not numeric.
- The repository's other routes, components, build configuration and scripts are outside the modelled core.
