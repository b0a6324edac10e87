# CSV import and user listing of the CRUD admin panel

This project models the part of the Express server that has rules worth
proving. It covers two handlers and the user model they rely on.

- **CSV import** (`POST /upload`):
  - the type, size and emptiness gates;
  - the line filter and the `parseCSVLine` tokenizer;
  - header lookup for the `name` and `email` columns;
  - the per-row rule chain (enough columns, non-empty name and email, the email pattern, a name of at most 100 UTF-16 code units);
  - the `User.create` call;
  - the three counters with their `errors` list, and the final `upload=` status.
- **User listing** (`GET /users`):
  - the `where` condition built from `search` and `filter`;
  - `offset = (page - 1) * limit`, the fixed newest-first order, and `totalPages = ceil(count / limit)`.
- **The user model:** stored emails are `trim().toLowerCase()` of what was given, and the `email` column is unique.

The modules and what each holds:

- `Wrappers`: `Option`.
- `Strings`: the JavaScript string operations used. These are `trim`, `\s`, `toLowerCase`, `split`, `includes`, `endsWith`, `indexOf` and the blank-line filter.
- `Csv`: the tokenizer. `Fields` is its specification, `ParseCsvLine` is the loop proved against it, and lemmas give its meaning.
- `RowRules`: the rule chain, and the regular expression `^[^\s@]+@[^\s@]+\.[^\s@]+$` stated as a language.
- `Users`: the unique, normalised email index, and a `UserRepository` class whose `Create` updates the stored rows in place.
- `Upload`: the whole handler.
  - `UploadSpec` and `ImportLines` are functions that specify it.
  - `HandleUpload`, `ImportRows`, `ImportLine` and `CreateRow` are methods over the repository, proved against those functions.
  - Its lemmas state the accounting, the gates, how duplicates are handled, and that the index is preserved.
- `Listing`: the query of the listing handler and the page arithmetic.

The environment is modelled as inputs:

- The uploaded file is given in memory (MIME type, original name, size, text).
- Failures of `User.create` other than the unique index are an input `faults`, with one optional message per data line. These are the model's `isEmail` validation and database errors.

## Model

| member | source | states |
|---|---|---|
| Csv.ParseCsvLine | server.js:387-417 | the scan returns exactly the fields `ParseLine` defines, and there is one more field than commas met outside quotes |
| Csv.Fields | server.js:392-416 | the scan over the rest of a line in a given quote state, which always yields at least one field; FieldCount, NoQuotesIsSplit and QuotedRoundTrip state its meaning |
| Csv.ParseLine | server.js:387-417 | the fields of a whole line, the scan started outside quotes; ParseCsvLine is proved to compute it |
| Csv.FieldCount | server.js:404-414 | the number of fields is one more than the number of commas outside quotes |
| Csv.NoQuotesIsSplit | server.js:392-411 | on a line without `"` the tokenizer agrees with `split(',')` |
| Csv.SingleField | server.js:404-414 | a line with no comma and no quote is one field, the line itself |
| Csv.PlainRoundTrip | server.js:404-416 | fields free of commas and quotes, joined with commas, tokenize back to themselves |
| Csv.QuotedRoundTrip | server.js:395-410 | any fields, written quoted with `"` doubled and joined with commas, tokenize back to themselves |
| Csv.QuotedCommaExample | server.js:395-407 | `a,"b,c",d` gives `a`, `b,c`, `d` |
| Csv.EscapedQuoteExample | server.js:396-399 | `a,"b""c",d` gives `a`, `b"c`, `d` |
| Csv.UnterminatedQuoteExample | server.js:400-414 | an unclosed quote runs to the end of the line: `a,"b,c` gives `a`, `b,c` |
| Strings.IsSpace | server.js:287 | the `\s` class: the ECMAScript white space and line terminator code points, which are also what `trim` removes |
| Strings.Trim | server.js:229 | `trim` removes white space from both ends; its result is never longer than its argument |
| Strings.TrimCuts | server.js:261 | the result of `trim` is `s[i..j]` with everything before `i` and from `j` on white space |
| Strings.TrimEnds | server.js:261 | the result of `trim` is empty exactly on blank strings, otherwise starts and ends with a non-space, and a string without end spaces is left alone |
| Strings.TrimShape | server.js:261 | `trim` cuts a blank prefix and a blank suffix off `s` and leaves no white space at either end; so it is empty exactly on blank strings and leaves a string without end spaces alone |
| Strings.TrimIdempotent | models/User.js:15 | trimming twice is trimming once |
| Strings.ToLower | server.js:243 | `toLowerCase` keeps the length and maps each character on its own |
| Strings.ToLowerTrim | models/User.js:15 | lower-casing and trimming commute |
| Strings.TrimLower | server.js:243 | `trim().toLowerCase()` gives a string that is already trimmed and lower-case |
| Strings.Utf16Length | server.js:296 | `length` counts UTF-16 code units: between one and two per character |
| Strings.Utf16LengthBmp | server.js:296 | within the Basic Multilingual Plane `length` is the number of characters |
| Strings.Contains | server.js:213 | `includes` holds for the empty string and never for a string longer than the one searched |
| Strings.EndsWith | server.js:213 | `endsWith` holds only when the string is something followed by the suffix; EndsWithSuffix gives the converse |
| Strings.EndsWithSuffix | server.js:213 | any string followed by the suffix ends with it |
| Strings.Split | server.js:234 | `split('\n')` gives at least one part, no part holds the separator, and joining the parts gives the text back |
| Strings.SplitJoin | server.js:234 | splitting a join of separator-free parts gives the parts back |
| Strings.IndexOf | server.js:246-247 | `indexOf` is -1 exactly when the value is absent, otherwise the first index holding it |
| Strings.NonBlank | server.js:234 | the filter keeps exactly the lines whose trim is non-empty |
| Strings.Kept | server.js:234 | the positions of the non-blank lines, strictly increasing, each in range, and every non-blank position among them |
| Strings.NonBlankKeepsOrder | server.js:234 | the `m`-th line kept is the line at the `m`-th non-blank position, and there are as many lines as such positions |
| Strings.NonBlankCounts | server.js:234 | each non-blank line is kept as often as it occurs, and no blank line is kept |
| RowRules.ValidateRow | server.js:268-301 | each rejection reason holds exactly when the rules before it pass and it fails, the name length counted in UTF-16 code units; a row is accepted with its trimmed name and email exactly when all rules pass |
| RowRules.IsEmailShaped | server.js:287-288 | the test `ValidateRow` runs for `emailRegex.test`; EmailShapeIsPattern states its meaning |
| RowRules.EmailShapeIsPattern | server.js:287-288 | the validator's test accepts exactly the strings in the language of the email regular expression |
| Users.NormalizeEmail | models/User.js:14-16 | the stored email is trimmed and lower-case |
| Users.NormalizeIdempotent | models/User.js:15 | normalising a stored email changes nothing |
| Users.SameUpToCase | models/User.js:15 | emails that differ only in letter case are stored the same |
| Users.UniqueEmailsDistinct | models/User.js:12 | no two stored rows share an email |
| Users.Insert | models/User.js:8-16 | `create` stores a row exactly when there is no fault and the normalised email is new, raises the unique-constraint error exactly when there is no fault and it is already stored, and otherwise reports the fault |
| Users.InsertKeepsIndex | models/User.js:12-15 | a create keeps emails unique and normalised |
| Users.UserRepository.Create | models/User.js:8-16 | the stored rows and the outcome are those of `Insert`, and the index stays valid |
| Upload.AcceptableType | server.js:213 | the type gate: a MIME type containing `text` or `csv`, or an original name ending in `.csv`; UploadGates states that `invalid-type` holds exactly when it fails |
| Upload.DataLines | server.js:234 | every line kept is non-blank, and every non-blank part of the text is kept |
| Upload.DataLinesInOrder | server.js:234 | line `m` is the `m`-th non-blank part of the text, and each non-blank part is kept as often as it occurs |
| Upload.Headers | server.js:243 | one header per header field: header `k` is field `k` trimmed and lower-cased, so already in that form itself |
| Upload.HeadersOfPlainLine | server.js:243 | a header line of plain column names gives those names trimmed and lower-cased, in order |
| Upload.LineVerdict | server.js:261-301 | the row rules applied to the tokens of the trimmed line |
| Upload.Admit | server.js:304-321 | only an import adds a row, and it appends the accepted name with the normalised email |
| Upload.AdmitClassification | server.js:304-321 | a line is imported exactly when accepted, fault-free and with a new normalised email; it is a duplicate exactly when accepted, fault-free and already stored; otherwise it is a rejection or a database error |
| Upload.AdmitKeepsIndex | server.js:305-308 | handling a row keeps the index valid |
| Upload.Record | server.js:309-320 | the counter updates of one line; their meaning is RecordCounts |
| Upload.RecordCounts | server.js:309-320 | each line moves exactly one counter by one (imported, skipped for a duplicate, errors otherwise), and a line that is not imported leaves its entry at the end of the list |
| Upload.ImportLines | server.js:260-328 | the tally and store after the data lines before line `k`; ImportAccounting and ImportKeepsIndex state its meaning |
| Upload.AfterLine | server.js:260-328 | one more data line: its verdict admitted against the store so far and counted |
| Upload.ImportAccounting | server.js:255-328 | after any prefix of the data lines: each line is in exactly one counter, there is one entry per skipped or failed line, the duplicates among them are the skipped lines, entries are in line order, and the store grew by the imported rows only |
| Upload.ImportKeepsIndex | server.js:260-328 | the pass keeps stored emails unique and normalised |
| Upload.StoredEmailSkipped | server.js:311-315 | an accepted, fault-free line whose email is already stored is skipped, adds one duplicate entry and leaves the store alone |
| Upload.ExistingUserSkipped | server.js:311-315 | an accepted, fault-free line whose email matches, up to letter case, a user stored before the upload is skipped as a duplicate |
| Upload.EarlierLineSkipped | server.js:311-315 | an accepted, fault-free line whose email matches, up to letter case, that of an earlier accepted, fault-free line is skipped as a duplicate |
| Upload.FinalStatus | server.js:340-346 | `success` with the three counts exactly when something was imported, `partial-success` exactly when nothing was imported and some line failed, `no-new-users` otherwise |
| Upload.UploadSpec | server.js:203-346 | a gated upload has no counts and leaves the store alone; otherwise the status is the one chosen after the loop |
| Upload.SomeLineNotBlank | server.js:229-240 | a text that is not blank yields at least one line |
| Upload.UploadGates | server.js:204-252 | each gate status holds exactly when the gates before it pass and it fires, and a stopped upload has no counts and leaves the store alone |
| Upload.UploadAccounting | server.js:255-328 | a read upload counts every data line exactly once, has one entry per skipped or failed line, and grows the store by the imported rows only |
| Upload.UploadKeepsIndex | server.js:203-346 | an upload keeps stored emails unique and normalised |
| Upload.NoNewUsersAllDuplicates | server.js:340-346 | `no-new-users` means the store is unchanged and every data line has a duplicate entry, in order |
| Upload.CreateRow | server.js:304-321 | the create and its counting are those of `Admit` and `Record` |
| Upload.ImportLine | server.js:260-328 | a blank line changes nothing; any other line moves the tally and the store from `ImportLines` up to line `i` to `ImportLines` up to line `i + 1` |
| Upload.ImportRows | server.js:255-328 | the loop ends with the tally and store that `ImportLines` gives for all data lines |
| Upload.HandleUpload | server.js:203-346 | the status, tally and store are those of `UploadSpec` |
| Listing.Matches | server.js:61-69 | `LIKE '%t%'` on a column read as substring containment, `Op.or` as either condition; WhereSelects states what each clause selects |
| Listing.WhereClause | server.js:58-73 | there is no condition exactly when the search is absent or empty |
| Listing.WhereSelects | server.js:58-73 | which rows the condition selects for each combination of search and filter |
| Listing.FiltersNarrow | server.js:60-72 | a one-column filter selects a subset of the default search, and the default search is the union of the two filters |
| Listing.SearchTextOccurs | server.js:59-72 | every row a search selects contains the search text in its name or email |
| Listing.Offset | server.js:56 | the offset of a page from 1 on is not negative |
| Listing.ConsecutivePages | server.js:56 | consecutive pages are adjacent windows of `limit` rows |
| Listing.TotalPages | server.js:82 | the fewest pages of `limit` rows that hold `count` rows; zero exactly when there are none |
| Listing.PageOf | server.js:56 | row `j` lies in the window of its page |
| Listing.PagesCoverRows | server.js:56-82 | every row lies on exactly one page, and that page is between 1 and the number of pages |
| Listing.BuildQuery | server.js:55-80 | the query has the newest-first order, the derived condition, the default or given limit and the offset of the default or given page |
| Listing.DefaultQuery | server.js:55 | no parameters ask for the first ten rows of all users, newest first |

## Left out

- Express routing, multer's temporary file, reading it from disk and deleting it (server.js:225-226, 351-361) are left out. The file's text is an input.
- The other routes are not modelled: dashboard, user pages, export, add/update/delete and proxy. sequelize.js is not part of this model beyond the `mysql` dialect it names.
- Logging is left out, including the first ten errors printed at server.js:334-337. So is rendering of the listing page.
- The `server-error` redirect (server.js:348-350) is left out. It can only come from reading the uploaded file (server.js:226), which is outside the model.
- The parse-error catch (server.js:323-327) has no branch: `parseCSVLine` never throws.
- Upload.ImportRows: requires every line to be non-blank, as `DataLines` guarantees at its only call site. ImportLine itself still models the `continue` on a blank line (server.js:262).
- Error entries carry a structured reason instead of the message text.
- A line number is the index into the filtered, non-blank lines, as in the code (server.js:260, 270). It is not the line number in the original file.
- Strings.ToLower: modelled for the ASCII letters only, while `toLowerCase` also maps letters such as `É`. An upload of `é@x.de` followed by `É@x.de` therefore has a duplicate in the program, but both lines import in the model. Users.SameUpToCase, Upload.ExistingUserSkipped and Upload.EarlierLineSkipped speak of ASCII letter case only.
- A `char` is a Unicode scalar value, not a UTF-16 code unit. The one place the code counts code units is the name length (server.js:296), and `Utf16Length` counts them there. Splitting, trimming, tokenizing and the email pattern give the same result either way, because none of the characters they look for is a surrogate.
- Lone surrogates cannot be represented. The file is decoded as UTF-8 (server.js:226), which never produces them.
- The model's `isEmail` validator and database failures are not modelled as rules. They come in as the `faults` input.
- Users.Insert: assumes the upload is the only writer of the users table.
  - Each `await User.create` (server.js:305) lets other requests run. An `/add` or a second upload can store the same email between two lines, and MySQL then raises the unique-constraint error for an email the model's `users` lacks.
  - UploadAccounting and NoNewUsersAllDuplicates hold only under this assumption. A concurrent writer's error is a `DatabaseError` fault here, not a duplicate.
- Users.Insert: the unique index is modelled as exact equality of the normalised emails. MySQL compares under the column's collation, which can also equate emails that differ in accents or trailing spaces.
- Listing.WhereClause: `search` and `filter` are modelled as absent or one string. Repeating a query parameter makes Express pass an array (server.js:55-59), and that case is not modelled.
- Listing.BuildQuery: the model is `paranoid: true` (models/User.js:25), so `findAndCountAll` (server.js:75) also drops soft-deleted rows. That filter is not modelled. The model's `users` holds soft-deleted rows too, because the unique index (models/User.js:12) still sees them.
- Listing.Matches: `LIKE '%t%'` is read as exact substring containment. The case-insensitive collation of MySQL and the `%`/`_` wildcards inside the search text are not modelled.
- Listing.BuildQuery: takes `page` and `limit` already as integers and requires a positive limit.
  - The string-to-number coercion and `parseInt` of the query parameters are not modelled.
  - Neither are `NaN`, a limit of 0 (where `Math.ceil(count / 0)` is `Infinity`, or `NaN` when the count is 0) or negative limits.
- The listing handler clamps nothing: `page` and `limit` are used as given, and the order is always `createdAt DESC`. It also does not trim or cap the search text. The model follows this code rather than a clamping and sort-selecting query builder.
- The render parameters of the listing (`currentPage`, echoed `search`/`filter`, upload counts) are left out.
