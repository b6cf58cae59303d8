# Add-cashier model

A Dafny model of the "add cashier" path of a small Next.js + Mongoose store
back office. `POST /api/cashier/add` reads six fields from the request body:
cashierName, mobile, aadhaar, storeLocation, address and email. It then does
the following, in order:

- rejects the request if any field is missing or empty;
- looks for a stored cashier that already holds the mobile, aadhaar or email,
  and answers with one message per shared field;
- derives a login name from the cashier's name and retries with a counter
  until no record holds it;
- draws an eight-character password;
- saves the new document.

The Mongoose schema trims every string path and lower-cases the email. It
requires every path, checks the mobile, aadhaar and email formats, and keeps
userName, mobile, aadhaar and email unique across the collection.

The project has four modules, one per file:

- `Text` (`text.dfy`): the JavaScript string built-ins the path relies on.
  These are `trim()`, `split(c)`, `toLowerCase()` and the decimal rendering of
  the counter. Each comes with the properties the rest of the model needs:
  - trimming is idempotent, and a whitespace-only string trims to "";
  - `split` is undone by `join`, and its first and last pieces are the text
    before the first separator and after the last one;
  - the decimal rendering is undone by parsing.
- `EmailPattern` (`email_pattern.dfy`): the schema's email regular
  expression, written as a grammar. It is proved equivalent to a direct
  description of the accepted strings, from which an accepted address holds
  exactly one `@` and ends in a dot and two or three word characters.
- `CashierModel` (`cashier.dfy`): the schema and the collection.
  - The setters (`Normalize`) and the validators (`Validate`) are functions.
    A record in stored form is one that the setters leave unchanged and that
    passes validation.
  - The collection invariant `StoreValid` says every record is in stored form
    and no two records share a unique key.
  - `findOne` returns the first matching record.
  - `save()` is the function `SaveInto`. The class `CashierCollection`
    holds the records in a field and updates it in place through its method
    `Save`.
- `AddCashierRoute` (`add_route.dfy`): the route.
  - `GenerateRandomPassword` is a `for` loop, proved equal to `PasswordOf`.
  - `GenerateUniqueUserName` is a `while` loop over the collection, proved
    equal to `UniqueUserName`: the first candidate that no record holds.
  - `Post` is the handler, proved equal to the pure specification
    `AddCashier`. The lemmas about `AddCashier` state what each branch
    promises: the required check, the duplicate check, the created record,
    the preserved invariant, the 400 'Validation failed' answer, and the cause
    of the 500 answer.

Behaviour of the code worth noting:

- **Word splitting.** The cashier name is split on the space character
  only. Other whitespace, such as a tab, does not separate words, so
  `"Jane\tDoe"` is one word and gives `ja@nature.com` (`ExampleJaneTabDoe`).
- **Unique fields.** Four paths carry a unique index: userName, mobile,
  aadhaar and email.
- **A unique-index violation at save time answers 500.** It is not a
  Mongoose `ValidationError`, so the handler answers it with the 500
  branch. The model calls this outcome `DuplicateKey` and the response
  `InternalError`. Validation runs before the unique indexes, so a document
  that both fails validation and clashes is answered 400 'Validation
  failed' (`SaveInto`, `Respond`).
- **Raw values in the duplicate check.** The model reads `findOne` as
  comparing the query's values with the stored values by exact equality,
  without applying the schema's setters to the filter (see "Left out").
  Under that reading, the pre-check compares the request's values as
  sent, while stored values are trimmed and the email is lower-cased. A
  contact that differs from a stored one only in surrounding whitespace or
  letter case then passes the pre-check, fails at the unique index, and is
  answered with 500. `AddInternalErrorCause` and
  `AddNormalizedNeverInternalError` hold under this reading. If the store
  casts filter values through the setters, such a request takes the
  duplicate branch instead. Its details may then be empty, because the
  messages compare the raw values with `===`.
- **Whitespace-only names.** A cashier name made only of whitespace passes
  the required check, because it is non-empty. Its base user name is
  `@nature.com`. The save then fails validation, because the trimmed name is
  empty, so nothing is stored.

## Model

| member | source | states |
|---|---|---|
| Text.Trim | src/app/api/cashier/add/route.ts:17 | the result has no whitespace at either end and is no longer than the input |
| Text.TrimStartIsSuffix | src/models/cashier.ts:19 | dropping leading whitespace keeps a suffix of the input |
| Text.TrimEndIsPrefix | src/models/cashier.ts:19 | dropping trailing whitespace keeps a prefix of the input |
| Text.TrimStartDropsWhitespace | src/models/cashier.ts:19 | every character dropped from the front is whitespace |
| Text.TrimEndDropsWhitespace | src/models/cashier.ts:19 | every character dropped from the back is whitespace |
| Text.TrimEmptyIff | src/models/cashier.ts:18-19 | trimming gives "" exactly when every character is whitespace |
| Text.TrimOfTrimmed | src/models/cashier.ts:19 | a string with no whitespace at either end is left unchanged |
| Text.TrimIdempotent | src/models/cashier.ts:19 | trimming twice equals trimming once |
| Text.ToLower | src/app/api/cashier/add/route.ts:20 | same length; each ASCII upper-case letter becomes the same letter in lower case; every other character unchanged |
| Text.ToLowerAppend | src/app/api/cashier/add/route.ts:22 | lower-casing a concatenation lower-cases each part |
| Text.ToLowerOfLowerCase | src/app/api/cashier/add/route.ts:30 | a lower-case string is unchanged by lower-casing |
| Text.LowerCharWhitespace | src/models/cashier.ts:57-58 | lower-casing a character neither makes nor removes whitespace |
| Text.TrimStartToLower | src/models/cashier.ts:57-58 | dropping leading whitespace commutes with lower-casing |
| Text.TrimEndToLower | src/models/cashier.ts:57-58 | dropping trailing whitespace commutes with lower-casing |
| Text.TrimToLower | src/models/cashier.ts:57-58 | trimming and lower-casing commute, so the order of the email setters does not matter |
| Text.IndexOf | src/app/api/cashier/add/route.ts:30 | the position of the first occurrence: it holds the character and none comes before it |
| Text.LastIndexOf | src/app/api/cashier/add/route.ts:22 | the position of the last occurrence: it holds the character and none comes after it |
| Text.IndexOfUnique | src/app/api/cashier/add/route.ts:30 | an occurrence with none before it is the first occurrence |
| Text.LastIndexOfUnique | src/app/api/cashier/add/route.ts:22 | an occurrence with none after it is the last occurrence |
| Text.Split | src/app/api/cashier/add/route.ts:17 | `split` always yields at least one piece |
| Text.SplitJoin | src/app/api/cashier/add/route.ts:17 | joining the pieces with the separator gives the input back |
| Text.SplitPiecesHaveNoSeparator | src/app/api/cashier/add/route.ts:17 | no piece contains the separator |
| Text.SplitSingle | src/app/api/cashier/add/route.ts:19 | there is one piece exactly when the separator does not occur |
| Text.SplitFirst | src/app/api/cashier/add/route.ts:30 | the first piece is the text before the first separator, or the whole input |
| Text.SplitLast | src/app/api/cashier/add/route.ts:22 | the last piece is the text after the last separator |
| Text.DecimalString | src/app/api/cashier/add/route.ts:30 | the counter renders as at least one decimal digit, with no leading zero |
| Text.DecimalRoundTrip | src/app/api/cashier/add/route.ts:30 | parsing the rendered counter gives the counter back |
| Text.DecimalStringInjective | src/app/api/cashier/add/route.ts:30 | distinct counters render differently |
| EmailPattern.WordChainShape | src/models/cashier.ts:59 | `\w+([.-]?\w+)*` accepts exactly the strings of word characters and single separators that start and end with a word character |
| EmailPattern.ChainJoin | src/models/cashier.ts:59 | two chains joined by one separator form a chain |
| EmailPattern.ChainCut | src/models/cashier.ts:59 | a chain cut at a separator gives two chains |
| EmailPattern.TopLevelGroupsChain | src/models/cashier.ts:59 | `(\.\w{2,3})+` accepts only a dot followed by a chain |
| EmailPattern.EndsWithGroupSuffix | src/models/cashier.ts:59 | a string ends in a dot and two or three word characters if a suffix of it does |
| EmailPattern.TopLevelGroupsEnd | src/models/cashier.ts:59 | `(\.\w{2,3})+` accepts only strings ending in a dot and two or three word characters |
| EmailPattern.DomainPartHasShape | src/models/cashier.ts:59 | an accepted domain part is a chain ending in a top-level group |
| EmailPattern.ShapeIsDomainPart | src/models/cashier.ts:59 | every chain ending in a top-level group is an accepted domain part |
| EmailPattern.DomainPartShape | src/models/cashier.ts:59 | the domain part is accepted exactly when it is a chain ending in a top-level group |
| EmailPattern.MatchesEmailShape | src/models/cashier.ts:59 | the whole pattern accepts exactly the chain, `@`, chain ending in a top-level group |
| EmailPattern.ChainHasNoAt | src/models/cashier.ts:59 | a chain holds no `@` |
| EmailPattern.EndsWithTopLevelGroupSuffix | src/models/cashier.ts:59 | an address ends in a top-level group when its domain part does |
| EmailPattern.SingleAt | src/models/cashier.ts:59 | an `@` with none before it and none after it is the only one |
| EmailPattern.MatchesEmailConsequences | src/models/cashier.ts:59 | an accepted email holds exactly one `@` and ends in a dot and two or three word characters |
| CashierModel.Normalize | src/models/cashier.ts:15-65 | after the setters every path has no whitespace at either end and the email has no ASCII upper-case letter |
| CashierModel.LowerCasedTrimmedIsTrimmed | src/models/cashier.ts:57-58 | the lower-cased trimmed email still has no whitespace at either end |
| CashierModel.NormalizedIffFixedPoint | src/models/cashier.ts:15-65 | a document is in setter form exactly when the setters leave it unchanged |
| CashierModel.NormalizeIdempotent | src/models/cashier.ts:15-65 | running the setters twice equals running them once |
| CashierModel.EveryPathListed | src/models/cashier.ts:15-65 | the schema's path list covers every path |
| CashierModel.ValidatePaths | src/models/cashier.ts:16-65 | a `required` failure for exactly the empty paths, a `match` failure for exactly the non-empty non-matching paths, and nothing else |
| CashierModel.ValidateReports | src/models/cashier.ts:16-65 | for each path, validation reports `required` exactly when it is empty and `match` exactly when it is non-empty and does not match |
| CashierModel.ValidateEmptyIff | src/models/cashier.ts:16-65 | a document passes exactly when every path is non-empty and matches its pattern |
| CashierModel.TrimmedPathAccepted | src/models/cashier.ts:15-65 | a path with no `match` validator and no `lowercase` setter accepts any non-empty value with no whitespace at either end |
| CashierModel.RequiredAfterTrim | src/models/cashier.ts:16-65 | a path is reported missing exactly when its value is all whitespace |
| CashierModel.MobileAccepted | src/models/cashier.ts:29-35 | mobile is accepted exactly when, once trimmed, it is ten decimal digits |
| CashierModel.AadhaarAccepted | src/models/cashier.ts:36-42 | aadhaar is accepted exactly when, once trimmed, it is twelve decimal digits |
| CashierModel.EmailAccepted | src/models/cashier.ts:53-60 | an accepted email is stored trimmed and lower-cased, matches the pattern, holds one `@` and ends in a two- or three-character group |
| CashierModel.AppendKeepsStoreValid | src/models/cashier.ts:22-60 | appending a stored-form record that clashes with no record on the four unique keys keeps the invariant |
| CashierModel.AppendKeepsStoredForm | src/models/cashier.ts:15-65 | appending a stored-form record keeps every record in stored form |
| CashierModel.AppendKeepsUniqueKeys | src/models/cashier.ts:22-60 | appending a record that clashes with none keeps userName, mobile, aadhaar and email unique |
| CashierModel.StoredRecordsNormalized | src/models/cashier.ts:15-65 | in a valid collection every stored field is trimmed and non-empty, the email is lower-case and matches, the mobile has 10 digits and the aadhaar 12 |
| CashierModel.FindOne | src/app/api/cashier/add/route.ts:50 | nothing is found exactly when no record matches; otherwise the result is the first matching record in collection order |
| CashierModel.FindOneByUserName | src/app/api/cashier/add/route.ts:29 | the user-name lookup finds something exactly when the name is held |
| CashierModel.SaveInto | src/app/api/cashier/add/route.ts:64-75 | the save succeeds exactly when the normalized document validates and clashes with no record; on success exactly that document is appended; otherwise nothing changes; a validation failure takes precedence and carries the errors; a duplicate key arises exactly when the document validates but clashes |
| CashierModel.SaveKeepsStoreValid | src/models/cashier.ts:22-60 | a save never breaks the collection invariant |
| CashierModel.CashierCollection.Save | src/app/api/cashier/add/route.ts:75 | the collection's new records and the outcome are those of `SaveInto`, and the invariant is kept |
| AddCashierRoute.UpperLettersLayout | src/app/api/cashier/add/route.ts:7 | the first 26 characters of the literal are A to Z in order |
| AddCashierRoute.LowerLettersLayout | src/app/api/cashier/add/route.ts:7 | the next 26 are a to z in order |
| AddCashierRoute.DigitCharsLayout | src/app/api/cashier/add/route.ts:7 | the last 10 are 0 to 9 in order |
| AddCashierRoute.AlphabetLayout | src/app/api/cashier/add/route.ts:7 | the alphabet has 62 characters: A-Z, then a-z, then 0-9 |
| AddCashierRoute.AlphabetIndex | src/app/api/cashier/add/route.ts:7-10 | every letter or digit sits at some index of the alphabet |
| AddCashierRoute.AlphabetIsAlphanumeric | src/app/api/cashier/add/route.ts:7 | the alphabet holds exactly the ASCII letters and digits |
| AddCashierRoute.AlphabetDistinct | src/app/api/cashier/add/route.ts:7 | no character occurs twice in the alphabet |
| AddCashierRoute.PasswordOf | src/app/api/cashier/add/route.ts:6-13 | the password has one character per draw |
| AddCashierRoute.PasswordOfAlphanumeric | src/app/api/cashier/add/route.ts:7-11 | every password character is a letter or digit, so the trim setter leaves it unchanged |
| AddCashierRoute.PasswordOfInjective | src/app/api/cashier/add/route.ts:9-11 | distinct draws give distinct passwords |
| AddCashierRoute.PasswordOfOnto | src/app/api/cashier/add/route.ts:9-11 | every string of letters and digits is the password of some draws |
| AddCashierRoute.GenerateRandomPassword | src/app/api/cashier/add/route.ts:6-13 | the loop builds exactly the password of the draws |
| AddCashierRoute.Prefix | src/app/api/cashier/add/route.ts:20 | `slice(0, n)` is a prefix of length n, or the whole string when shorter |
| AddCashierRoute.BaseUserNameParts | src/app/api/cashier/add/route.ts:20-22 | the base name is the lower-cased letters of the name followed by `@nature.com` |
| AddCashierRoute.BaseUserNameStem | src/app/api/cashier/add/route.ts:30 | the base name contains an `@`; the stem is the lower-cased letters when they hold no `@` |
| AddCashierRoute.BaseUserNameOneWord | src/app/api/cashier/add/route.ts:17-20 | a trimmed name with no space gives its first two characters, lower-cased, and the domain |
| AddCashierRoute.FirstWordInitial | src/app/api/cashier/add/route.ts:22 | with a space and no leading space, the first word starts with the first character |
| AddCashierRoute.LastWordInitial | src/app/api/cashier/add/route.ts:22 | with a space and no trailing space, the last word starts right after the last space |
| AddCashierRoute.InitialsSeveral | src/app/api/cashier/add/route.ts:19-22 | with a space there are several words, and the first and the last contribute one character each |
| AddCashierRoute.InitialsOfWords | src/app/api/cashier/add/route.ts:21-22 | a name with an inner space gives its first character and the one after its last space |
| AddCashierRoute.BaseUserNameInitials | src/app/api/cashier/add/route.ts:21-23 | a trimmed name with a space gives its first character and the one after its last space, lower-cased, and the domain |
| AddCashierRoute.CandidateForm | src/app/api/cashier/add/route.ts:30 | every retry is the lower-cased stem, the counter, and the domain |
| AddCashierRoute.CandidatesDistinct | src/app/api/cashier/add/route.ts:29-31 | no user name is tried twice |
| AddCashierRoute.CandidatesBelowGrow | src/app/api/cashier/add/route.ts:29-32 | a retry after a taken name leaves fewer taken names ahead, so the loop ends for a finite collection |
| AddCashierRoute.FirstFreeIndex | src/app/api/cashier/add/route.ts:29-32 | the search stops at a free candidate after only taken ones |
| AddCashierRoute.FirstFreeIndexStep | src/app/api/cashier/add/route.ts:29-32 | a taken candidate sends the search on to the next one, with fewer taken names ahead |
| AddCashierRoute.FirstFreeIndexIsFirst | src/app/api/cashier/add/route.ts:29-32 | a free candidate with only taken ones before it is the one the search finds |
| AddCashierRoute.UniqueUserNameIsFirstFree | src/app/api/cashier/add/route.ts:25-34 | the generated name is the first free candidate in the order base, stem1, stem2, ... |
| AddCashierRoute.HandleStart | src/app/api/cashier/add/route.ts:17-22 | the letters taken from the name start with the trimmed name's first character |
| AddCashierRoute.BaseUserNameStart | src/app/api/cashier/add/route.ts:17-22 | the base name never starts with whitespace |
| AddCashierRoute.CandidateStart | src/app/api/cashier/add/route.ts:30 | no candidate starts with whitespace |
| AddCashierRoute.CandidateEnd | src/app/api/cashier/add/route.ts:20-30 | every candidate ends with `@nature.com` |
| AddCashierRoute.CandidateTrimmed | src/app/api/cashier/add/route.ts:20-30 | every candidate has no whitespace at either end, so the trim setter keeps it |
| AddCashierRoute.UniqueUserNameShape | src/app/api/cashier/add/route.ts:16-35 | the generated name is not held by any record, has no whitespace at either end, has no ASCII upper-case letter, ends with `@nature.com`, and is the base name or the stem followed by a counter of at least 1 |
| AddCashierRoute.OneWordExample | src/app/api/cashier/add/route.ts:19-20 | a trimmed one-word name contributes its lower-cased first two characters |
| AddCashierRoute.TwoWordExample | src/app/api/cashier/add/route.ts:21-23 | a trimmed name contributes its first character and the one after its last space |
| AddCashierRoute.ExampleJaneDoe | src/app/api/cashier/add/route.ts:21-23 | "Jane Doe" gives `jd@nature.com` |
| AddCashierRoute.ExampleJaneTabDoe | src/app/api/cashier/add/route.ts:17-20 | "Jane\tDoe" is one word and gives `ja@nature.com` |
| AddCashierRoute.ExampleAl | src/app/api/cashier/add/route.ts:19-20 | "Al" gives `al@nature.com` |
| AddCashierRoute.ExampleA | src/app/api/cashier/add/route.ts:19-20 | "A" gives `a@nature.com` |
| AddCashierRoute.StemExample | src/app/api/cashier/add/route.ts:30 | a lower-case stem without `@` followed by the domain retries as the stem, the counter and the domain |
| AddCashierRoute.JdFirstCounter | src/app/api/cashier/add/route.ts:30 | the first retry after `jd@nature.com` is `jd1@nature.com` |
| AddCashierRoute.ExampleJaneDoeTaken | src/app/api/cashier/add/route.ts:25-34 | with `jd@nature.com` taken, "Jane Doe" gets `jd1@nature.com` |
| AddCashierRoute.GenerateUniqueUserName | src/app/api/cashier/add/route.ts:16-35 | the loop returns exactly the first candidate no record in the collection holds |
| AddCashierRoute.DuplicateDetails | src/app/api/cashier/add/route.ts:52-55 | one message per contact field the found record shares, each iff that field is equal, only those three messages, in the order mobile, aadhaar, email |
| AddCashierRoute.CollectDuplicateDetails | src/app/api/cashier/add/route.ts:52-55 | the pushes build exactly those details |
| AddCashierRoute.Respond | src/app/api/cashier/add/route.ts:75-84 | the answer keeps the collection left by the save; a saved document is answered 201 with the given user name and password, a validation error 400 with its failures, a duplicate key 500 |
| AddCashierRoute.AddRequiresAllFields | src/app/api/cashier/add/route.ts:45-47 | 'All fields are required' exactly when a field is missing or empty, and then nothing changes |
| AddCashierRoute.AddRejectsDuplicates | src/app/api/cashier/add/route.ts:50-57 | 'Duplicate entry found' exactly when some record holds the mobile, aadhaar or email; nothing changes; the details are non-empty and name exactly the fields the first such record shares |
| AddCashierRoute.AddCreates | src/app/api/cashier/add/route.ts:59-77 | on 201 exactly one record is appended, holding the trimmed inputs, the lower-cased email, and the returned user name and password; the name is the first free candidate; the password is the eight drawn letters or digits |
| AddCashierRoute.AddKeepsStoreValid | src/app/api/cashier/add/route.ts:37-86 | every request leaves the collection invariant intact |
| AddCashierRoute.AddChangesOnlyWhenCreated | src/app/api/cashier/add/route.ts:37-86 | only a 201 changes the collection, and then by appending one record |
| AddCashierRoute.AddValidationFails | src/app/api/cashier/add/route.ts:75-81 | with every field given and no contact taken, 400 'Validation failed' comes exactly when the new document fails validation after the setters; it carries those failures and nothing is stored |
| AddCashierRoute.UniqueUserNameTrimmed | src/app/api/cashier/add/route.ts:16-35 | the generated user name is non-empty and has no whitespace at either end |
| AddCashierRoute.GeneratedFieldsAccepted | src/app/api/cashier/add/route.ts:60-73 | the generated user name and password survive the trim setter and satisfy their `required` validators |
| AddCashierRoute.AddValidationBlamesRequest | src/app/api/cashier/add/route.ts:78-81 | a 400 'Validation failed' never names the user name or the password, only fields taken from the request |
| AddCashierRoute.AddInternalErrorCause | src/app/api/cashier/add/route.ts:78-84 | a 500 comes only from a unique index: no record matches the contacts as sent, but one matches them once trimmed and lower-cased |
| AddCashierRoute.AddNormalizedNeverInternalError | src/app/api/cashier/add/route.ts:50-84 | contacts that are already trimmed, with a lower-case email, never get a 500 |
| AddCashierRoute.Post | src/app/api/cashier/add/route.ts:37-86 | the handler's response and the collection afterwards are those of `AddCashier`, and the invariant is kept |

## Left out

- The `GET` route that lists cashiers is left out: it passes `find()` straight through, so there is no logic to model.
- `dbConnect`, `request.json()`, `NextResponse` and HTTP status codes are left out. The response is a datatype with one constructor per answer.
- Request fields are modelled as optional strings. A JSON value of another type is not modelled.
- Truthiness is modelled only as "present and not empty".
- `Math.random` is replaced by a sequence of draws, one index per password character, given as a parameter.
- The floating-point arithmetic of `Math.floor(Math.random() * 62)` is not modelled.
- The store-assigned `_id` is left out, and so is its echo in the 201 body.
- `createdAt` (`Date.now`) is left out, because it depends on the wall clock.
- `console.error` logging is left out.
- Concurrency is left out. Each request runs as one atomic step against the collection, so the check-then-insert race between concurrent requests is not modelled.
- The unique indexes are modelled as a check made at save time, so a race could only surface there. Index creation and storage internals are left out.
- Text.ToLower: lower-cases only the ASCII letters, because the model has no Unicode case tables. Non-ASCII letters stay unchanged. So "Élise Dupont" gives `Éd@nature.com` where the program gives `éd@nature.com`. An email with a character such as U+212A KELVIN SIGN, which lower-cases to ASCII `k`, can be accepted by the program and rejected by the model. "Lower-case" in `IsLowerCase` and `UniqueUserNameShape` means "no ASCII upper-case letter".
- AddCashierRoute.Prefix: strings are modelled as sequences of Unicode code points, while JavaScript's `slice` counts UTF-16 code units. A name whose first characters lie outside the Basic Multilingual Plane therefore gets a different handle. For "😀 Doe" the program keeps only the lone high surrogate of the emoji, and the model keeps the whole emoji. Lengths and `slice` positions are the only places where the two readings differ. No surrogate is whitespace or a space, so `trim()` and `split(' ')` give the same pieces either way.
- CashierModel.FindOne: compares query values with stored values by exact equality. The schema's setters are not applied to query filters; that is library behaviour this model does not capture.
- CashierModel.FindOne: returns the first match in insertion order. The order a real store returns matches in is left out.
- CashierModel.Validate: reports each failure as its path and kind (`required` or `match`). Mongoose's message texts are not modelled. Mongoose reports them keyed by path; the model lists them in schema order.
- AddCashierRoute.GenerateUniqueUserName: the counter is an unbounded natural number. JavaScript number precision beyond 2^53 is not modelled.
- The 500 branch of `POST` is modelled only for the failure the visible code can raise: a unique-key violation at save time. Store connection and I/O failures are not modelled.
