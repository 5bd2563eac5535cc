# YaMDB core in Dafny

A model of the decision logic of YaMDB, a Django/DRF service for cataloguing
works ("titles"), their categories and genres, user reviews with a 1..10
score, and comments, with sign-up by e-mailed confirmation code and
role-based permissions (user, moderator, admin).

What is modelled, one module per source concern:

- `Usernames` (usernames.dfy): the two divergent `validate_username_format`
  functions. The one in reviews/validators.py removes every character of the
  class `[\w.@+-]` and reports what is left, then refuses "me" in any casing.
  The one in api/validators.py refuses exactly "me", then matches the anchored
  pattern `^[\w.@+-]+\Z`. The serializers, the models and the admin form use
  the first.
- `Users` (users.dfy): the `User` model's roles, `is_admin`, `is_moderator`,
  the user table as a sequence in primary-key order (so `.first()` is
  deterministic), `validate_user_exists` and `validate_name_length`.
- `AdminForm` (admin_form.dfy): `CustomUserCreationForm.clean_username` and
  `clean`.
- `Permissions` (permissions.dfy): `IsAdmin`, `IsAdminOrReadOnly`,
  `IsAuthorOrReadOnly`.
- `Catalogue` (catalogue.dfy): categories, genres, titles, reviews and
  comments as maps from primary key to record. The store's integrity
  constraints are one predicate `Valid`. The `on_delete` rules are delete
  operations proved to keep `Valid`. Also the score validators and `__str__`.
- `Serializers` (serializers.dfy): `TitleSerializer.validate`,
  `validate_genre`, `to_representation`, `ReviewSerializer.validate` with the
  review POST flow, and `UserSerializer` validation.
- `Auth` (auth.dfy): sign-up and token exchange as a state machine over the
  user table and an outbox of sent codes. This includes the normalization
  `create_user` applies to the stored username and e-mail.
- `CsvLoader` (csv_loader.dfy): the `load_csv_data` command. This covers the
  file order, skipping missing files, the per-row field mapping, foreign-key
  resolution by id, and the integer conversions.
- `Text` (text.dfy): Python's `str.strip()`, `int()` on decimal text and
  ASCII `lower()`. `Results`, `Constants`: `Option`/`Result` and the limits
  of reviews/constants.py.

Parameters stand in for what is outside the code:

- Python's Unicode `\w` is a function parameter `w`, assumed only to contain
  the ASCII letters, digits and `_` (`CoversAscii`) where a lemma needs it.
- The confirmation-code check is a predicate parameter `codeOk`. "A code was
  sent to u" is an entry `u` appended to the outbox.
- The current year and the year the process started are parameters.
- Unicode NFKC normalization, which `create_user` applies to a new
  username, is a function parameter `nfkc`.
- `bulk_create` is a function parameter `insert`. It returns the primary keys
  present after a batch.
- A new review's primary key is a parameter that must be unused, because the
  database assigns it. A new user's key is the table's next id.

The source disagrees with itself in one place. api/serializers.py imports
`validate_user_exists` and `validate_name_length` from reviews/validators.py,
but they exist only in api/validators.py. The model takes them from there,
and takes `validate_username_format` from reviews/validators.py as imported.

## Model

| member | source | states |
|---|---|---|
| Usernames.ForbiddenChars | api_yamdb/reviews/validators.py:14-15 | the removal result has no allowed character and is no longer than the input |
| Usernames.ForbiddenCharsEmptyIff | api_yamdb/reviews/validators.py:15-17 | nothing is reported exactly when every character is in `[\w.@+-]` |
| Usernames.ForbiddenCharsExact | api_yamdb/reviews/validators.py:14-20 | the reported string is a subsequence of the input holding each disallowed character exactly as often as the input and no allowed one, so it is the disallowed characters in original order |
| Usernames.ForbiddenCharsAppend | api_yamdb/reviews/validators.py:15 | the removal distributes over concatenation |
| Usernames.ValidateUsernameFormat | api_yamdb/reviews/validators.py:11-26 | accepted iff every character is allowed and the lower-cased value is not "me"; an accepted value is returned unchanged; the forbidden-characters error fires iff some character is disallowed and carries exactly the removal result |
| Usernames.ReservedInEveryCasing | api_yamdb/reviews/validators.py:22-25 | "me", "Me", "mE" and "ME" are all refused as reserved |
| Usernames.ReservedOnlyForMe | api_yamdb/reviews/validators.py:22-25 | the reserved-name error is reported only for those four casings |
| Usernames.EmptyAccepted | api_yamdb/reviews/validators.py:15-26 | the empty string is accepted by this variant |
| Usernames.ChecksNeverCompete | api_yamdb/reviews/validators.py:17-25 | a casing of "me" has no forbidden character, so the check order never changes which error is reported |
| Usernames.MatchesUsernamePattern | api_yamdb/api/validators.py:15 | the anchored pattern matches iff the string is non-empty and every character is in `[\w.@+-]` |
| Usernames.PatternIffNothingForbidden | api_yamdb/api/validators.py:15 | the anchored pattern matches exactly the non-empty strings from which the removal variant removes nothing |
| Usernames.ValidateUsernamePattern | api_yamdb/api/validators.py:9-20 | reserved error iff the value is exactly "me"; accepted iff non-empty, all characters allowed and not "me"; accepted values returned unchanged |
| Usernames.PatternAcceptsCapitalMe | api_yamdb/api/validators.py:11-14 | "Me" passes this variant |
| Usernames.PatternRejectsEmpty | api_yamdb/api/validators.py:15-19 | the empty string is refused with the format error |
| Usernames.VariantsAgree | api_yamdb/api/validators.py:9-20 | away from the empty string and the casings of "me" both variants accept the same usernames |
| Users.RoleValueRoundTrip | api_yamdb/reviews/models.py:17-22 | each role's stored value reads back as that role, and only that value does |
| Users.MaxValueLength | api_yamdb/reviews/models.py:55 | the result bounds every role value's length and is attained by one of them |
| Users.RoleColumnWidth | api_yamdb/reviews/models.py:53-58 | the role column is 9 wide, every role fits, and the default is "user" |
| Users.IsAdmin | api_yamdb/reviews/models.py:64-70 | a superuser is an admin whatever the role; otherwise admin iff the stored role value is "admin" |
| Users.IsModerator | api_yamdb/reviews/models.py:72-74 | moderator iff the stored role value is "moderator", whatever superuser status; a moderator is an admin only as a superuser |
| Users.FindByUsername | api_yamdb/api/validators.py:25 | the result is the earliest row holding the username, or none iff no row holds it |
| Users.FindByUsernameUnique | api_yamdb/api/validators.py:25 | with unique usernames the lookup returns the one account holding the name |
| Users.ValidateUserExists | api_yamdb/api/validators.py:23-37 | no result iff neither username nor email is taken; email error iff the username is free and the email taken; a returned user holds exactly the given pair; a username error only when the name is held with another email |
| Users.ValidateUserExistsOnTakenName | api_yamdb/api/validators.py:25-31 | for the account holding the name: same email returns that very account, another email fails |
| Users.ValidateNameLength | api_yamdb/api/validators.py:40-46 | accepted iff at most 150 characters, value returned unchanged, error names the field |
| AdminForm.CleanUsername | api_yamdb/reviews/forms.py:15-20 | an empty or missing username is returned unchecked; a non-empty one passes iff the format validator accepts it |
| AdminForm.Clean | api_yamdb/reviews/forms.py:22-41 | cleaned data returned unchanged; no check unless both fields are non-empty; the email error iff the username is free and the email taken; the already-exists error only for an unsaved instance |
| AdminForm.CleanAgreesWithValidateUserExists | api_yamdb/reviews/forms.py:28-40 | with both fields filled the form accepts exactly what validate_user_exists accepts, except that an exact match passes only for a saved instance |
| AdminForm.CleanOnTakenName | api_yamdb/reviews/forms.py:29-36 | a taken name with another email is refused; with the same email it is refused for a new instance and allowed for a saved one |
| Permissions.AdminOrReadOnly | api_yamdb/api/permissions.py:14-18 | safe methods are always granted; an anonymous user is granted exactly the safe methods |
| Permissions.AdminOnly | api_yamdb/api/permissions.py:7-8 | whatever IsAdmin grants IsAdminOrReadOnly grants too, only to authenticated users, and on unsafe methods the two agree |
| Permissions.AuthorOrReadOnly | api_yamdb/api/permissions.py:24-28 | safe methods are always granted; an anonymous user gets only those; an authenticated user gets an unsafe method iff it is the object's author |
| Permissions.AdminOnlyIff | api_yamdb/api/permissions.py:7-8 | IsAdmin holds iff the user is authenticated and is a superuser or has the admin role |
| Permissions.SafeMethodsOpen | api_yamdb/api/permissions.py:14-18 | GET, HEAD and OPTIONS pass both read-only permissions, for anonymous users too |
| Permissions.UnsafeNeedsAdmin | api_yamdb/api/permissions.py:17 | any other method passes IsAdminOrReadOnly iff the user is an authenticated admin |
| Permissions.AdminOnlyImpliesAdminOrReadOnly | api_yamdb/api/permissions.py:7-18 | whenever IsAdmin grants, IsAdminOrReadOnly grants |
| Permissions.AuthorOrReadOnlyIgnoresRole | api_yamdb/api/permissions.py:24-28 | an unsafe method is granted iff the user is the object's author; role and superuser status change nothing; anonymous users are refused |
| Catalogue.ValidateScore | api_yamdb/reviews/validators.py:29-30 | accepted iff 1 <= score <= 10, value unchanged, the minimum error iff below 1 |
| Catalogue.ShortStr | api_yamdb/reviews/models.py:87-88 | the displayed text is a prefix of at most 20 characters, the whole text when it fits |
| Catalogue.AddReviewKeepsValid | api_yamdb/reviews/models.py:145-161 | inserting a review with a fresh key, an existing author and title, a score in range and no review on the same pair keeps a valid store valid |
| Catalogue.DeleteCategory | api_yamdb/reviews/models.py:116-122 | the category goes, no title references it afterwards, titles change only in that field, and a valid store stays valid |
| Catalogue.DeleteGenre | api_yamdb/reviews/models.py:112-115 | the genre goes and leaves every title's genre set, nothing else changes, validity is kept |
| Catalogue.DeleteReview | api_yamdb/reviews/models.py:173-177 | the review goes and exactly its comments go with it, validity is kept |
| Catalogue.DeleteTitle | api_yamdb/reviews/models.py:140-144 | the title goes, exactly its reviews go, and the comments on those reviews go; every other title, review and comment is unchanged; validity is kept |
| Catalogue.DeleteUser | api_yamdb/reviews/models.py:135-139 | the user's reviews and comments go, and the comments on those reviews; surviving reviews and comments are unchanged and titles, categories and genres are untouched; validity is kept |
| Serializers.ValidateYearAsWritten | api_yamdb/reviews/models.py:107-110 | as written: a present year passes only if at most both the import-time year and the current year |
| Serializers.ValidateYear | api_yamdb/api/serializers.py:60-65 | a year is refused iff present and later than the current year; data unchanged otherwise |
| Serializers.YearBoundFrozenAtImport | api_yamdb/reviews/models.py:109 | a process started in 2025 refuses year 2026 in 2026, which the intended check accepts |
| Serializers.YearChecksAgreeInImportYear | api_yamdb/api/serializers.py:60-65 | the frozen bound never accepts what the intended one refuses, and both agree in the start year |
| Serializers.ValidateGenre | api_yamdb/api/serializers.py:67-72 | accepted iff the genre list is non-empty, returned unchanged |
| Serializers.ToRepresentation | api_yamdb/api/serializers.py:74-81 | no genre_read or category_read key remains; their values appear under genre and category; every other key is untouched |
| Serializers.ValidateReview | api_yamdb/api/serializers.py:99-107 | refused iff the method is POST and the author already reviewed the title; data unchanged otherwise |
| Serializers.ValidateReviewFields | api_yamdb/reviews/models.py:145-149 | accepted iff the stripped text is non-empty and 1 <= score <= 10; the blank-text error iff the stripped text is empty; the accepted text is the stripped one |
| Serializers.PostReview | api_yamdb/api/views.py:43-46 | accepted iff the stripped text is non-empty, the score is in range, the author has no review on the title and the title exists; the blank-text and already-reviewed errors each fire exactly in their case; exactly that review, with the stripped text, is added and validity is kept |
| Serializers.PostsKeepOneReviewPerPair | api_yamdb/reviews/models.py:156-161 | any run of review posts from a valid store keeps at most one review per author and title |
| Serializers.ValidateOptionalNameAsWritten | api_yamdb/api/serializers.py:196-203 | as written: a None first or last name, the field's default, is refused; a string passes iff at most 150 characters |
| Serializers.OmittedNameRefused | api_yamdb/api/serializers.py:231-233 | an omitted first name is refused by the code as written |
| Serializers.ValidateOptionalName | api_yamdb/api/serializers.py:231-237 | None passes; a name passes iff at most 150 characters; value unchanged |
| Serializers.OptionalNameAgreesOnStrings | api_yamdb/api/serializers.py:231-237 | the intended check equals the written one on every present name |
| Serializers.ValidateUserData | api_yamdb/api/serializers.py:196-225 | accepted iff the username, e-mail, first and last name checks and validate_user_exists all pass; accepted data is unchanged; the instance returned is what validate_user_exists returns, the account holding exactly the given pair, if any |
| Serializers.LongNamesRefused | api_yamdb/api/serializers.py:196-203 | a first or last name over 150 characters is always refused |
| Auth.NextId | api_yamdb/api/serializers.py:154-158 | a created user's key exceeds every key in the table |
| Auth.NormalizeEmail | api_yamdb/api/serializers.py:154-158 | an address whose stripped form has no '@' is kept as given; otherwise the stripped address keeps everything up to its last '@' and has every later character lower-cased |
| Auth.NormalizeEmailIdempotent | api_yamdb/api/serializers.py:154-158 | a normalized address normalizes to itself |
| Auth.NormalizeEmailExample | api_yamdb/api/serializers.py:154-158 | "bob@X.COM" is stored as "bob@x.com" |
| Auth.SignUpChecks | api_yamdb/api/serializers.py:126-150 | passes iff both fields are non-empty and within their lengths, the username format is accepted and validate_user_exists succeeds; it then yields what validate_user_exists returned |
| Auth.SignUpAsWritten | api_yamdb/api/serializers.py:139-160 | as written: accepted iff the checks pass and, for a new account, neither the NFKC username nor the normalized e-mail is already stored; a new account holds the normalized pair, a matching one is reused; exactly one code is sent; unique identities are kept |
| Auth.SignUpAgainRefused | api_yamdb/api/serializers.py:139-160 | as written, signing up twice as ("bob", "bob@X.COM") refuses the second: the stored e-mail is "bob@x.com" |
| Auth.LigatureNameLosesToken | api_yamdb/api/serializers.py:154-158 | as written, after signing up with a ligature in the name, the token request with the name as typed finds no account |
| Auth.SignUpAsWrittenThenToken | api_yamdb/api/serializers.py:152-189 | as written, the token exchange works with the name as stored, which for a new account is the NFKC form of the typed one |
| Auth.SignUpsAgreeOnNormalPairs | api_yamdb/api/serializers.py:139-160 | on a pair already in normal form the code as written and the corrected sign-up give the same result |
| Auth.SignUp | api_yamdb/api/serializers.py:139-160 | corrected: accepted iff the fields pass and validate_user_exists succeeds; exactly one code is sent, to the returned account, which holds the pair as typed; a matching account is reused with the table unchanged, otherwise exactly one default-role account is appended; unique identities are kept |
| Auth.SignUpTwiceIsIdempotent | api_yamdb/api/serializers.py:144-148 | signing up twice with one pair leaves the table as after the first, returns the same account and sends two codes |
| Auth.SignUpNewPairAddsOne | api_yamdb/api/serializers.py:152-160 | a new pair grows the table by one account not there before |
| Auth.ObtainToken | api_yamdb/api/serializers.py:167-189 | a missing username or code is refused first; with both present, the unknown-user error iff no account holds the username, and for the account found the request succeeds iff its code checks, else the bad-code error; accepted data is unchanged |
| Auth.SignUpThenToken | api_yamdb/api/serializers.py:144-189 | after a sign-up, the token exchange for that username succeeds exactly for codes that check for the signed-up account |
| Text.Strip | api_yamdb/reviews/management/commands/load_csv_data.py:102 | the result has no white space at either end and is empty iff the input is all white space |
| Text.StripKeepsMiddle | api_yamdb/reviews/management/commands/load_csv_data.py:141 | the result is one slice of the input, and everything before and after that slice is white space |
| Text.StripKeepsTrimmed | api_yamdb/reviews/management/commands/load_csv_data.py:141 | a string with no white space at either end is unchanged |
| Text.StripIdempotent | api_yamdb/reviews/management/commands/load_csv_data.py:141 | stripping twice is stripping once |
| Text.ParseInt | api_yamdb/reviews/management/commands/load_csv_data.py:108 | accepts exactly the text that, once stripped, is digits or a sign followed by digits; a parsed text is not blank |
| Text.ParseSigned | api_yamdb/reviews/management/commands/load_csv_data.py:143 | accepts exactly digits, or '+' or '-' followed by digits: a lone sign, an empty text and any other first character are refused; only a leading '-' gives a negative number |
| Text.PlusSignIgnored | api_yamdb/reviews/management/commands/load_csv_data.py:143 | "+7" reads as "7" does |
| Text.MinusSignNegates | api_yamdb/reviews/management/commands/load_csv_data.py:143 | "-7" reads as the negation of "7" |
| Text.LeadingZeroIgnored | api_yamdb/reviews/management/commands/load_csv_data.py:143 | "007" is accepted and reads as "7" does |
| Text.ParseIntIgnoresStrip | api_yamdb/reviews/management/commands/load_csv_data.py:141-143 | parsing the stripped text is parsing the raw text |
| Text.ParseIntRoundTrip | api_yamdb/reviews/management/commands/load_csv_data.py:143 | int() inverts str() on every integer |
| CsvLoader.MapReference | api_yamdb/reviews/management/commands/load_csv_data.py:107-137 | a foreign-key column fails iff its text is not an integer, resolves to a reference iff the id is present in the target model, and otherwise stays unset |
| CsvLoader.MapValue | api_yamdb/reviews/management/commands/load_csv_data.py:141-152 | id, year and score fail iff their text is not an integer and otherwise become that integer; pub_date keeps its stripped text as a timestamp; every other field is stored stripped |
| CsvLoader.MapColumn | api_yamdb/reviews/management/commands/load_csv_data.py:105-152 | a column named as a foreign key follows the reference rules, any other the value rules |
| CsvLoader.MapRow | api_yamdb/reviews/management/commands/load_csv_data.py:98-152 | fails iff some filled column read as an integer (a foreign key, `id`, `year` or `score`) holds text `int()` refuses, whatever ids exist, so an unmatched id is not an error; the error is that of the first failing column; every field set comes from a configured column that is present and not blank |
| CsvLoader.MapRowPointwise | api_yamdb/reviews/management/commands/load_csv_data.py:101-152 | for each configured pair, a missing or blank column sets nothing and a filled one sets exactly its column's value, or nothing for an unresolved key |
| CsvLoader.ConfiguredRowFields | api_yamdb/reviews/management/commands/load_csv_data.py:25-75 | the pointwise rules hold for every column of every configured file |
| CsvLoader.LoadRow | api_yamdb/reviews/management/commands/load_csv_data.py:98-156 | fails iff the row has a malformed integer; otherwise no object when every mapped field was blank or unresolved, else exactly the mapped fields |
| CsvLoader.LoadRows | api_yamdb/reviews/management/commands/load_csv_data.py:96-156 | fails iff some row fails, with the error of the first failing row; otherwise the objects are exactly the rows' objects, in row order |
| CsvLoader.LoadFile | api_yamdb/reviews/management/commands/load_csv_data.py:89-156 | fails iff some row has a malformed integer, with the first such row's error; otherwise the objects are exactly those the rows make, in row order |
| CsvLoader.LoadFileObjectsNonEmpty | api_yamdb/reviews/management/commands/load_csv_data.py:155-156 | no object of a loaded file is empty |
| CsvLoader.LoadFromShape | api_yamdb/reviews/management/commands/load_csv_data.py:78-162 | every inserted batch is non-empty and comes from a present, configured file, there are at most as many batches as files, and batches follow the configured model order |
| CsvLoader.LoopOne | api_yamdb/reviews/management/commands/load_csv_data.py:89-162 | one file: its error is reported with nothing inserted; a file that loads yields its batch iff it has objects |
| CsvLoader.LoopAppend | api_yamdb/reviews/management/commands/load_csv_data.py:78-162 | the loop over two runs of files is the first run and then, unless it failed, the second from the lookups the first left |
| CsvLoader.LoopSucceedsIff | api_yamdb/reviews/management/commands/load_csv_data.py:78-162 | the command finishes without error iff every file loads against the lookups the files before it left |
| CsvLoader.EmptyFileSkipped | api_yamdb/reviews/management/commands/load_csv_data.py:160-162 | a file that loads with no objects contributes nothing wherever it stands |
| CsvLoader.MissingFileSkipped | api_yamdb/reviews/management/commands/load_csv_data.py:82-83 | a missing file contributes nothing wherever it stands |
| CsvLoader.FileBatchKept | api_yamdb/reviews/management/commands/load_csv_data.py:78-162 | after earlier files that loaded, a file that loads has its batch inserted right after theirs, and what later files do, even fail, does not remove it |
| CsvLoader.FileFailureStops | api_yamdb/reviews/management/commands/load_csv_data.py:108-147 | after earlier files that loaded, a file with a malformed integer stops the command: earlier batches stay and nothing more is inserted |
| CsvLoader.NoFilesNoBatches | api_yamdb/reviews/management/commands/load_csv_data.py:82-83 | with no files nothing is created and nothing fails |
| CsvLoader.Handle | api_yamdb/reviews/management/commands/load_csv_data.py:19-164 | batches only for present files, at most one per configured file, in the order category, genre, users, titles, review, comments; with no files nothing happens |
| CsvLoader.ConfigLoadsReferencesFirst | api_yamdb/reviews/management/commands/load_csv_data.py:25-75 | the file order is category, genre, users, titles, review, comments; mappings have distinct fields; every foreign-key column refers to a model loaded earlier |

## Findings

| source | as written | input that shows it | evidently intended | confidence | as-written member | corrected member |
|---|---|---|---|---|---|---|
| api_yamdb/reviews/models.py:107-110 | `MaxValueValidator(datetime.now().year)` is evaluated once at import. DRF copies it into the serializer's year field as a fixed `max_value`. | process started in 2025; in 2026 a title with year 2026 is refused | refuse only years after the current year, as TitleSerializer.validate does | medium, not executed | Serializers.ValidateYearAsWritten (counterexample: Serializers.YearBoundFrozenAtImport) | Serializers.ValidateYear |
| api_yamdb/api/serializers.py:196-203,231-237 | first_name/last_name allow null and default to None, and `validate_first_name` then calls `len(None)` | POST of user data without first_name; `len(None)` raises TypeError | a missing or null name passes, a string is limited to 150 characters | medium, not executed | Serializers.ValidateOptionalNameAsWritten (counterexample: Serializers.OmittedNameRefused) | Serializers.ValidateOptionalName |
| api_yamdb/api/serializers.py:139-160 | `validate` checks the username and e-mail as typed, but `create_user` stores the username NFKC-normalized and the e-mail with a lower-cased domain | sign up as ("bob", "bob@X.COM") twice: the second finds "bob" with e-mail "bob@x.com" and is refused; or sign up with a ligature in the name, then request a token with the name as typed | a repeated sign-up with the same pair reuses the account, and the token request works with the name as typed | medium, not executed | Auth.SignUpAsWritten (counterexamples: Auth.SignUpAgainRefused, Auth.LigatureNameLosesToken) | Auth.SignUp (with Auth.SignUpTwiceIsIdempotent and Auth.SignUpThenToken) |

## Left out

- Python's Unicode `\w` beyond ASCII is a parameter. `str.lower()` is modelled for ASCII letters only. No non-ASCII character lower-cases to "m" or "e", so the comparison with "me" is unaffected.
- Text.ParseInt: Python's `int()` also accepts `_` between digits and non-ASCII decimal digits; the model accepts an optional sign and ASCII digits only.
- `datetime.fromisoformat` and the `Z` to `+00:00` rewrite: a `pub_date` value is kept as its stripped ISO text.
- A short CSV row, for which `csv.DictReader` fills missing columns with None: the model's rows are complete maps. A `None.strip()` crash is not modelled.
- `bulk_create(ignore_conflicts=True)` conflict handling, database ids and races: `insert` is a parameter. The command runs without a transaction, so the model keeps the batches inserted before a failure.
- The `__str__` methods of Category, Genre, Title, Review and Comment are Catalogue.ShortStr applied to the name or text; they are not separate members.
- The sign-up, token and user views: api/urls.py imports `SignUpView`, `TokenView` and `UserViewSet`, and api/views.py defines none of them. Auth.SignUp, Auth.ObtainToken and Serializers.ValidateUserData assume the view validates the serializer once and, for sign-up, saves it once.
- Mail sending, the code file and Django's token generator (api/confirmations.py): outbox entries and the `codeOk` parameter.
- DRF field machinery: whitespace trimming of CharField input is modelled only for the review text. E-mail syntax checks are not modelled. Neither are error messages, or the unique validators DRF derives for fields the model does not declare.
- Auth.SignUp: DRF reports every failing field together; the model reports the first failure in field order.
- Auth.ObtainToken: DRF reports a missing username and a missing code together; the model reports the missing username first, and the missing code only when the username is given.
- Serializers.ValidateUserData: reports only the first failing field, as above; the user's `bio` and `role` fields are not part of the modelled data.
- Serializers.ValidateUserData: checks the names with the corrected Serializers.ValidateOptionalName, so an omitted name passes; the code as written refuses it (see Findings).
- Auth.NormalizeEmail: lower-cases ASCII letters only, while Python's `lower()` also lower-cases other letters of the domain.
- Auth.SignUp: models the corrected behaviour, which stores the pair as typed; the code as written is Auth.SignUpAsWritten (see Findings).
- Serializers.PostReview: the author must be an existing user (the request user is authenticated); the review `pub_date` is not modelled.
- AdminForm.Clean: `UserCreationForm.clean` (password confirmation) is framework code and not modelled.
- Title rating: `rating` is declared read-only but no shown code computes it, so no mean is modelled.
- Catalogue.Valid does not require a title to keep a genre: the database does not enforce it, and deleting a genre can leave a title with none. The non-empty rule is the serializer's (Serializers.ValidateGenre).
- Views, URL routing, filters, the admin registrations, api/mixins.py (a delegation to the format validator), the duplicate `User` of api/models.py and the older reviews/serializers.py: routing or copies with no distinct behaviour.
- Category, Genre and Title name and slug length limits (256 and 50 characters) are declared by the models but not checked by the model.
